/**
 * The prompt texts built from findings: the webview's text of every
 * surviving finding grouped by file, the inline per-file text of the
 * extension's own page, the labels of the snippet library and the text a
 * saved snippet is sent as.
 */
module PromptText {
  import opened Options
  import opened Lists
  import opened Text
  import opened Findings
  import opened Grouping

  /** The closing instruction both prompt texts end with. */
  const Suffix := "Fix these SAST issues"

  /**
   * The lines for one finding numbered `n`, every line indented by
   * `indent`; the `Line:` row only when the line number is truthy.
   */
  function IssueBlock(i: Issue, n: nat, indent: string): string {
    indent + "Issue " + NatToString(n) + ":\n" +
    indent + "Message: " + i.message + "\n" +
    indent + "Severity: " + i.severity + "\n" +
    (if HasLine(i) then indent + "Line: " + NatToString(i.line.value) + "\n" else "") +
    indent + "Rule: " + i.rule + "\n\n"
  }

  /** The blocks of a list of findings, numbered from 1 in list order. */
  function IssueBlocks(s: seq<Issue>, indent: string): string {
    if s == [] then ""
    else IssueBlocks(s[..|s| - 1], indent) + IssueBlock(s[|s| - 1], |s|, indent)
  }

  /** The header of a file block. */
  function FileHeader(c: string, n: nat): string {
    "File: " + c + " (" + NatToString(n) + " issues)\n"
  }

  /** `File: <c> (<n> issues)` followed by the indented blocks of the file's findings. */
  function FileBlock(c: string, group: seq<Issue>): string {
    FileHeader(c, |group|) + IssueBlocks(group, "  ")
  }

  /**
   * `Object.entries(groups).map(...).join('')` for the grouping dictionary
   * of `s`: the file block of each component of `keys`, holding that
   * component's findings of `s`.
   */
  function RenderFiles(keys: seq<string>, s: seq<Issue>): string {
    if keys == [] then ""
    else RenderFiles(keys[..|keys| - 1], s) + FileBlock(keys[|keys| - 1], GroupOf(s, keys[|keys| - 1]))
  }

  /**
   * The webview's prompt text for the surviving findings: one file block
   * per component in first-encounter order, then the closing instruction.
   */
  function WebviewPrompt(subset: seq<Issue>): string {
    RenderFiles(GroupKeys(subset), subset) + Suffix
  }

  /** The inline page's text for one file: unindented blocks without a file header. */
  function InlinePrompt(group: seq<Issue>): string {
    IssueBlocks(group, "") + Suffix
  }

  /** Both prompt texts end with the closing instruction. */
  lemma EndsWithSuffix(subset: seq<Issue>)
    ensures |WebviewPrompt(subset)| >= |Suffix|
    ensures WebviewPrompt(subset)[|WebviewPrompt(subset)| - |Suffix|..] == Suffix
    ensures |InlinePrompt(subset)| >= |Suffix|
    ensures InlinePrompt(subset)[|InlinePrompt(subset)| - |Suffix|..] == Suffix
  {
  }

  /** The blocks for a prefix of the findings are a prefix of the blocks. */
  lemma {:induction false} IssueBlocksPrefix(s: seq<Issue>, m: nat, indent: string)
    requires m <= |s|
    ensures IssueBlocks(s[..m], indent) <= IssueBlocks(s, indent)
    decreases |s|
  {
    if m < |s| {
      var init := s[..|s| - 1];
      assert s[..m] == init[..m];
      IssueBlocksPrefix(init, m, indent);
    } else {
      assert s[..m] == s;
    }
  }

  /**
   * Numbering restarts at 1 for each list and follows list order: the
   * finding at position `k` is written as block number `k + 1`, right after
   * the blocks of the findings before it.
   */
  lemma Numbering(s: seq<Issue>, k: nat, indent: string)
    requires k < |s|
    ensures IssueBlocks(s[..k], indent) + IssueBlock(s[k], k + 1, indent) <= IssueBlocks(s, indent)
  {
    var p := s[..k + 1];
    assert p[..|p| - 1] == s[..k];
    IssueBlocksPrefix(s, k + 1, indent);
  }

  /** A line number of 0 is written exactly like a missing one. */
  lemma ZeroLineOmitted(i: Issue, n: nat, indent: string)
    requires i.line == Some(0)
    ensures IssueBlock(i, n, indent) == IssueBlock(i.(line := None), n, indent)
  {
  }

  /**
   * A truthy line number adds exactly its `Line:` row to the block, between
   * the `Severity:` row and the `Rule:` row, which close the block either way.
   */
  lemma LineRow(i: Issue, n: nat, indent: string)
    requires HasLine(i)
    ensures var sev := indent + "Severity: " + i.severity + "\n";
      var row := indent + "Line: " + NatToString(i.line.value) + "\n";
      var rule := indent + "Rule: " + i.rule + "\n\n";
      exists head :: IssueBlock(i.(line := None), n, indent) == head + sev + rule &&
        IssueBlock(i, n, indent) == head + sev + row + rule
  {
    var head := indent + "Issue " + NatToString(n) + ":\n" + indent + "Message: " + i.message + "\n";
    var sev := indent + "Severity: " + i.severity + "\n";
    var row := indent + "Line: " + NatToString(i.line.value) + "\n";
    var rule := indent + "Rule: " + i.rule + "\n\n";
    assert head + indent + "Severity: " + i.severity + "\n" == head + sev;
    assert head + sev + indent + "Line: " + NatToString(i.line.value) + "\n" == head + sev + row;
    assert IssueBlock(i.(line := None), n, indent) == head + sev + "" + rule;
    assert head + sev + "" == head + sev;
  }

  /** Rendering one key more appends that key's file block. */
  lemma RenderFilesNext(keys: seq<string>, j: nat, s: seq<Issue>)
    requires j < |keys|
    ensures RenderFiles(keys[..j + 1], s) == RenderFiles(keys[..j], s) + FileBlock(keys[j], GroupOf(s, keys[j]))
  {
    assert keys[..j + 1][..j] == keys[..j];
  }

  /** The file blocks for a prefix of the keys are a prefix of the file blocks. */
  lemma {:induction false} RenderFilesPrefix(keys: seq<string>, m: nat, s: seq<Issue>)
    requires m <= |keys|
    ensures RenderFiles(keys[..m], s) <= RenderFiles(keys, s)
    decreases |keys|
  {
    if m < |keys| {
      var init := keys[..|keys| - 1];
      assert keys[..m] == init[..m];
      RenderFilesPrefix(init, m, s);
    } else {
      assert keys[..m] == keys;
    }
  }

  /** An empty list of surviving findings gives exactly the closing instruction, and only it does. */
  lemma EmptyPrompt(subset: seq<Issue>)
    ensures WebviewPrompt(subset) == Suffix <==> subset == []
  {
    var keys := GroupKeys(subset);
    if subset != [] {
      DistinctHead(Components(subset));
      RenderFilesPrefix(keys, 1, subset);
      assert keys[..1] == [keys[0]];
      assert |RenderFiles(keys, subset)| > 0;
    }
  }

  lemma FileBlockHeader(c: string, group: seq<Issue>)
    ensures FileHeader(c, |group|) <= FileBlock(c, group)
  {
    assert FileBlock(c, group) == FileHeader(c, |group|) + IssueBlocks(group, "  ");
  }

  lemma FirstFileBlock(keys: seq<string>, s: seq<Issue>)
    requires keys != []
    ensures FileBlock(keys[0], GroupOf(s, keys[0])) <= RenderFiles(keys, s)
  {
    assert keys[..1] == [keys[0]] && [keys[0]][..0] == [];
    assert RenderFiles(keys[..1], s) == FileBlock(keys[0], GroupOf(s, keys[0]));
    RenderFilesPrefix(keys, 1, s);
  }

  /** The text opens with the header of the first surviving finding's file. */
  lemma StartsWithFirstFile(subset: seq<Issue>)
    requires subset != []
    ensures var c := subset[0].component;
            FileHeader(c, |GroupOf(subset, c)|) <= WebviewPrompt(subset)
  {
    var keys := GroupKeys(subset);
    var c := subset[0].component;
    DistinctHead(Components(subset));
    assert keys[0] == c;
    FileBlockHeader(c, GroupOf(subset, c));
    FirstFileBlock(keys, subset);
    var header, files := FileHeader(c, |GroupOf(subset, c)|), RenderFiles(keys, subset);
    assert (files + Suffix)[..|header|] == files[..|header|];
  }

  /**
   * Findings of one file are gathered under its header even when another
   * file's findings come between them: for files `a` then `b` then `a`, the
   * text has `a`'s block with both findings, then `b`'s.
   */
  lemma MergesFileFindings(x1: Issue, y: Issue, x2: Issue)
    requires x1.component == x2.component != y.component
    ensures WebviewPrompt([x1, y, x2]) ==
      FileBlock(x1.component, [x1, x2]) + FileBlock(y.component, [y]) + Suffix
  {
    var s, a, b := [x1, y, x2], x1.component, y.component;
    KeysOfThree(x1, y, x2);
    GroupsOfThree(x1, y, x2, a);
    GroupsOfThree(x1, y, x2, b);
    assert GroupOf(s, a) == [x1] + [] + [x2] == [x1, x2];
    assert GroupOf(s, b) == [] + [y] + [] == [y];
    RenderTwo(a, b, s);
  }

  lemma KeysOfThree(x1: Issue, y: Issue, x2: Issue)
    requires x1.component == x2.component != y.component
    ensures GroupKeys([x1, y, x2]) == [x1.component, y.component]
  {
    var a, b := x1.component, y.component;
    assert Components([x1, y, x2]) == [a, b, a];
    assert [a, b, a][..2] == [a, b] && [a, b][..1] == [a] && [a][..0] == [];
    assert Distinct([a]) == [a];
    assert Distinct([a, b]) == [a, b];
  }

  lemma GroupsOfThree(x1: Issue, y: Issue, x2: Issue, c: string)
    ensures GroupOf([x1, y, x2], c) ==
      (if x1.component == c then [x1] else []) + (if y.component == c then [y] else []) +
      (if x2.component == c then [x2] else [])
  {
    GroupOfOne(x1, c);
    GroupOfTwo(x1, y, c);
    GroupOfThree(x1, y, x2, c);
  }

  lemma GroupOfOne(x1: Issue, c: string)
    ensures GroupOf([x1], c) == if x1.component == c then [x1] else []
  {
    assert [x1][..0] == [];
    assert Filter([x1][..0], OfComponent(c)) == [];
  }

  lemma GroupOfTwo(x1: Issue, y: Issue, c: string)
    ensures GroupOf([x1, y], c) == GroupOf([x1], c) + (if y.component == c then [y] else [])
  {
    assert [x1, y][..1] == [x1];
  }

  lemma GroupOfThree(x1: Issue, y: Issue, x2: Issue, c: string)
    ensures GroupOf([x1, y, x2], c) == GroupOf([x1, y], c) + (if x2.component == c then [x2] else [])
  {
    assert [x1, y, x2][..2] == [x1, y];
  }

  lemma RenderTwo(a: string, b: string, s: seq<Issue>)
    ensures RenderFiles([a, b], s) == FileBlock(a, GroupOf(s, a)) + FileBlock(b, GroupOf(s, b))
  {
    assert [a, b][..1] == [a] && [a][..0] == [];
    assert RenderFiles([a], s) == FileBlock(a, GroupOf(s, a));
  }

  /**
   * The label of a snippet in the library: its first 80 characters, and
   * `...` when it is longer.
   */
  function PromptLabel(text: string): string {
    (if |text| <= 80 then text else text[..80]) + (if |text| > 80 then "..." else "")
  }

  /** A short snippet is its own label; a long one is cut to 80 characters and marked. */
  lemma LabelShape(text: string)
    ensures |text| <= 80 ==> PromptLabel(text) == text
    ensures |text| > 80 ==>
      |PromptLabel(text)| == 83 && PromptLabel(text)[..80] == text[..80] && PromptLabel(text)[80..] == "..."
  {
  }

  /**
   * What `saveCustomPrompt` sends for the input field's text: a line break
   * and the trimmed text, or nothing when only white space was typed.
   */
  function SavedPrompt(input: string): Option<string> {
    var t := Trim(input);
    if t != "" then Some("\n" + t) else None
  }

  /**
   * Nothing is saved exactly for white space; otherwise the saved snippet is
   * a line break followed by the input without surrounding white space.
   */
  lemma SavedPromptSpec(input: string)
    ensures SavedPrompt(input).None? <==> forall k :: 0 <= k < |input| ==> IsJsSpace(input[k])
    ensures SavedPrompt(input).Some? ==>
      var p := SavedPrompt(input).value;
      |p| >= 2 && p[0] == '\n' && !IsJsSpace(p[1]) && !IsJsSpace(p[|p| - 1]) && p[1..] == Trim(input)
  {
    TrimEmpty(input);
    var i, j := TrimSpec(input);
  }
}

/**
 * The `fixBugs` command of the extension: the page it opens (one item per
 * file, and a script that shows a file's findings as prompt text and posts
 * a `fix` message), and the handler of that message, which types a
 * `cursor-agent` command line with the prompt escaped for double quotes.
 * The grouping loop the command starts with is `Grouping.GroupByComponent`.
 */
module FixBugsCommand {
  import opened Options
  import opened Text
  import opened Findings
  import opened Grouping
  import opened PromptText
  import opened Escaping
  import opened Effects

  /** The name of the terminal the agent runs in. */
  const AgentTerminal := "Cursor Agent"

  /** The characters the prompt escape prefixes with a backslash. */
  const PromptSpecial: set<char> := {'\\', '"', '$', '`'}

  /** The four chained `.replace` calls of `runCursorAgent`, backslash first. */
  function EscapePrompt(s: string): string {
    ReplaceChar(ReplaceChar(ReplaceChar(ReplaceChar(s, '\\', "\\\\"), '"', "\\\""), '$', "\\$"), '`', "\\`")
  }

  /**
   * The chain is one per-character map: backslash, double quote, dollar and
   * backtick get a backslash in front, nothing else changes, and no escape
   * written by an earlier step is escaped again by a later one.
   */
  lemma EscapePromptMap(s: string)
    ensures EscapePrompt(s) == EscapeSet(s, PromptSpecial)
  {
    ReplaceFirst(s, '\\');
    ReplaceExtends(s, {'\\'}, '"');
    assert {'\\'} + {'"'} == {'\\', '"'};
    ReplaceExtends(s, {'\\', '"'}, '$');
    assert {'\\', '"'} + {'$'} == {'\\', '"', '$'};
    ReplaceExtends(s, {'\\', '"', '$'}, '`');
    assert {'\\', '"', '$'} + {'`'} == PromptSpecial;
  }

  /** The escaped prompt is one character longer per special character. */
  lemma EscapePromptLength(s: string)
    ensures |EscapePrompt(s)| == |s| + CountOf(s, PromptSpecial)
  {
    EscapePromptMap(s);
  }

  /**
   * Removing the backslash in front of each escaped character gives the
   * prompt back, and no special character is left bare in the escaped text.
   */
  lemma EscapePromptRoundTrip(s: string)
    ensures UnescapeSet(EscapePrompt(s), PromptSpecial) == s
    ensures WellEscaped(EscapePrompt(s), PromptSpecial)
  {
    EscapePromptMap(s);
    UnescapeEscape(s, PromptSpecial);
    EscapeWellEscaped(s, PromptSpecial);
  }

  /**
   * The order of the chain matters: with the backslash replaced last, the
   * backslash written for a double quote would itself be doubled.
   */
  lemma BackslashFirst()
    ensures EscapePrompt("\"") == "\\\""
    ensures ReplaceChar(ReplaceChar("\"", '"', "\\\""), '\\', "\\\\") == "\\\\\""
  {
    EscapePromptMap("\"");
    assert ReplaceChar("\"", '"', "\\\"") == "\\\"";
    assert ReplaceChar("\"", '\\', "\\\\") == "\"";
  }

  /** The line that changes the terminal to the folder, which is not escaped. */
  function CdLine(dir: string): string {
    "cd \"" + dir + "\""
  }

  /** The text of the agent line before the escaped prompt. */
  const AgentHead := "cursor-agent -p \""

  /** The agent line: the escaped prompt and the file, each in double quotes; the file is not escaped. */
  function AgentLine(prompt: string, file: string): string {
    AgentHead + EscapePrompt(prompt) + "\" \"" + file + "\" --output-format json > sonarai-temp/ai-response.json"
  }

  /** `runCursorAgent`: the two lines it types into the agent terminal. */
  function RunCursorAgent(dir: string, prompt: string, file: string): seq<Effect> {
    [SendText(AgentTerminal, CdLine(dir)), SendText(AgentTerminal, AgentLine(prompt, file))]
  }

  /** A message posted by the page. */
  datatype Message = Message(command: string, prompt: string, file: string, dir: string)

  /** The `onDidReceiveMessage` handler of the command. */
  function HandleMessage(m: Message): seq<Effect> {
    if m.command != "fix" then []
    else if m.file == "" then [ShowError("Select a file first")]
    else RunCursorAgent(m.dir, m.prompt, m.file)
  }

  /**
   * Only a `fix` message with a file types anything; a `fix` message
   * without one shows an error and nothing else; other messages do nothing.
   */
  lemma FixGuard(m: Message)
    ensures (exists e :: e in HandleMessage(m) && e.SendText?) <==> m.command == "fix" && m.file != ""
    ensures m.command == "fix" && m.file == "" ==> HandleMessage(m) == [ShowError("Select a file first")]
    ensures m.command != "fix" ==> HandleMessage(m) == []
  {
    if m.command == "fix" && m.file != "" {
      assert HandleMessage(m)[0].SendText?;
    }
  }

  /**
   * The agent terminal first changes to the folder, then runs the agent
   * with the prompt carried as one double-quoted argument: its escaped form
   * leaves no special character bare and unescapes to the prompt.
   */
  lemma AgentReceivesPrompt(m: Message)
    requires m.command == "fix" && m.file != ""
    ensures var e := EscapePrompt(m.prompt);
      HandleMessage(m) == [
        SendText(AgentTerminal, "cd \"" + m.dir + "\""),
        SendText(AgentTerminal, AgentHead + e + "\" \"" + m.file + "\" --output-format json > sonarai-temp/ai-response.json")] &&
      WellEscaped(e, PromptSpecial) && UnescapeSet(e, PromptSpecial) == m.prompt
  {
    EscapePromptRoundTrip(m.prompt);
  }

  /**
   * The inline page's `fix()` for a component `<project>:` (nothing after
   * the colon) posts an empty file, which the handler turns down.
   */
  lemma EmptyPathRejected(p: string, prompt: string, dir: string)
    requires Free(p, ':')
    ensures PathAfterFirstColon(p + ":") == ""
    ensures HandleMessage(Message("fix", prompt, PathAfterFirstColon(p + ":"), dir)) == [ShowError("Select a file first")]
  {
    var c := p + ":";
    assert c[|p|] == ':';
    var k := PathAfterFirstColonSpec(c);
    forall i | 0 <= i < |p| ensures c[i] != ':' {
      assert c[i] == p[i];
    }
    assert k == |p|;
  }

  // The file items of the page.

  /** `file.replace(/'/g, "\\'")`, the escape the item list applies to its `onclick` argument. */
  function EscapeSingleQuote(s: string): string {
    ReplaceChar(s, '\'', "\\'")
  }

  /**
   * The escape the `onclick` argument needs inside a single-quoted
   * JavaScript string: backslashes first, then single quotes.
   */
  function EscapeJsQuoted(s: string): string {
    ReplaceChar(ReplaceChar(s, '\\', "\\\\"), '\'', "\\'")
  }

  /** Characters after a backslash that `JsQuotedBody` does not decode: digits, `x`, `u` and line breaks. */
  predicate Undecoded(c: char) {
    ('0' <= c <= '9') || c == 'x' || c == 'u' || c == '\n' || c == '\r' || c == '\U{2028}' || c == '\U{2029}'
  }

  /** The character a single-character escape `\c` stands for (ECMAScript, section 12.9.4, String Literals). */
  function EscapedChar(c: char): char {
    match c
    case 'b' => '\U{0008}'
    case 't' => '\t'
    case 'n' => '\n'
    case 'v' => '\U{000B}'
    case 'f' => '\U{000C}'
    case 'r' => '\r'
    case _ => c
  }

  /**
   * The string a JavaScript single-quoted literal with body `s` denotes:
   * `None` when a bare `'` would end the literal early, a bare line break
   * makes it invalid, or an escape this model does not decode occurs.
   */
  function JsQuotedBody(s: string): Option<string>
    decreases |s|
  {
    if s == [] then Some("")
    else if s[0] == '\'' || s[0] == '\n' || s[0] == '\r' then None
    else if s[0] == '\\' then
      if |s| < 2 || Undecoded(s[1]) then None
      else match JsQuotedBody(s[2..])
        case None => None
        case Some(t) => Some([EscapedChar(s[1])] + t)
    else match JsQuotedBody(s[1..])
      case None => None
      case Some(t) => Some([s[0]] + t)
  }

  /** The quotes escaped: backslash and single quote get a backslash in front. */
  lemma EscapeJsQuotedMap(s: string)
    ensures EscapeJsQuoted(s) == EscapeSet(s, {'\\', '\''})
  {
    ReplaceFirst(s, '\\');
    ReplaceExtends(s, {'\\'}, '\'');
    assert {'\\'} + {'\''} == {'\\', '\''};
  }

  lemma {:induction false} DecodeEscaped(s: string)
    requires forall k :: 0 <= k < |s| ==> s[k] != '\n' && s[k] != '\r'
    ensures JsQuotedBody(EscapeSet(s, {'\\', '\''})) == Some(s)
  {
    if s != [] {
      var rest := EscapeSet(s[1..], {'\\', '\''});
      DecodeEscaped(s[1..]);
      if s[0] in {'\\', '\''} {
        var e := ['\\', s[0]] + rest;
        assert EscapeSet(s, {'\\', '\''}) == e;
        assert e[0] == '\\' && e[1] == s[0] && e[2..] == rest;
        assert !Undecoded(s[0]) && EscapedChar(s[0]) == s[0];
        assert JsQuotedBody(e) == Some([s[0]] + s[1..]);
        assert [s[0]] + s[1..] == s;
      } else {
        var e := [s[0]] + rest;
        assert EscapeSet(s, {'\\', '\''}) == e;
        assert e[0] == s[0] && e[1..] == rest;
        assert JsQuotedBody(e) == Some([s[0]] + s[1..]);
        assert [s[0]] + s[1..] == s;
      }
    }
  }

  /** The corrected escape reads back as the file name inside single quotes, for any name without a line break. */
  lemma JsQuotedRoundTrip(s: string)
    requires forall k :: 0 <= k < |s| ==> s[k] != '\n' && s[k] != '\r'
    ensures JsQuotedBody(EscapeJsQuoted(s)) == Some(s)
  {
    EscapeJsQuotedMap(s);
    DecodeEscaped(s);
  }

  /**
   * The escape as written agrees with the corrected one exactly for names
   * without a backslash.
   */
  lemma SingleQuoteAgrees(s: string)
    ensures EscapeSingleQuote(s) == EscapeJsQuoted(s) <==> forall k :: 0 <= k < |s| ==> s[k] != '\\'
  {
    ReplaceFirst(s, '\'');
    EscapeJsQuotedMap(s);
    EscapeSubset(s, {'\''}, {'\\', '\''});
    assert {'\\', '\''} - {'\''} == {'\\'};
  }

  /**
   * With the escape as written, the item of a file named `a\n` (a
   * backslash, then `n`) calls `showIssues` with `a` and a line break, a
   * key the page's dictionary does not have.
   */
  lemma BackslashInFileName()
    ensures EscapeSingleQuote("a\\n") == "a\\n"
    ensures JsQuotedBody(EscapeSingleQuote("a\\n")) == Some("a\n")
    ensures JsQuotedBody(EscapeSingleQuote("a\\n")) != Some("a\\n")
  {
    var s := "a\\n";
    assert ReplaceChar(s[2..], '\'', "\\'") == "n";
    assert ReplaceChar(s[1..], '\'', "\\'") == "\\n";
    var t := s[1..];
    assert t[0] == '\\' && |t| == 2 && t[2..] == "" && !Undecoded(t[1]);
    assert JsQuotedBody(t[2..]) == Some("");
    assert JsQuotedBody(t) == Some([EscapedChar(t[1])] + "");
    assert [EscapedChar(t[1])] + "" == "\n";
    assert JsQuotedBody(s) == Some(['a'] + "\n");
    assert ['a'] + "\n" == "a\n";
  }

  /**
   * With the escape as written, the `onclick` argument reads back as the
   * file name exactly when the name has neither a backslash nor a line break.
   */
  lemma ItemArgumentReadsBack(s: string)
    requires forall k :: 0 <= k < |s| ==> s[k] != '\\' && s[k] != '\n' && s[k] != '\r'
    ensures JsQuotedBody(EscapeSingleQuote(s)) == Some(s)
  {
    SingleQuoteAgrees(s);
    JsQuotedRoundTrip(s);
  }

  /** One entry of the item list: the name escaped as written in the `onclick` call, the name and the group size. */
  function FileItem(file: string, n: nat): string {
    "<div class=\"file-item\" onclick=\"showIssues('" + EscapeSingleQuote(file) + "')\"><strong>" +
    file + "</strong> (" + NatToString(n) + ")</div>"
  }

  /** `Object.keys(groupedIssues).map(...).join('')` for the grouping dictionary of `s`. */
  function FileItems(keys: seq<string>, s: seq<Issue>): string {
    if keys == [] then ""
    else FileItems(keys[..|keys| - 1], s) + FileItem(keys[|keys| - 1], |GroupOf(s, keys[|keys| - 1])|)
  }

  /** The items of a prefix of the keys are a prefix of the list. */
  lemma {:induction false} FileItemsPrefix(keys: seq<string>, m: nat, s: seq<Issue>)
    requires m <= |keys|
    ensures FileItems(keys[..m], s) <= FileItems(keys, s)
    decreases |keys|
  {
    if m < |keys| {
      var init := keys[..|keys| - 1];
      assert keys[..m] == init[..m];
      FileItemsPrefix(init, m, s);
    } else {
      assert keys[..m] == keys;
    }
  }

  /**
   * The list holds the keys in order: the item of the key at position `j`,
   * with that group's size, comes right after the items of the keys before it.
   */
  lemma ItemsInKeyOrder(keys: seq<string>, j: nat, s: seq<Issue>)
    requires j < |keys|
    ensures FileItems(keys[..j], s) + FileItem(keys[j], |GroupOf(s, keys[j])|) <= FileItems(keys, s)
  {
    var p := keys[..j + 1];
    assert p[..|p| - 1] == keys[..j];
    FileItemsPrefix(keys, j + 1, s);
  }

  // The inline script of the page.

  /**
   * The `forEach` of the inline `showIssues` that appends each finding's
   * lines to `text` with `+=`, then the closing instruction.
   */
  method BuildInlinePrompt(fileIssues: seq<Issue>) returns (text: string)
    ensures text == InlinePrompt(fileIssues)
  {
    text := "";
    for idx := 0 to |fileIssues|
      invariant text == IssueBlocks(fileIssues[..idx], "")
    {
      var issue := fileIssues[idx];
      ghost var before := text;
      text := text + ("Issue " + NatToString(idx + 1) + ":\n");
      text := text + ("Message: " + issue.message + "\n");
      text := text + ("Severity: " + issue.severity + "\n");
      ghost var lineRow := "";
      if HasLine(issue) {
        lineRow := "Line: " + NatToString(issue.line.value) + "\n";
        text := text + ("Line: " + NatToString(issue.line.value) + "\n");
      }
      text := text + ("Rule: " + issue.rule + "\n\n");
      InlineBlock(issue, idx + 1);
      assert text == before + ("Issue " + NatToString(idx + 1) + ":\n" + ("Message: " + issue.message + "\n") +
        ("Severity: " + issue.severity + "\n") + lineRow + ("Rule: " + issue.rule + "\n\n"));
      assert fileIssues[..idx + 1][..idx] == fileIssues[..idx];
    }
    assert fileIssues[..|fileIssues|] == fileIssues;
    text := text + Suffix;
  }

  /** The unindented block of a finding is its lines one after the other. */
  lemma InlineBlock(i: Issue, n: nat)
    ensures IssueBlock(i, n, "") == ("Issue " + NatToString(n) + ":\n") + ("Message: " + i.message + "\n") +
      ("Severity: " + i.severity + "\n") +
      (if HasLine(i) then "Line: " + NatToString(i.line.value) + "\n" else "") +
      ("Rule: " + i.rule + "\n\n")
  {
    var a := "Issue " + NatToString(n) + ":\n";
    var b := "Message: " + i.message + "\n";
    var c := "Severity: " + i.severity + "\n";
    var d := if HasLine(i) then "Line: " + NatToString(i.line.value) + "\n" else "";
    assert "" + "Issue " + NatToString(n) + ":\n" == a;
    assert a + "" + "Message: " + i.message + "\n" == a + b;
    assert a + b + "" + "Severity: " + i.severity + "\n" == a + b + c;
    if HasLine(i) {
      assert "" + "Line: " + NatToString(i.line.value) + "\n" == d;
    }
    assert a + b + c + d + "" + "Rule: " + i.rule + "\n\n" == a + b + c + d + ("Rule: " + i.rule + "\n\n");
  }

  /** The page the command opens, with its script's state. */
  class InlinePage {
    /** `issues`: the grouping dictionary embedded in the script. */
    const groups: map<string, seq<Issue>>
    /** `currentFile`: the item last clicked, or empty. */
    var currentFile: string
    /** The prompt text area. */
    var promptText: string
    /** The folder field, filled with the workspace folder. */
    var dir: string
    /** The Fix button is disabled. */
    var buttonDisabled: bool

    /** The page as served: nothing selected, an empty text area, the button disabled. */
    constructor (groups: map<string, seq<Issue>>, workspace: string)
      ensures this.groups == groups && dir == workspace
      ensures currentFile == "" && promptText == "" && buttonDisabled
    {
      this.groups := groups;
      currentFile, promptText, dir, buttonDisabled := "", "", workspace, true;
    }

    /**
     * `showIssues(file)` for the name the `onclick` argument decodes to: it
     * selects the name, then shows that file's findings and enables the
     * button. A name that is not a key of the dictionary is still selected,
     * but `issues[file].forEach` then throws, so the text area and the
     * button keep their previous state.
     */
    method ShowIssues(file: string)
      modifies this
      ensures currentFile == file && dir == old(dir)
      ensures file in groups ==> promptText == InlinePrompt(groups[file]) && !buttonDisabled
      ensures file !in groups ==> promptText == old(promptText) && buttonDisabled == old(buttonDisabled)
    {
      currentFile := file;
      if file in groups {
        promptText := BuildInlinePrompt(groups[file]);
        buttonDisabled := false;
      }
    }

    /**
     * `fix()`: nothing until a file is selected; then the text, the path
     * after the first colon of the file, and the folder, as a `fix` message.
     */
    method Fix() returns (msg: Option<Message>)
      ensures currentFile == "" <==> msg.None?
      ensures msg.Some? ==> msg.value == Message("fix", promptText, PathAfterFirstColon(currentFile), dir)
    {
      if currentFile == "" {
        return None;
      }
      var filePath := PathAfterFirstColon(currentFile);
      msg := Some(Message("fix", promptText, filePath, dir));
    }
  }
}

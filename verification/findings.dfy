/**
 * A finding of the static-analysis server and the values the webview derives
 * from its `component` key (`<project-key>:<path within the repository>`).
 */
module Findings {
  import opened Options
  import opened Text

  /**
   * One finding as the server reports it. `kind` holds the JSON field
   * `type`; `line` is absent for findings that are not tied to a line.
   */
  datatype Issue = Issue(
    component: string,
    kind: string,
    severity: string,
    rule: string,
    message: string,
    line: Option<nat>)

  /** `issue.line` is truthy: present and not zero. */
  predicate HasLine(i: Issue) {
    i.line.Some? && i.line.value != 0
  }

  /** A component key with a project part, as the webview code expects. */
  predicate HasColon(c: string) {
    !Free(c, ':')
  }

  /** Every component key of the list has a project part. */
  predicate WellFormed(issues: seq<Issue>) {
    forall k :: 0 <= k < |issues| ==> HasColon(issues[k].component)
  }

  /** `c.split(':')[1]`: the text after the first colon, up to the next colon or the end. */
  function PathSegment(c: string): (r: string)
    requires HasColon(c)
    ensures Free(r, ':')
  {
    CountOfFree(c, ':');
    Split(c, ':')[1]
  }

  /** `PathSegment` starts right after the first colon `k` and stops at the next colon or the end. */
  lemma PathSegmentSpec(c: string) returns (k: nat)
    requires HasColon(c)
    ensures k < |c| && c[k] == ':' && Free(c[..k], ':')
    ensures var r := PathSegment(c);
            k + 1 + |r| <= |c| && r == c[k + 1..k + 1 + |r|] &&
            (k + 1 + |r| == |c| || c[k + 1 + |r|] == ':')
  {
    k := SplitAtFirst(c, ':');
    var rest := c[k + 1..];
    assert PathSegment(c) == Split(rest, ':')[0];
    FirstPiece(rest, ':');
  }

  /** The first piece of a split runs up to the first separator or the end. */
  lemma FirstPiece(s: string, d: char)
    ensures var p := Split(s, d)[0];
            |p| <= |s| && p == s[..|p|] && (|p| == |s| || s[|p|] == d)
  {
    if Free(s, d) {
      SplitFree(s, d);
    } else {
      var k := SplitAtFirst(s, d);
    }
  }

  /**
   * The directory facet value, `c.split(':')[1].split('/').slice(0, -1).join('/')`:
   * the path segment without its last `/`-separated part, or the empty
   * string when the segment holds no `/`.
   */
  function DirectoryOf(c: string): (r: string)
    requires HasColon(c)
    ensures Free(PathSegment(c), '/') ==> r == ""
    ensures !Free(PathSegment(c), '/') ==> BeforeLast(PathSegment(c), '/', r)
  {
    var parts := Split(PathSegment(c), '/');
    JoinAllButLast(PathSegment(c), '/');
    Join(parts[..|parts| - 1], '/')
  }

  /**
   * The path `fix` sends, `c.includes(':') ? c.split(':').slice(1).join(':') : c`.
   */
  function PathAfterFirstColon(c: string): string {
    if HasColon(c) then
      CountOfFree(c, ':');
      Join(Split(c, ':')[1..], ':')
    else c
  }

  /**
   * The path `fix` sends is everything after the first colon `k`, later
   * colons included, or the whole key when it has no colon.
   */
  lemma PathAfterFirstColonSpec(c: string) returns (k: nat)
    ensures !HasColon(c) ==> PathAfterFirstColon(c) == c
    ensures HasColon(c) ==>
      k < |c| && c[k] == ':' && Free(c[..k], ':') && PathAfterFirstColon(c) == c[k + 1..]
  {
    if HasColon(c) {
      k := SplitAtFirst(c, ':');
      JoinSplit(c[k + 1..], ':');
    } else {
      k := 0;
    }
  }

  /**
   * The directory of a component occurs in the component, so selecting a
   * directory value in the directory facet keeps every finding it was
   * derived from.
   */
  lemma DirectoryInComponent(c: string)
    requires HasColon(c)
    ensures Contains(c, DirectoryOf(c))
  {
    var k := PathSegmentSpec(c);
    var seg, dir := PathSegment(c), DirectoryOf(c);
    assert |dir| <= |seg| && dir == seg[..|dir|];
    assert c[k + 1..k + 1 + |dir|] == dir;
    ContainsAt(c, dir, k + 1);
  }

  /** The first colon of `p + ":" + rest` is the one after `p` when `p` has none. */
  lemma SegmentAfterProject(p: string, rest: string)
    requires Free(p, ':') && Free(rest, ':')
    ensures HasColon(p + ":" + rest) && PathSegment(p + ":" + rest) == rest
  {
    var c := p + ":" + rest;
    assert c[|p|] == ':';
    var k := PathSegmentSpec(c);
    forall i | 0 <= i < |p| ensures c[i] != ':' {
      assert c[i] == p[i];
    }
    forall i | 0 <= i < k ensures c[i] != ':' {
      assert c[..k][i] == c[i];
    }
    forall i | |p| < i < |c| ensures c[i] != ':' {
      assert c[i] == rest[i - |p| - 1];
    }
    assert c[k + 1..] == rest;
  }

  /**
   * A component `<project>:<dir>/<file>` without further colons has the
   * directory facet value `<dir>`, however many `/` the directory holds.
   */
  lemma DirectoryOfNested(p: string, dir: string, f: string)
    requires Free(p, ':') && Free(dir, ':') && Free(f, ':') && Free(f, '/')
    ensures HasColon(p + ":" + dir + "/" + f)
    ensures DirectoryOf(p + ":" + dir + "/" + f) == dir
  {
    var seg := dir + "/" + f;
    assert Free(seg, ':') by {
      forall i | 0 <= i < |seg| ensures seg[i] != ':' {
        if i < |dir| { assert seg[i] == dir[i]; }
        else if i > |dir| { assert seg[i] == f[i - |dir| - 1]; }
      }
    }
    assert p + ":" + dir + "/" + f == p + ":" + seg;
    SegmentAfterProject(p, seg);
    assert seg[|dir|] == '/';
    var r := DirectoryOf(p + ":" + seg);
    assert BeforeLast(seg, '/', r);
    forall i | |dir| < i < |seg| ensures seg[i] != '/' {
      assert seg[i] == f[i - |dir| - 1];
    }
    forall i | |r| < i < |seg| ensures seg[i] != '/' {
      assert seg[|r| + 1..][i - |r| - 1] == seg[i];
    }
    assert r == seg[..|dir|] == dir;
  }

  /** A file directly under the project root has the empty directory value. */
  lemma DirectoryOfTopLevel(p: string, f: string)
    requires Free(p, ':') && Free(f, ':') && Free(f, '/')
    ensures HasColon(p + ":" + f) && DirectoryOf(p + ":" + f) == ""
  {
    SegmentAfterProject(p, f);
  }

  /**
   * The path `fix` sends for `<project>:<rest>` is `<rest>`, colons included,
   * while the directory facet value stops at the second colon: for
   * `"p:a:b/c.ts"` it is empty although the path is `"a:b/c.ts"`.
   */
  lemma SecondColon()
    ensures PathAfterFirstColon("p:a:b/c.ts") == "a:b/c.ts"
    ensures HasColon("p:a:b/c.ts") && DirectoryOf("p:a:b/c.ts") == ""
  {
    SecondColonPath();
    SecondColonSegment();
  }

  lemma SecondColonPath()
    ensures PathAfterFirstColon("p:a:b/c.ts") == "a:b/c.ts"
  {
    var c := "p:a:b/c.ts";
    assert c[1] == ':';
    var k := PathAfterFirstColonSpec(c);
    assert k == 1 by {
      assert c[0] != ':';
      assert forall j | 0 <= j < k :: c[..k][j] == c[j];
    }
    assert c[2..] == "a:b/c.ts";
  }

  lemma SecondColonSegment()
    ensures HasColon("p:a:b/c.ts") && PathSegment("p:a:b/c.ts") == "a"
  {
    var c := "p:a:b/c.ts";
    assert c[1] == ':' && c[..1] == "p";
    FirstSeparator(c, ':', 1);
    var rest := c[2..];
    assert rest[1] == ':' && rest[..1] == "a";
    FirstSeparator(rest, ':', 1);
    assert Split(c, ':')[1] == Split(c, ':')[1..][0] == Split(rest, ':')[0];
  }
}

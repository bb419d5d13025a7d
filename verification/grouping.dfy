/**
 * Grouping findings by their `component` key into a dictionary whose keys
 * keep insertion order, as both the extension command and the webview's
 * `filter()` do.
 */
module Grouping {
  import opened Lists
  import opened Findings

  /** The component keys of the findings, in order. */
  function Components(s: seq<Issue>): seq<string> {
    seq(|s|, k requires 0 <= k < |s| => s[k].component)
  }

  /** `Object.keys` of the grouping dictionary: each component once, in first-encounter order. */
  function GroupKeys(s: seq<Issue>): seq<string> {
    Distinct(Components(s))
  }

  /** Selects the findings of one component. */
  function OfComponent(c: string): Issue -> bool {
    (i: Issue) => i.component == c
  }

  /** The findings of component `c`, in input order. */
  function GroupOf(s: seq<Issue>, c: string): seq<Issue> {
    Filter(s, OfComponent(c))
  }

  /** The grouping dictionary: one entry per component that occurs, holding its findings. */
  function Groups(s: seq<Issue>): map<string, seq<Issue>> {
    map c | c in GroupKeys(s) :: GroupOf(s, c)
  }

  /** A key of the dictionary's key list has an entry, holding that component's findings. */
  lemma GroupEntry(s: seq<Issue>, c: string)
    requires c in GroupKeys(s)
    ensures c in Groups(s) && Groups(s)[c] == GroupOf(s, c)
  {
  }

  lemma ComponentsSnoc(s: seq<Issue>, x: Issue)
    ensures Components(s + [x]) == Components(s) + [x.component]
  {
  }

  lemma GroupKeysSnoc(s: seq<Issue>, x: Issue)
    ensures GroupKeys(s + [x]) ==
      if x.component in GroupKeys(s) then GroupKeys(s) else GroupKeys(s) + [x.component]
  {
    ComponentsSnoc(s, x);
    assert (Components(s) + [x.component])[..|s|] == Components(s);
  }

  lemma GroupOfSnoc(s: seq<Issue>, x: Issue, d: string)
    ensures GroupOf(s + [x], d) == if d == x.component then GroupOf(s, d) + [x] else GroupOf(s, d)
  {
    FilterSnoc(s, x, OfComponent(d));
  }

  /** A component met for the first time has no findings so far. */
  lemma GroupOfAbsent(s: seq<Issue>, c: string)
    requires c !in GroupKeys(s)
    ensures GroupOf(s, c) == []
  {
    forall k | 0 <= k < |s| ensures !OfComponent(c)(s[k]) {
      assert Components(s)[k] == s[k].component;
    }
    FilterNone(s, OfComponent(c));
  }

  /** `keys` and `groups` are the grouping dictionary of `s`. */
  ghost predicate Grouped(s: seq<Issue>, keys: seq<string>, groups: map<string, seq<Issue>>) {
    keys == GroupKeys(s) &&
    (forall c :: c in groups <==> c in keys) &&
    (forall c :: c in groups ==> groups[c] == GroupOf(s, c))
  }

  /** One step of the grouping loop keeps the dictionary in step with the findings seen. */
  lemma PushStep(s: seq<Issue>, x: Issue, keys: seq<string>, groups: map<string, seq<Issue>>)
    requires Grouped(s, keys, groups)
    ensures var c := x.component;
            var keys' := if c in groups then keys else keys + [c];
            var start := if c in groups then groups else groups[c := []];
            Grouped(s + [x], keys', start[c := start[c] + [x]])
  {
    var c := x.component;
    if c in groups {
      PushExisting(s, x, keys, groups);
    } else {
      PushNew(s, x, keys, groups);
    }
  }

  lemma PushExisting(s: seq<Issue>, x: Issue, keys: seq<string>, groups: map<string, seq<Issue>>)
    requires Grouped(s, keys, groups) && x.component in groups
    ensures Grouped(s + [x], keys, groups[x.component := groups[x.component] + [x]])
  {
    var c := x.component;
    var g := groups[c := groups[c] + [x]];
    GroupKeysSnoc(s, x);
    forall d | d in g ensures g[d] == GroupOf(s + [x], d) {
      GroupOfSnoc(s, x, d);
    }
  }

  lemma PushNew(s: seq<Issue>, x: Issue, keys: seq<string>, groups: map<string, seq<Issue>>)
    requires Grouped(s, keys, groups) && x.component !in groups
    ensures Grouped(s + [x], keys + [x.component], groups[x.component := [x]])
  {
    var c := x.component;
    var g := groups[c := [x]];
    GroupKeysSnoc(s, x);
    GroupOfAbsent(s, c);
    forall d | d in g ensures g[d] == GroupOf(s + [x], d) {
      GroupOfSnoc(s, x, d);
    }
  }

  /**
   * The `forEach` loop that fills `groupedIssues`: an array is created the
   * first time a component is met and every finding is pushed onto its
   * component's array. `keys` records the dictionary's insertion order.
   */
  method GroupByComponent(issues: seq<Issue>) returns (keys: seq<string>, groups: map<string, seq<Issue>>)
    ensures keys == GroupKeys(issues)
    ensures groups == Groups(issues)
  {
    keys, groups := [], map[];
    var i := 0;
    while i < |issues|
      invariant 0 <= i <= |issues|
      invariant Grouped(issues[..i], keys, groups)
    {
      var issue := issues[i];
      var c := issue.component;
      assert issues[..i + 1] == issues[..i] + [issue];
      PushStep(issues[..i], issue, keys, groups);
      if c !in groups {
        groups := groups[c := []];
        keys := keys + [c];
      }
      groups := groups[c := groups[c] + [issue]];
      i := i + 1;
    }
    assert issues[..i] == issues;
    assert groups.Keys == Groups(issues).Keys;
  }

  /** The dictionary has exactly one key per component that occurs, with no key repeated. */
  lemma GroupKeysExact(s: seq<Issue>)
    ensures forall c :: c in GroupKeys(s) <==> exists k :: 0 <= k < |s| && s[k].component == c
    ensures NoDuplicates(GroupKeys(s))
  {
    forall c | c in GroupKeys(s) ensures exists k :: 0 <= k < |s| && s[k].component == c {
      var k := FirstIndex(Components(s), c);
    }
    forall c, k | 0 <= k < |s| && s[k].component == c ensures c in GroupKeys(s) {
      assert Components(s)[k] == c;
    }
  }

  /**
   * Every finding lies in exactly the group of its own component, as often
   * as it occurs in the input, and each group keeps the input order.
   */
  lemma GroupContents(s: seq<Issue>, c: string)
    ensures forall x :: multiset(GroupOf(s, c))[x] == if x.component == c then multiset(s)[x] else 0
    ensures forall k :: 0 <= k < |GroupOf(s, c)| ==> GroupOf(s, c)[k].component == c
    ensures IsSubseq(GroupOf(s, c), s)
  {
    FilterSpec(s, OfComponent(c));
    FilterIsSubseq(s, OfComponent(c));
  }

  /** A group is as long as its component occurs among the keys of the findings. */
  lemma {:induction false} GroupSize(s: seq<Issue>, c: string)
    ensures |GroupOf(s, c)| == multiset(Components(s))[c]
  {
    if s != [] {
      var init, x := s[..|s| - 1], s[|s| - 1];
      assert s == init + [x];
      GroupSize(init, c);
      FilterSnoc(init, x, OfComponent(c));
      ComponentsSnoc(init, x);
    }
  }

  /** Sum of the sizes of the groups of `s` named by `keys`. */
  function TotalSize(keys: seq<string>, s: seq<Issue>): nat {
    if keys == [] then 0 else |GroupOf(s, keys[0])| + TotalSize(keys[1..], s)
  }

  lemma {:induction false} TotalSizeCounts(keys: seq<string>, s: seq<Issue>)
    ensures TotalSize(keys, s) == SumOfCounts(keys, Components(s))
  {
    if keys != [] {
      GroupSize(s, keys[0]);
      TotalSizeCounts(keys[1..], s);
    }
  }

  /** The group sizes add up to the number of findings. */
  lemma GroupSizesSum(s: seq<Issue>)
    ensures TotalSize(GroupKeys(s), s) == |s|
  {
    TotalSizeCounts(GroupKeys(s), s);
    DistinctCountsSum(Components(s));
  }
}

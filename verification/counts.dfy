/**
 * The facet boxes: for each facet the distinct values of all findings, the
 * count next to each value, the descending-count order and the hiding of
 * values whose count is zero.
 */
module FacetCounts {
  import opened Lists
  import opened Findings
  import opened Facets
  import Grouping

  /** `issues.map(filterMappings[f])`. */
  function Values(s: seq<Issue>, f: Facet): seq<string> {
    seq(|s|, k requires 0 <= k < |s| => FacetValue(s[k], f))
  }

  /** The file facet's values are the component keys the grouping dictionary is built from. */
  lemma FileValuesAreComponents(s: seq<Issue>)
    ensures Values(s, File) == Grouping.Components(s)
  {
  }

  /** The `filterMappings[f](i) === value` test. */
  function HasValue(f: Facet, v: string): Issue -> bool {
    (i: Issue) => FacetValue(i, f) == v
  }

  /**
   * `getCountForValue(f, v)`: how many findings that pass every facet but
   * `f` have the value `v` for `f`.
   */
  function CountForValue(issues: seq<Issue>, sel: Selection, f: Facet, v: string): nat
    requires WellFormed(issues)
  {
    |Filter(Filtered(issues, Without(sel, f)), HasValue(f, v))|
  }

  lemma {:induction false} ValueCount(s: seq<Issue>, f: Facet, v: string)
    ensures |Filter(s, HasValue(f, v))| == multiset(Values(s, f))[v]
  {
    if s != [] {
      var init, x := s[..|s| - 1], s[|s| - 1];
      assert s == init + [x];
      ValueCount(init, f, v);
      FilterSnoc(init, x, HasValue(f, v));
      assert Values(s, f) == Values(init, f) + [FacetValue(x, f)];
    }
  }

  /**
   * The count of a value is the number of times it occurs among the values
   * of the findings that pass every facet but its own.
   */
  lemma CountIsOccurrences(issues: seq<Issue>, sel: Selection, f: Facet, v: string)
    requires WellFormed(issues)
    ensures CountForValue(issues, sel, f, v) == multiset(Values(Filtered(issues, Without(sel, f)), f))[v]
  {
    ValueCount(Filtered(issues, Without(sel, f)), f, v);
  }

  /** What is checked in a facet does not change the counts shown in that facet. */
  lemma CountIgnoresOwnSelection(issues: seq<Issue>, sel: Selection, sel': Selection, f: Facet, v: string)
    requires WellFormed(issues)
    requires forall g :: g != f ==> Selected(sel, g) == Selected(sel', g)
    ensures CountForValue(issues, sel, f, v) == CountForValue(issues, sel', f, v)
  {
    var a, b := Without(sel, f), Without(sel', f);
    assert Selected(a, Type) == Selected(b, Type);
    assert Selected(a, Severity) == Selected(b, Severity);
    assert Selected(a, Rule) == Selected(b, Rule);
    assert Selected(a, Directory) == Selected(b, Directory);
    assert Selected(a, File) == Selected(b, File);
    assert a == b;
  }

  /** Sum of the counts of the values `keys`. */
  function TotalCount(keys: seq<string>, issues: seq<Issue>, sel: Selection, f: Facet): nat
    requires WellFormed(issues)
  {
    if keys == [] then 0 else CountForValue(issues, sel, f, keys[0]) + TotalCount(keys[1..], issues, sel, f)
  }

  lemma {:induction false} TotalCountOccurrences(keys: seq<string>, issues: seq<Issue>, sel: Selection, f: Facet)
    requires WellFormed(issues)
    ensures TotalCount(keys, issues, sel, f) == SumOfCounts(keys, Values(Filtered(issues, Without(sel, f)), f))
  {
    if keys != [] {
      CountIsOccurrences(issues, sel, f, keys[0]);
      TotalCountOccurrences(keys[1..], issues, sel, f);
    }
  }

  /**
   * Over the distinct values of a facet, the counts add up to the number of
   * findings that pass every other facet.
   */
  lemma CountsSum(issues: seq<Issue>, sel: Selection, f: Facet)
    requires WellFormed(issues)
    ensures TotalCount(Distinct(Values(issues, f)), issues, sel, f) == |Filtered(issues, Without(sel, f))|
  {
    var sub := Filtered(issues, Without(sel, f));
    TotalCountOccurrences(Distinct(Values(issues, f)), issues, sel, f);
    FilterSpec(issues, PassesWith(Without(sel, f)));
    forall v | v in Values(sub, f) ensures v in Values(issues, f) {
      var k :| 0 <= k < |sub| && Values(sub, f)[k] == v;
      assert multiset(sub)[sub[k]] > 0;
      var j :| 0 <= j < |issues| && issues[j] == sub[k];
      assert Values(issues, f)[j] == v;
    }
    CountsPartition(Distinct(Values(issues, f)), Values(sub, f));
  }

  /** With nothing checked, the counts of a facet add up to the number of findings. */
  lemma NoSelectionCountsSum(issues: seq<Issue>, f: Facet)
    requires WellFormed(issues)
    ensures TotalCount(Distinct(Values(issues, f)), issues, NoSelection, f) == |issues|
  {
    CountsSum(issues, NoSelection, f);
    assert Without(NoSelection, f) == NoSelection;
    NoSelectionKeepsAll(issues);
  }

  /** A facet box: a value and its count. */
  datatype Entry = Entry(value: string, count: nat)

  /** Counts never increase along the list. */
  ghost predicate Descending(t: seq<Entry>) {
    forall j, k :: 0 <= j < k < |t| ==> t[j].count >= t[k].count
  }

  /** Selects the entries with count `c`. */
  function WithCount(c: nat): Entry -> bool {
    (e: Entry) => e.count == c
  }

  /**
   * Places `e` after every entry of `t` whose count is at least its own:
   * one step of a stable sort by descending count.
   */
  function Insert(t: seq<Entry>, e: Entry): (r: seq<Entry>)
    ensures multiset(r) == multiset(t) + multiset{e}
  {
    if t == [] || t[|t| - 1].count >= e.count then t + [e]
    else
      assert t == t[..|t| - 1] + [t[|t| - 1]];
      Insert(t[..|t| - 1], e) + [t[|t| - 1]]
  }

  lemma {:induction false} InsertDescending(t: seq<Entry>, e: Entry)
    requires Descending(t)
    ensures Descending(Insert(t, e))
  {
    if t != [] && t[|t| - 1].count < e.count {
      var init, last := t[..|t| - 1], t[|t| - 1];
      InsertDescending(init, e);
      var r := Insert(init, e);
      forall j | 0 <= j < |r| ensures r[j].count >= last.count {
        assert r[j] in multiset(r);
        if r[j] != e {
          assert r[j] in multiset(init);
          var k :| 0 <= k < |init| && init[k] == r[j];
          assert t[k] == init[k];
        }
      }
    }
  }

  /** Inserting keeps the order among entries of each count, the new one last. */
  lemma {:induction false} InsertStable(t: seq<Entry>, e: Entry, c: nat)
    ensures Filter(Insert(t, e), WithCount(c)) == Filter(t, WithCount(c)) + (if e.count == c then [e] else [])
  {
    if t == [] || t[|t| - 1].count >= e.count {
      assert Insert(t, e) == t + [e];
      FilterSnoc(t, e, WithCount(c));
    } else {
      var init, last := t[..|t| - 1], t[|t| - 1];
      assert t == init + [last];
      InsertStable(init, e, c);
      InsertPastLast(init, last, e, c);
    }
  }

  /** The step of `InsertStable` where `e` moves past the last entry, whose count is smaller. */
  lemma InsertPastLast(init: seq<Entry>, last: Entry, e: Entry, c: nat)
    requires last.count < e.count
    requires Filter(Insert(init, e), WithCount(c)) == Filter(init, WithCount(c)) + (if e.count == c then [e] else [])
    ensures Filter(Insert(init + [last], e), WithCount(c)) ==
      Filter(init + [last], WithCount(c)) + (if e.count == c then [e] else [])
  {
    var p := WithCount(c);
    var moved := if e.count == c then [e] else [];
    var kept := if last.count == c then [last] else [];
    InsertSnoc(init, last, e);
    FilterSnoc(Insert(init, e), last, p);
    FilterSnoc(init, last, p);
    OneEmpty(Filter(init, p), moved, kept);
  }

  /** `e` goes in front of a last entry with a smaller count. */
  lemma InsertSnoc(init: seq<Entry>, last: Entry, e: Entry)
    requires last.count < e.count
    ensures Insert(init + [last], e) == Insert(init, e) + [last]
  {
    assert (init + [last])[..|init|] == init;
  }

  /** Two pieces of which one is empty can be appended in either order. */
  lemma OneEmpty<T>(s: seq<T>, a: seq<T>, b: seq<T>)
    requires a == [] || b == []
    ensures s + a + b == s + b + a
  {
  }

  /**
   * `[...values].sort((a, b) => count(b) - count(a))`: a stable sort by
   * descending count, written as insertion sort.
   */
  function SortByCount(s: seq<Entry>): (r: seq<Entry>)
    ensures multiset(r) == multiset(s)
    ensures Descending(r)
  {
    if s == [] then []
    else
      assert s == s[..|s| - 1] + [s[|s| - 1]];
      InsertDescending(SortByCount(s[..|s| - 1]), s[|s| - 1]);
      Insert(SortByCount(s[..|s| - 1]), s[|s| - 1])
  }

  /** Entries with equal counts keep their original order. */
  lemma {:induction false} SortStable(s: seq<Entry>, c: nat)
    ensures Filter(SortByCount(s), WithCount(c)) == Filter(s, WithCount(c))
  {
    if s != [] {
      var init, last := s[..|s| - 1], s[|s| - 1];
      assert s == init + [last];
      SortStable(init, c);
      InsertStable(SortByCount(init), last, c);
      FilterSnoc(init, last, WithCount(c));
    }
  }

  /** Each value paired with its count. */
  function Counted(values: seq<string>, issues: seq<Issue>, sel: Selection, f: Facet): seq<Entry>
    requires WellFormed(issues)
  {
    seq(|values|, k requires 0 <= k < |values| => Entry(values[k], CountForValue(issues, sel, f, values[k])))
  }

  /** `count > 0 ? <box> : ''`: a value with count zero gets no box. */
  function Shown(e: Entry): bool {
    e.count > 0
  }

  /**
   * The boxes `populateFilters` renders for facet `f`: the distinct values
   * of all findings in first-encounter order, stably sorted by descending
   * count, without the values whose count is zero.
   */
  function FacetList(issues: seq<Issue>, sel: Selection, f: Facet): seq<Entry>
    requires WellFormed(issues)
  {
    Filter(SortByCount(Counted(Distinct(Values(issues, f)), issues, sel, f)), Shown)
  }

  lemma {:induction false} FilterDescending(t: seq<Entry>, p: Entry -> bool)
    requires Descending(t)
    ensures Descending(Filter(t, p))
  {
    if t != [] {
      var init, last := t[..|t| - 1], t[|t| - 1];
      FilterDescending(init, p);
      var r := Filter(init, p);
      FilterSpec(init, p);
      forall j | 0 <= j < |r| ensures r[j].count >= last.count {
        assert r[j] in multiset(r);
        var k :| 0 <= k < |init| && init[k] == r[j];
        assert t[k] == init[k];
      }
    }
  }

  /** The boxes are ordered by descending count. */
  lemma FacetListDescending(issues: seq<Issue>, sel: Selection, f: Facet)
    requires WellFormed(issues)
    ensures Descending(FacetList(issues, sel, f))
  {
    FilterDescending(SortByCount(Counted(Distinct(Values(issues, f)), issues, sel, f)), Shown);
  }

  /**
   * There is a box for a value with a count exactly when the value occurs
   * among the findings and that is its non-zero count.
   */
  lemma FacetListEntries(issues: seq<Issue>, sel: Selection, f: Facet, e: Entry)
    requires WellFormed(issues)
    ensures e in FacetList(issues, sel, f) <==>
      e.value in Values(issues, f) && e.count == CountForValue(issues, sel, f, e.value) && e.count > 0
  {
    var keys := Distinct(Values(issues, f));
    var counted := Counted(keys, issues, sel, f);
    var list := FacetList(issues, sel, f);
    FilterSpec(SortByCount(counted), Shown);
    assert e in list <==> multiset(list)[e] > 0;
    assert e in counted <==> multiset(counted)[e] > 0;
    if e in counted {
      var k :| 0 <= k < |counted| && counted[k] == e;
      assert keys[k] == e.value;
    }
    if e.value in keys {
      var k :| 0 <= k < |keys| && keys[k] == e.value;
      assert counted[k] == Entry(e.value, CountForValue(issues, sel, f, e.value));
    }
  }

  /** No value gets two boxes. */
  lemma FacetListDistinct(issues: seq<Issue>, sel: Selection, f: Facet)
    requires WellFormed(issues)
    ensures forall j, k :: 0 <= j < k < |FacetList(issues, sel, f)| ==>
      FacetList(issues, sel, f)[j].value != FacetList(issues, sel, f)[k].value
  {
    var keys := Distinct(Values(issues, f));
    var counted := Counted(keys, issues, sel, f);
    var list := FacetList(issues, sel, f);
    assert NoDuplicates(counted) by {
      forall j, k | 0 <= j < k < |counted| ensures counted[j] != counted[k] {
        assert counted[j].value == keys[j] && counted[k].value == keys[k];
      }
    }
    FilterSpec(SortByCount(counted), Shown);
    forall j, k | 0 <= j < k < |list| ensures list[j].value != list[k].value {
      FacetListEntries(issues, sel, f, list[j]);
      FacetListEntries(issues, sel, f, list[k]);
      if list[j].value == list[k].value {
        TwoPositions(list, j, k);
        CountInDistinct(counted, list[j]);
        assert false;
      }
    }
  }

  /** Among boxes with the same count, values keep their first-encounter order. */
  lemma FacetListStable(issues: seq<Issue>, sel: Selection, f: Facet, c: nat)
    requires WellFormed(issues) && c > 0
    ensures Filter(FacetList(issues, sel, f), WithCount(c)) ==
            Filter(Counted(Distinct(Values(issues, f)), issues, sel, f), WithCount(c))
  {
    var counted := Counted(Distinct(Values(issues, f)), issues, sel, f);
    FilterFilter(SortByCount(counted), Shown, WithCount(c));
    SortStable(counted, c);
  }
}

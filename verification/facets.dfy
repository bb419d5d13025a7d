/**
 * The webview's facet filter engine: five facets (type, severity, rule,
 * directory, file) whose checked boxes narrow the list of findings, the
 * per-value counts shown next to each box, and the order the boxes are
 * listed in. The checked boxes of each facet container are a set here.
 */
module Facets {
  import opened Lists
  import opened Text
  import opened Findings

  /** The five facet containers, `typeFilters` … `fileFilters`. */
  datatype Facet = Type | Severity | Rule | Directory | File

  /** The values checked in each facet container. */
  datatype Selection = Selection(
    types: set<string>,
    severities: set<string>,
    rules: set<string>,
    dirs: set<string>,
    files: set<string>)

  /** Nothing checked anywhere. */
  const NoSelection := Selection({}, {}, {}, {}, {})

  /** The values checked in one facet container. */
  function Selected(sel: Selection, f: Facet): set<string> {
    match f
    case Type => sel.types
    case Severity => sel.severities
    case Rule => sel.rules
    case Directory => sel.dirs
    case File => sel.files
  }

  /**
   * The filter set built for `getFilteredIssuesExcluding(f)`: facet `f`
   * contributes no checked values, every other facet its own.
   */
  function Without(sel: Selection, f: Facet): (r: Selection)
    ensures Selected(r, f) == {}
    ensures forall g :: g != f ==> Selected(r, g) == Selected(sel, g)
  {
    match f
    case Type => sel.(types := {})
    case Severity => sel.(severities := {})
    case Rule => sel.(rules := {})
    case Directory => sel.(dirs := {})
    case File => sel.(files := {})
  }

  /**
   * The value `filterMappings` derives for a facet. The directory value
   * exists only for a component with a colon (the script throws otherwise);
   * every operation below that derives values requires `WellFormed`, so the
   * empty string of the other branch is never observed.
   */
  function FacetValue(i: Issue, f: Facet): string {
    match f
    case Type => i.kind
    case Severity => i.severity
    case Rule => i.rule
    case Directory => if HasColon(i.component) then DirectoryOf(i.component) else ""
    case File => i.component
  }

  /** The body of the `issues.filter` callback: the five guards in order. */
  predicate Passes(sel: Selection, i: Issue) {
    if sel.types != {} && i.kind !in sel.types then false
    else if sel.severities != {} && i.severity !in sel.severities then false
    else if sel.rules != {} && i.rule !in sel.rules then false
    else if sel.dirs != {} && !(exists d | d in sel.dirs :: Contains(i.component, d)) then false
    else if sel.files != {} && i.component !in sel.files then false
    else true
  }

  /**
   * What one facet asks of a finding: nothing when none of its values is
   * checked; otherwise its value must be checked, except that the directory
   * facet asks for a checked directory occurring anywhere in the component.
   */
  ghost predicate Admits(sel: Selection, f: Facet, i: Issue) {
    Selected(sel, f) == {} ||
    (if f == Directory then exists d :: d in sel.dirs && Contains(i.component, d)
     else FacetValue(i, f) in Selected(sel, f))
  }

  /** A finding survives the filter iff every facet admits it. */
  lemma PassesIff(sel: Selection, i: Issue)
    ensures Passes(sel, i) <==> forall f :: Admits(sel, f, i)
  {
    if forall f :: Admits(sel, f, i) {
      assert Admits(sel, Type, i) && Admits(sel, Severity, i) && Admits(sel, Rule, i);
      assert Admits(sel, Directory, i) && Admits(sel, File, i);
    }
  }

  /**
   * `getFilteredIssuesExcluding(f)` keeps a finding iff every facet other
   * than `f` admits it.
   */
  lemma ExcludingIff(sel: Selection, f: Facet, i: Issue)
    ensures Passes(Without(sel, f), i) <==> forall g :: g != f ==> Admits(sel, g, i)
  {
    PassesIff(Without(sel, f), i);
    assert Admits(Without(sel, f), f, i);
    forall g | g != f ensures Admits(Without(sel, f), g, i) <==> Admits(sel, g, i) {
      assert Selected(Without(sel, f), g) == Selected(sel, g);
    }
  }

  /** The filter callback as a value. */
  function PassesWith(sel: Selection): Issue -> bool {
    (i: Issue) => Passes(sel, i)
  }

  /** `issues.filter(...)` with the given checked values. */
  function Filtered(issues: seq<Issue>, sel: Selection): seq<Issue> {
    Filter(issues, PassesWith(sel))
  }

  /**
   * The filtered findings keep input order, and dropping one facet's
   * checked values can only keep more of them.
   */
  lemma ExcludingSuperset(issues: seq<Issue>, sel: Selection, f: Facet)
    ensures IsSubseq(Filtered(issues, sel), issues)
    ensures IsSubseq(Filtered(issues, sel), Filtered(issues, Without(sel, f)))
  {
    forall i ensures PassesWith(sel)(i) ==> PassesWith(Without(sel, f))(i) {
      PassesIff(sel, i);
      ExcludingIff(sel, f, i);
    }
    FilterIsSubseq(issues, PassesWith(sel));
    FilterMonotone(issues, PassesWith(sel), PassesWith(Without(sel, f)));
  }

  /** With nothing checked, the filter keeps every finding. */
  lemma {:induction false} NoSelectionKeepsAll(issues: seq<Issue>)
    ensures Filtered(issues, NoSelection) == issues
  {
    if issues != [] {
      NoSelectionKeepsAll(issues[..|issues| - 1]);
      assert issues == issues[..|issues| - 1] + [issues[|issues| - 1]];
    }
  }

  /** The filtered findings are findings of the input, so they keep its components. */
  lemma FilteredWellFormed(issues: seq<Issue>, sel: Selection)
    requires WellFormed(issues)
    ensures WellFormed(Filtered(issues, sel))
  {
    var r := Filtered(issues, sel);
    FilterSpec(issues, PassesWith(sel));
    forall k | 0 <= k < |r| ensures HasColon(r[k].component) {
      assert multiset(r)[r[k]] > 0;
      var j :| 0 <= j < |issues| && issues[j] == r[k];
    }
  }

  /**
   * Checking the empty directory value (the directory of a file at the
   * project root) keeps every finding as far as the directory facet goes,
   * because every component contains the empty string.
   */
  lemma EmptyDirectoryAdmitsAll(sel: Selection, i: Issue)
    requires "" in sel.dirs
    ensures Admits(sel, Directory, i)
  {
    assert Contains(i.component, "");
  }

  /** A finding whose own directory is checked passes the directory facet. */
  lemma OwnDirectoryAdmits(sel: Selection, i: Issue)
    requires HasColon(i.component) && DirectoryOf(i.component) in sel.dirs
    ensures Admits(sel, Directory, i)
  {
    DirectoryInComponent(i.component);
  }
}

/**
 * Sequence operations with the meaning JavaScript's array methods give them:
 * `filter`, first occurrence, `[...new Set(values)]`, and counting.
 * The recursive definitions peel off the LAST element, so that a loop that
 * walks an array from left to right keeps "the result for the prefix seen so
 * far" as its invariant.
 */
module Lists {

  /** Position of the first occurrence of `x` in `s`. */
  function FirstIndex<T(==)>(s: seq<T>, x: T): (k: nat)
    requires x in s
    ensures k < |s| && s[k] == x && x !in s[..k]
  {
    if s[0] == x then 0
    else
      assert s == [s[0]] + s[1..];
      var k := FirstIndex(s[1..], x);
      assert s[..k + 1] == [s[0]] + s[1..][..k];
      k + 1
  }

  /** The first occurrence of `x` in a prefix of `s` is its first occurrence in `s`. */
  lemma FirstIndexInPrefix<T>(s: seq<T>, m: nat, x: T)
    requires m <= |s| && x in s[..m]
    ensures FirstIndex(s, x) == FirstIndex(s[..m], x)
  {
    var k, k' := FirstIndex(s, x), FirstIndex(s[..m], x);
    assert s[..m][..k'] == s[..k'];
    forall j | 0 <= j < k ensures s[j] != x {
      assert s[..k][j] == s[j];
    }
    forall j | 0 <= j < k' ensures s[j] != x {
      assert s[..k'][j] == s[j];
    }
  }

  /** `a` is `b` with some elements removed, the rest kept in order. */
  ghost predicate IsSubseq<T>(a: seq<T>, b: seq<T>)
    decreases |b|
  {
    a == [] ||
    (b != [] &&
     ((a[|a| - 1] == b[|b| - 1] && IsSubseq(a[..|a| - 1], b[..|b| - 1])) ||
      IsSubseq(a, b[..|b| - 1])))
  }

  /** `s.filter(p)`: the elements of `s` that satisfy `p`, in their original order. */
  function Filter<T(==,!new)>(s: seq<T>, p: T -> bool): seq<T> {
    if s == [] then []
    else
      var r := Filter(s[..|s| - 1], p);
      if p(s[|s| - 1]) then r + [s[|s| - 1]] else r
  }

  /** A filter keeps exactly the elements that satisfy the predicate, each as often as it occurs. */
  lemma {:induction false} FilterSpec<T(!new)>(s: seq<T>, p: T -> bool)
    ensures forall k :: 0 <= k < |Filter(s, p)| ==> p(Filter(s, p)[k])
    ensures forall x :: multiset(Filter(s, p))[x] == if p(x) then multiset(s)[x] else 0
  {
    if s != [] {
      var init, last := s[..|s| - 1], s[|s| - 1];
      assert s == init + [last];
      FilterSpec(init, p);
    }
  }

  /** What a filter keeps is a subsequence of its input. */
  lemma {:induction false} FilterIsSubseq<T(!new)>(s: seq<T>, p: T -> bool)
    ensures IsSubseq(Filter(s, p), s)
  {
    if s != [] {
      var init, last := s[..|s| - 1], s[|s| - 1];
      var r := Filter(init, p);
      FilterIsSubseq(init, p);
      if p(last) {
        assert (r + [last])[..|r|] == r;
      } else if r != [] {
        assert s[..|s| - 1] == init;
      }
    }
  }

  /** Filtering with a weaker predicate keeps everything a stronger one keeps. */
  lemma {:induction false} FilterMonotone<T(!new)>(s: seq<T>, p: T -> bool, q: T -> bool)
    requires forall x :: p(x) ==> q(x)
    ensures IsSubseq(Filter(s, p), Filter(s, q))
  {
    if s != [] {
      var init, last := s[..|s| - 1], s[|s| - 1];
      var a, b := Filter(init, p), Filter(init, q);
      FilterMonotone(init, p, q);
      if p(last) {
        assert (a + [last])[..|a|] == a && (b + [last])[..|b|] == b;
      } else if q(last) {
        assert (b + [last])[..|b|] == b;
      }
    }
  }

  /** Filtering a sequence with one element appended. */
  lemma FilterSnoc<T(!new)>(s: seq<T>, x: T, p: T -> bool)
    ensures Filter(s + [x], p) == Filter(s, p) + (if p(x) then [x] else [])
  {
    assert (s + [x])[..|s|] == s;
  }

  /** Filtering distributes over concatenation. */
  lemma {:induction false} FilterConcat<T(!new)>(a: seq<T>, b: seq<T>, p: T -> bool)
    ensures Filter(a + b, p) == Filter(a, p) + Filter(b, p)
    decreases |b|
  {
    if b == [] {
      assert a + b == a;
    } else {
      var init, last := b[..|b| - 1], b[|b| - 1];
      assert b == init + [last];
      assert a + b == (a + init) + [last];
      FilterConcat(a, init, p);
      FilterSnoc(a + init, last, p);
      FilterSnoc(init, last, p);
    }
  }

  /** A filter that keeps nothing when no element satisfies it. */
  lemma FilterNone<T(!new)>(s: seq<T>, p: T -> bool)
    requires forall k :: 0 <= k < |s| ==> !p(s[k])
    ensures Filter(s, p) == []
  {
    if s != [] {
      FilterNone(s[..|s| - 1], p);
    }
  }

  /** Filtering a filtered sequence with a stronger predicate. */
  lemma {:induction false} FilterFilter<T(!new)>(s: seq<T>, p: T -> bool, q: T -> bool)
    requires forall x :: q(x) ==> p(x)
    ensures Filter(Filter(s, p), q) == Filter(s, q)
  {
    if s != [] {
      var init, last := s[..|s| - 1], s[|s| - 1];
      FilterFilter(init, p, q);
      if p(last) {
        FilterSnoc(Filter(init, p), last, q);
      }
    }
  }

  /** An element found at two positions occurs at least twice. */
  lemma TwoPositions<T>(s: seq<T>, j: nat, k: nat)
    requires j < k < |s| && s[j] == s[k]
    ensures multiset(s)[s[j]] >= 2
  {
    assert s == s[..k] + [s[k]] + s[k + 1..];
    assert s[j] in multiset(s[..k]) by {
      assert s[..k][j] == s[j];
    }
  }

  /** No element occurs twice. */
  ghost predicate NoDuplicates<T>(s: seq<T>) {
    forall j, k :: 0 <= j < k < |s| ==> s[j] != s[k]
  }

  /** `[...new Set(s)]`: each value of `s` once, where it first occurs. */
  function Distinct<T(==,!new)>(s: seq<T>): (r: seq<T>)
    ensures forall x :: x in r <==> x in s
    ensures NoDuplicates(r)
  {
    if s == [] then []
    else
      var d := Distinct(s[..|s| - 1]);
      var last := s[|s| - 1];
      assert s == s[..|s| - 1] + [last];
      if last in d then d else d + [last]
  }

  /** `Distinct` lists values in the order of their first occurrence. */
  lemma {:induction false} DistinctFirstEncounter<T(!new)>(s: seq<T>)
    ensures forall j, k :: 0 <= j < k < |Distinct(s)| ==>
      FirstIndex(s, Distinct(s)[j]) < FirstIndex(s, Distinct(s)[k])
  {
    if s != [] {
      var n := |s|;
      var init, last := s[..n - 1], s[n - 1];
      assert s == init + [last];
      var d := Distinct(init);
      DistinctFirstEncounter(init);
      assert s[..n - 1] == init;
      forall x | x in d ensures FirstIndex(s, x) == FirstIndex(init, x) < n - 1 {
        FirstIndexInPrefix(s, n - 1, x);
      }
      if last !in d {
        assert FirstIndex(s, last) == n - 1;
      }
    }
  }

  /** The first distinct value is the first element. */
  lemma DistinctHead<T(!new)>(s: seq<T>)
    requires s != []
    ensures Distinct(s) != [] && Distinct(s)[0] == s[0]
  {
    var r := Distinct(s);
    assert s[0] in r;
    DistinctFirstEncounter(s);
    assert FirstIndex(s, s[0]) == 0;
    forall j | 0 < j < |r| ensures r[j] != s[0] {
      assert FirstIndex(s, r[0]) < FirstIndex(s, r[j]);
    }
  }

  /** Sum over `keys` of how often each key occurs in `s`. */
  function SumOfCounts<T(==)>(keys: seq<T>, s: seq<T>): nat
  {
    if keys == [] then 0 else multiset(s)[keys[0]] + SumOfCounts(keys[1..], s)
  }

  lemma {:induction false} SumOfCountsSnoc<T>(keys: seq<T>, s: seq<T>, x: T)
    ensures SumOfCounts(keys, s + [x]) == SumOfCounts(keys, s) + multiset(keys)[x]
  {
    if keys != [] {
      SumOfCountsSnoc(keys[1..], s, x);
      assert keys == [keys[0]] + keys[1..];
    }
  }

  lemma {:induction false} CountInDistinct<T>(keys: seq<T>, x: T)
    requires NoDuplicates(keys) && x in keys
    ensures multiset(keys)[x] == 1
  {
    assert keys == [keys[0]] + keys[1..];
    if keys[0] == x {
      assert x !in keys[1..];
    } else {
      CountInDistinct(keys[1..], x);
    }
  }

  /**
   * Counting every element of `s` under its own key: when every element of
   * `s` is one of the keys and no key repeats, the counts add up to `|s|`.
   */
  lemma {:induction false} CountsPartition<T>(keys: seq<T>, s: seq<T>)
    requires NoDuplicates(keys)
    requires forall x :: x in s ==> x in keys
    ensures SumOfCounts(keys, s) == |s|
  {
    if s == [] {
      SumOfCountsEmpty(keys);
    } else {
      var init, x := s[..|s| - 1], s[|s| - 1];
      assert s == init + [x];
      CountsPartition(keys, init);
      SumOfCountsSnoc(keys, init, x);
      CountInDistinct(keys, x);
    }
  }

  lemma {:induction false} SumOfCountsEmpty<T>(keys: seq<T>)
    ensures SumOfCounts(keys, []) == 0
  {
    if keys != [] {
      SumOfCountsEmpty(keys[1..]);
    }
  }

  /** The distinct values of a sequence, counted in it, add up to its length. */
  lemma DistinctCountsSum<T(!new)>(s: seq<T>)
    ensures SumOfCounts(Distinct(s), s) == |s|
  {
    CountsPartition(Distinct(s), s);
  }
}

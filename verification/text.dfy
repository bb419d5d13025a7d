/**
 * String operations with the meaning JavaScript gives them: `split`/`join`
 * on a one-character separator, `includes`, `trim`, number formatting and
 * `replace(/c/g, …)` of one literal character.
 */
module Text {

  /** `d` does not occur in `s`. */
  predicate Free(s: string, d: char) {
    forall k :: 0 <= k < |s| ==> s[k] != d
  }

  /** `s.split(d)` for a one-character separator: the pieces between the separators, never none. */
  function Split(s: string, d: char): (r: seq<string>)
    ensures |r| == 1 + CountOf(s, {d})
    ensures forall k :: 0 <= k < |r| ==> Free(r[k], d)
  {
    if s == [] then [""]
    else
      var rest := Split(s[1..], d);
      if s[0] == d then [""] + rest
      else [[s[0]] + rest[0]] + rest[1..]
  }

  /** `parts.join(d)`; an empty array joins to the empty string. */
  function Join(parts: seq<string>, d: char): string
  {
    if parts == [] then ""
    else if |parts| == 1 then parts[0]
    else parts[0] + [d] + Join(parts[1..], d)
  }

  /** Joining a first piece in front of further pieces. */
  lemma JoinCons(p: string, rest: seq<string>, d: char)
    ensures Join([p] + rest, d) == if rest == [] then p else p + [d] + Join(rest, d)
  {
    assert ([p] + rest)[1..] == rest;
  }

  /** Joining the pieces of a split gives the string back. */
  lemma {:induction false} JoinSplit(s: string, d: char)
    ensures Join(Split(s, d), d) == s
  {
    if s != [] {
      var rest := Split(s[1..], d);
      JoinSplit(s[1..], d);
      if s[0] == d {
        JoinCons("", rest, d);
      } else {
        JoinCons([s[0]] + rest[0], rest[1..], d);
        JoinCons(rest[0], rest[1..], d);
        assert rest == [rest[0]] + rest[1..];
      }
      assert s == [s[0]] + s[1..];
    }
  }

  /** A string without the separator splits into itself alone. */
  lemma SplitFree(s: string, d: char)
    requires Free(s, d)
    ensures Split(s, d) == [s]
  {
    JoinSplit(s, d);
    CountOfFree(s, d);
  }

  /** No occurrence, no count, and the other way round. */
  lemma {:induction false} CountOfFree(s: string, d: char)
    ensures CountOf(s, {d}) == 0 <==> Free(s, d)
  {
    if s != [] {
      CountOfFree(s[1..], d);
      assert Free(s, d) <==> s[0] != d && Free(s[1..], d);
    }
  }

  /**
   * With a separator present, the first piece is everything before its first
   * occurrence `k`, and the remaining pieces are the split of what follows it.
   */
  lemma {:induction false} SplitAtFirst(s: string, d: char) returns (k: nat)
    requires !Free(s, d)
    ensures k < |s| && s[k] == d && Free(s[..k], d)
    ensures Split(s, d)[0] == s[..k]
    ensures Split(s, d)[1..] == Split(s[k + 1..], d)
  {
    var rest := Split(s[1..], d);
    if s[0] == d {
      k := 0;
    } else {
      assert !Free(s[1..], d) by {
        var j :| 0 <= j < |s| && s[j] == d;
        assert s[1..][j - 1] == d;
      }
      var k' := SplitAtFirst(s[1..], d);
      k := k' + 1;
      assert s[k + 1..] == s[1..][k' + 1..];
      assert s[..k] == [s[0]] + s[1..][..k'];
    }
  }

  /** The split at a known first separator `i`. */
  lemma FirstSeparator(s: string, d: char, i: nat)
    requires i < |s| && s[i] == d && Free(s[..i], d)
    ensures Split(s, d)[0] == s[..i] && Split(s, d)[1..] == Split(s[i + 1..], d)
  {
    var k := SplitAtFirst(s, d);
    assert forall j | 0 <= j < i :: s[..i][j] == s[j];
    assert forall j | 0 <= j < k :: s[..k][j] == s[j];
    assert k == i;
  }

  /** Splitting a join of separator-free pieces gives the pieces back. */
  lemma {:induction false} SplitJoin(parts: seq<string>, d: char)
    requires |parts| >= 1
    requires forall k :: 0 <= k < |parts| ==> Free(parts[k], d)
    ensures Split(Join(parts, d), d) == parts
  {
    if |parts| == 1 {
      SplitFree(parts[0], d);
    } else {
      var p, rest := parts[0], parts[1..];
      var s := p + [d] + Join(rest, d);
      JoinCons(p, rest, d);
      assert parts == [p] + rest;
      assert s[|p|] == d;
      var k := SplitAtFirst(s, d);
      assert k == |p| by {
        forall j | 0 <= j < k ensures s[j] != d {
          assert s[..k][j] == s[j];
        }
        forall j | 0 <= j < |p| ensures s[j] != d {
          assert s[j] == p[j];
        }
      }
      assert s[..k] == p && s[k + 1..] == Join(rest, d);
      SplitJoin(rest, d);
      assert Split(s, d) == [Split(s, d)[0]] + Split(s, d)[1..];
    }
  }

  /** Everything before the last separator: what `JoinAllButLast` computes. */
  ghost predicate BeforeLast(s: string, d: char, r: string) {
    |r| < |s| && r == s[..|r|] && s[|r|] == d && Free(s[|r| + 1..], d)
  }

  /**
   * `s.split(d).slice(0, -1).join(d)`: everything before the last separator,
   * or the empty string when there is no separator.
   */
  lemma {:induction false} JoinAllButLast(s: string, d: char)
    ensures var parts := Split(s, d);
            var r := Join(parts[..|parts| - 1], d);
            (Free(s, d) ==> r == "") && (!Free(s, d) ==> BeforeLast(s, d, r))
  {
    var parts := Split(s, d);
    if Free(s, d) {
      SplitFree(s, d);
      assert parts[..|parts| - 1] == [];
    } else if Free(s[1..], d) {
      LastSeparatorFirst(s, d);
    } else {
      JoinAllButLast(s[1..], d);
      LastSeparatorLater(s, d);
    }
  }

  /** `JoinAllButLast` when the only separator is the first character. */
  lemma LastSeparatorFirst(s: string, d: char)
    requires !Free(s, d) && Free(s[1..], d)
    ensures var parts := Split(s, d); BeforeLast(s, d, Join(parts[..|parts| - 1], d))
  {
    SplitFree(s[1..], d);
    assert s[0] == d by {
      forall j | 1 <= j < |s| ensures s[j] != d {
        assert s[j] == s[1..][j - 1];
      }
    }
    var parts := Split(s, d);
    assert parts[..|parts| - 1] == [""];
  }

  /** `JoinAllButLast` for a string whose tail still holds a separator. */
  lemma LastSeparatorLater(s: string, d: char)
    requires s != [] && !Free(s[1..], d)
    requires var rest := Split(s[1..], d); BeforeLast(s[1..], d, Join(rest[..|rest| - 1], d))
    ensures var parts := Split(s, d); BeforeLast(s, d, Join(parts[..|parts| - 1], d))
  {
    var rest := Split(s[1..], d);
    CountOfFree(s[1..], d);
    if s[0] == d {
      assert Split(s, d) == [""] + rest;
      AllButLastAfterEmpty(rest, d);
    } else {
      assert Split(s, d) == [[s[0]] + rest[0]] + rest[1..];
      AllButLastExtended([s[0]], rest, d);
    }
    BeforeLastCons(s, d, Join(rest[..|rest| - 1], d));
  }

  /** An empty first piece in front of at least two pieces adds a leading separator. */
  lemma AllButLastAfterEmpty(rest: seq<string>, d: char)
    requires |rest| >= 2
    ensures var parts := [""] + rest; Join(parts[..|parts| - 1], d) == [d] + Join(rest[..|rest| - 1], d)
  {
    var parts := [""] + rest;
    var front := rest[..|rest| - 1];
    assert parts[..|parts| - 1] == [""] + front;
    JoinCons("", front, d);
  }

  /** Extending the first of at least two pieces extends everything before the last one. */
  lemma AllButLastExtended(x: string, rest: seq<string>, d: char)
    requires |rest| >= 2
    ensures var parts := [x + rest[0]] + rest[1..];
      Join(parts[..|parts| - 1], d) == x + Join(rest[..|rest| - 1], d)
  {
    var parts := [x + rest[0]] + rest[1..];
    var tail := rest[1..|rest| - 1];
    assert parts[..|parts| - 1] == [x + rest[0]] + tail;
    assert rest[..|rest| - 1] == [rest[0]] + tail;
    JoinCons(x + rest[0], tail, d);
    JoinCons(rest[0], tail, d);
  }

  /** What comes before the last separator of the tail, behind the first character. */
  lemma BeforeLastCons(s: string, d: char, r: string)
    requires s != [] && BeforeLast(s[1..], d, r)
    ensures BeforeLast(s, d, [s[0]] + r)
  {
    assert [s[0]] + r == s[..|r| + 1];
    assert s[|r| + 2..] == s[1..][|r| + 1..];
  }

  /** `s.includes(sub)`: `sub` occurs in `s` as a contiguous piece. */
  predicate Contains(s: string, sub: string)
    decreases |s|
  {
    sub <= s || (s != [] && Contains(s[1..], sub))
  }

  /** A piece found at some position is contained. */
  lemma {:induction false} ContainsAt(s: string, sub: string, i: nat)
    requires i + |sub| <= |s| && s[i..i + |sub|] == sub
    ensures Contains(s, sub)
  {
    if i > 0 {
      assert s[1..][i - 1..i - 1 + |sub|] == sub;
      ContainsAt(s[1..], sub, i - 1);
    }
  }

  /** A contained piece is found at some position `i`. */
  lemma {:induction false} ContainsWitness(s: string, sub: string) returns (i: nat)
    requires Contains(s, sub)
    ensures i + |sub| <= |s| && s[i..i + |sub|] == sub
  {
    if sub <= s {
      i := 0;
    } else {
      var i' := ContainsWitness(s[1..], sub);
      assert s[i' + 1..i' + 1 + |sub|] == s[1..][i'..i' + |sub|];
      i := i' + 1;
    }
  }

  /** The decimal digit for `n`. */
  function DigitChar(n: nat): (c: char)
    requires n < 10
    ensures '0' <= c <= '9' && c as int - '0' as int == n
  {
    ('0' as int + n) as char
  }

  /** A non-empty string of decimal digits. */
  predicate IsDigits(s: string) {
    |s| >= 1 && forall k :: 0 <= k < |s| ==> '0' <= s[k] <= '9'
  }

  /** `String(n)` for a non-negative integer: its decimal digits, without a leading zero. */
  function NatToString(n: nat): (r: string)
    ensures IsDigits(r)
    ensures r[0] == '0' <==> n == 0
  {
    if n < 10 then [DigitChar(n)]
    else NatToString(n / 10) + [DigitChar(n % 10)]
  }

  /** The number a string of decimal digits denotes. */
  function DigitsValue(s: string): nat
    requires forall k :: 0 <= k < |s| ==> '0' <= s[k] <= '9'
  {
    if s == [] then 0
    else DigitsValue(s[..|s| - 1]) * 10 + (s[|s| - 1] as int - '0' as int)
  }

  /** Reading the digits back gives the number: formatting loses nothing. */
  lemma {:induction false} NatToStringRoundTrip(n: nat)
    ensures DigitsValue(NatToString(n)) == n
  {
    if n >= 10 {
      var s := NatToString(n / 10);
      NatToStringRoundTrip(n / 10);
      assert (s + [DigitChar(n % 10)])[..|s|] == s;
    }
  }

  /**
   * The characters `String.prototype.trim` removes: the white-space
   * characters (tab, vertical tab, form feed, space, no-break space,
   * zero-width no-break space and every other space separator) and the line
   * terminators (line feed, carriage return, line and paragraph separator).
   */
  predicate IsJsSpace(c: char) {
    var x := c as int;
    x == 0x09 || x == 0x0A || x == 0x0B || x == 0x0C || x == 0x0D || x == 0x20 ||
    x == 0xA0 || x == 0x1680 || (0x2000 <= x <= 0x200A) || x == 0x2028 || x == 0x2029 ||
    x == 0x202F || x == 0x205F || x == 0x3000 || x == 0xFEFF
  }

  /** `s` without its leading white space. */
  function TrimStart(s: string): (r: string)
    ensures |r| <= |s| && r == s[|s| - |r|..]
  {
    if s != [] && IsJsSpace(s[0]) then TrimStart(s[1..]) else s
  }

  /** `s` without its trailing white space. */
  function TrimEnd(s: string): (r: string)
    ensures |r| <= |s| && r == s[..|r|]
  {
    if s != [] && IsJsSpace(s[|s| - 1]) then TrimEnd(s[..|s| - 1]) else s
  }

  /** `s.trim()`. */
  function Trim(s: string): string {
    TrimEnd(TrimStart(s))
  }

  /** `TrimStart` removes white space only, and all of it. */
  lemma {:induction false} TrimStartSpaces(s: string)
    ensures forall k :: 0 <= k < |s| - |TrimStart(s)| ==> IsJsSpace(s[k])
    ensures TrimStart(s) != [] ==> !IsJsSpace(TrimStart(s)[0])
  {
    if s != [] && IsJsSpace(s[0]) {
      var r := TrimStart(s[1..]);
      assert TrimStart(s) == r;
      TrimStartSpaces(s[1..]);
      forall k | 1 <= k < |s| - |r| ensures IsJsSpace(s[k]) {
        assert s[k] == s[1..][k - 1];
      }
    }
  }

  /** `TrimEnd` removes white space only, and all of it. */
  lemma {:induction false} TrimEndSpaces(s: string)
    ensures forall k :: |TrimEnd(s)| <= k < |s| ==> IsJsSpace(s[k])
    ensures TrimEnd(s) != [] ==> !IsJsSpace(TrimEnd(s)[|TrimEnd(s)| - 1])
  {
    if s != [] && IsJsSpace(s[|s| - 1]) {
      TrimEndSpaces(s[..|s| - 1]);
    }
  }

  /**
   * What `trim` keeps is the piece `s[i..j]` of the input with white space
   * removed on both sides and none left at either end.
   */
  lemma TrimSpec(s: string) returns (i: nat, j: nat)
    ensures i <= j <= |s| && Trim(s) == s[i..j]
    ensures forall k :: 0 <= k < i ==> IsJsSpace(s[k])
    ensures forall k :: j <= k < |s| ==> IsJsSpace(s[k])
    ensures Trim(s) != [] ==> !IsJsSpace(Trim(s)[0]) && !IsJsSpace(Trim(s)[|Trim(s)| - 1])
  {
    var a := TrimStart(s);
    var r := TrimEnd(a);
    i := |s| - |a|;
    j := i + |r|;
    TrimStartSpaces(s);
    TrimEndSpaces(a);
    assert a == s[i..];
    assert r == s[i..j];
    TrimTailSpaces(s, a, i, r);
    TrimFirst(a, r);
  }

  lemma TrimFirst(a: string, r: string)
    requires a != [] ==> !IsJsSpace(a[0])
    requires |r| <= |a| && r == a[..|r|]
    ensures r != [] ==> !IsJsSpace(r[0])
  {
  }

  lemma TrimTailSpaces(s: string, a: string, i: nat, r: string)
    requires i <= |s| && a == s[i..] && |r| <= |a|
    requires forall k :: |r| <= k < |a| ==> IsJsSpace(a[k])
    ensures forall k :: i + |r| <= k < |s| ==> IsJsSpace(s[k])
  {
    forall k | i + |r| <= k < |s| ensures IsJsSpace(s[k]) {
      assert s[k] == a[k - i];
    }
  }

  /** `trim` leaves nothing exactly when the input is all white space. */
  lemma TrimEmpty(s: string)
    ensures Trim(s) == [] <==> forall k :: 0 <= k < |s| ==> IsJsSpace(s[k])
  {
    var i, j := TrimSpec(s);
    if Trim(s) != [] {
      assert !IsJsSpace(s[i]);
    }
  }

  /** Number of characters of `s` that belong to `cs`. */
  function CountOf(s: string, cs: set<char>): nat
  {
    if s == [] then 0 else (if s[0] in cs then 1 else 0) + CountOf(s[1..], cs)
  }

  /**
   * `s.replace(/c/g, rep)` for one literal character `c` and a replacement
   * without a `$` pattern that JavaScript would expand (a `$` at the end of
   * the replacement stands for itself).
   */
  function ReplaceChar(s: string, c: char, rep: string): (r: string)
    ensures |r| == |s| + CountOf(s, {c}) * (|rep| - 1)
  {
    if s == [] then ""
    else (if s[0] == c then rep else [s[0]]) + ReplaceChar(s[1..], c, rep)
  }

  /** Replacing distributes over concatenation. */
  lemma {:induction false} ReplaceCharConcat(a: string, b: string, c: char, rep: string)
    ensures ReplaceChar(a + b, c, rep) == ReplaceChar(a, c, rep) + ReplaceChar(b, c, rep)
  {
    if a != [] {
      assert (a + b)[1..] == a[1..] + b;
      ReplaceCharConcat(a[1..], b, c, rep);
    } else {
      assert a + b == b;
    }
  }
}

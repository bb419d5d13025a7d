/**
 * Backslash escaping of a set of characters, as the extension does before
 * it embeds text in a quoted shell argument or a quoted JavaScript string:
 * each character of the set is written with a backslash in front, every
 * other character as it is. The chains of `.replace` calls in the source
 * are shown equal to this per-character map.
 */
module Escaping {
  import opened Text

  /** Every character of `cs` prefixed with a backslash, every other character unchanged. */
  function EscapeSet(s: string, cs: set<char>): (r: string)
    ensures |r| == |s| + CountOf(s, cs)
  {
    if s == [] then ""
    else (if s[0] in cs then ['\\', s[0]] else [s[0]]) + EscapeSet(s[1..], cs)
  }

  /** Removes the backslash in front of each character of `cs`, reading left to right. */
  function UnescapeSet(s: string, cs: set<char>): string
    decreases |s|
  {
    if s == [] then ""
    else if |s| >= 2 && s[0] == '\\' && s[1] in cs then [s[1]] + UnescapeSet(s[2..], cs)
    else [s[0]] + UnescapeSet(s[1..], cs)
  }

  /**
   * `r` reads as a sequence of plain characters outside `cs` and escape
   * pairs `\x` with `x` in `cs`: no character of `cs` stands on its own.
   */
  predicate WellEscaped(r: string, cs: set<char>)
    decreases |r|
  {
    r == [] ||
    (r[0] !in cs && WellEscaped(r[1..], cs)) ||
    (|r| >= 2 && r[0] == '\\' && r[1] in cs && WellEscaped(r[2..], cs))
  }

  /** The first character of an escaped text. */
  lemma EscapeHead(s: string, cs: set<char>)
    requires s != []
    ensures EscapeSet(s, cs)[0] == if s[0] in cs then '\\' else s[0]
  {
  }

  /** Removing the backslashes restores the text, whatever the set. */
  lemma {:induction false} UnescapeEscape(s: string, cs: set<char>)
    ensures UnescapeSet(EscapeSet(s, cs), cs) == s
  {
    if s != [] {
      var rest := EscapeSet(s[1..], cs);
      UnescapeEscape(s[1..], cs);
      if s[0] in cs {
        assert EscapeSet(s, cs) == ['\\', s[0]] + rest;
        assert (['\\', s[0]] + rest)[2..] == rest;
      } else {
        assert EscapeSet(s, cs) == [s[0]] + rest;
        if rest != [] {
          EscapeHead(s[1..], cs);
        }
        assert ([s[0]] + rest)[1..] == rest;
      }
    }
  }

  /** When the backslash itself is in the set, no character of the set is left bare. */
  lemma {:induction false} EscapeWellEscaped(s: string, cs: set<char>)
    requires '\\' in cs
    ensures WellEscaped(EscapeSet(s, cs), cs)
  {
    if s != [] {
      var rest := EscapeSet(s[1..], cs);
      EscapeWellEscaped(s[1..], cs);
      if s[0] in cs {
        assert (['\\', s[0]] + rest)[2..] == rest;
      } else {
        assert ([s[0]] + rest)[1..] == rest;
      }
    }
  }

  /** Escaping distributes over concatenation. */
  lemma {:induction false} EscapeConcat(a: string, b: string, cs: set<char>)
    ensures EscapeSet(a + b, cs) == EscapeSet(a, cs) + EscapeSet(b, cs)
  {
    if a != [] {
      assert (a + b)[1..] == a[1..] + b;
      EscapeConcat(a[1..], b, cs);
    } else {
      assert a + b == b;
    }
  }

  /** `s.replace(/c/g, '\\' + c)` escapes exactly `c`. */
  lemma {:induction false} ReplaceFirst(s: string, c: char)
    ensures ReplaceChar(s, c, ['\\', c]) == EscapeSet(s, {c})
  {
    if s != [] {
      ReplaceFirst(s[1..], c);
    }
  }

  /**
   * A further `.replace(/c/g, '\\' + c)` on an escaped text adds `c` to the
   * escaped set, provided `c` is neither the backslash nor already escaped
   * (either would double the escapes already written).
   */
  lemma {:induction false} ReplaceExtends(s: string, cs: set<char>, c: char)
    requires c != '\\' && c !in cs
    ensures ReplaceChar(EscapeSet(s, cs), c, ['\\', c]) == EscapeSet(s, cs + {c})
  {
    if s != [] {
      var x := s[0];
      var head := if x in cs then ['\\', x] else [x];
      var tail := EscapeSet(s[1..], cs);
      assert EscapeSet(s, cs) == head + tail;
      ReplaceCharConcat(head, tail, c, ['\\', c]);
      ReplaceExtends(s[1..], cs, c);
      if x in cs {
        assert head[1..] == [x];
        assert ReplaceChar([x], c, ['\\', c]) == [x];
        assert ReplaceChar(head, c, ['\\', c]) == head;
      }
    }
  }

  /** Counting the characters of two disjoint sets separately. */
  lemma {:induction false} CountUnion(s: string, a: set<char>, b: set<char>)
    requires a !! b
    ensures CountOf(s, a + b) == CountOf(s, a) + CountOf(s, b)
  {
    if s != [] {
      CountUnion(s[1..], a, b);
    }
  }

  /** The count is zero exactly when no character of the set occurs. */
  lemma {:induction false} CountZero(s: string, cs: set<char>)
    ensures CountOf(s, cs) == 0 <==> forall k :: 0 <= k < |s| ==> s[k] !in cs
  {
    if s != [] {
      CountZero(s[1..], cs);
      assert forall k :: 1 <= k < |s| ==> s[k] == s[1..][k - 1];
    }
  }

  /** Escaping with a set and with a larger one agree when no extra character occurs. */
  lemma {:induction false} EscapeSameOn(s: string, a: set<char>, b: set<char>)
    requires a <= b && forall k :: 0 <= k < |s| ==> s[k] !in b - a
    ensures EscapeSet(s, a) == EscapeSet(s, b)
  {
    if s != [] {
      assert s[0] !in b - a;
      assert forall k :: 0 <= k < |s| - 1 ==> s[1..][k] == s[k + 1];
      EscapeSameOn(s[1..], a, b);
    }
  }

  /**
   * Escaping with a set and with a larger one give the same text exactly
   * when none of the extra characters occurs.
   */
  lemma EscapeSubset(s: string, a: set<char>, b: set<char>)
    requires a <= b
    ensures EscapeSet(s, a) == EscapeSet(s, b) <==> forall k :: 0 <= k < |s| ==> s[k] !in b - a
  {
    assert b == a + (b - a);
    CountUnion(s, a, b - a);
    CountZero(s, b - a);
    if forall k :: 0 <= k < |s| ==> s[k] !in b - a {
      EscapeSameOn(s, a, b);
    }
  }
}

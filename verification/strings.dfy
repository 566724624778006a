/**
 The subset of Go's `strings` package the policy helpers rely on, on strings
 seen as sequences of Unicode code points.
 */
module Strings {

  /** Number of occurrences of `c` in `s`. */
  function Occurrences(s: string, c: char): nat
  {
    if |s| == 0 then 0 else (if s[0] == c then 1 else 0) + Occurrences(s[1..], c)
  }

  lemma {:induction false} OccurrencesAppend(a: string, b: string, c: char)
    ensures Occurrences(a + b, c) == Occurrences(a, c) + Occurrences(b, c)
  {
    if |a| == 0 {
      assert a + b == b;
    } else {
      assert (a + b)[1..] == a[1..] + b;
      OccurrencesAppend(a[1..], b, c);
    }
  }

  lemma {:induction false} OccurrencesAbsent(s: string, c: char)
    ensures Occurrences(s, c) == 0 <==> c !in s
  {
    if |s| > 0 {
      OccurrencesAbsent(s[1..], c);
      assert s == [s[0]] + s[1..];
    }
  }

  /**
   `strings.IndexRune(s, c)`: the index of the first `c` in `s`, or -1 when
   there is none.
   */
  function IndexOf(s: string, c: char): (idx: int)
    ensures -1 <= idx < |s|
    ensures idx == -1 <==> c !in s
    ensures 0 <= idx ==> s[idx] == c && c !in s[..idx]
  {
    if |s| == 0 then -1
    else if s[0] == c then 0
    else
      var i := IndexOf(s[1..], c);
      if i < 0 then -1
      else
        assert s[..i + 1] == [s[0]] + s[1..][..i];
        i + 1
  }

  /** The first `c` of `a + [c] + b` is at `|a|` when `a` holds no `c`. */
  lemma IndexOfAfterPrefix(a: string, c: char, b: string)
    requires c !in a
    ensures IndexOf(a + [c] + b, c) == |a|
  {
    var s := a + [c] + b;
    assert s[|a|] == c;
    assert s[..|a|] == a;
  }

  /** `strings.HasPrefix(s, p)`. */
  predicate HasPrefix(s: string, p: string)
  {
    |p| <= |s| && s[..|p|] == p
  }

  /** The parts joined back with `sep` between consecutive parts (`strings.Join`). */
  function Join(parts: seq<string>, sep: char): string
  {
    if |parts| == 0 then ""
    else if |parts| == 1 then parts[0]
    else parts[0] + [sep] + Join(parts[1..], sep)
  }

  /** Cutting `s` at its first `c`: the part before holds no `c`, and the count drops by one. */
  lemma CutAtFirst(s: string, c: char, idx: int)
    requires 0 <= idx < |s| && s[idx] == c && c !in s[..idx]
    ensures s == s[..idx] + [c] + s[idx + 1..]
    ensures Occurrences(s, c) == 1 + Occurrences(s[idx + 1..], c)
  {
    assert s == s[..idx] + [c] + s[idx + 1..];
    OccurrencesAppend(s[..idx] + [c], s[idx + 1..], c);
    OccurrencesAppend(s[..idx], [c], c);
    OccurrencesAbsent(s[..idx], c);
  }

  /**
   `strings.SplitN(s, sep, n)` for a one-character separator and `n >= 0`:
   at most `n` parts, every part but the last free of `sep`, the last one
   holding the unsplit remainder.
   */
  function SplitN(s: string, sep: char, n: nat): (parts: seq<string>)
    ensures n == 0 <==> parts == []
    ensures n > 0 ==> |parts| == if Occurrences(s, sep) + 1 < n then Occurrences(s, sep) + 1 else n
    ensures n > 0 ==> Join(parts, sep) == s
    ensures forall i :: 0 <= i < |parts| - 1 ==> sep !in parts[i]
  {
    if n == 0 then []
    else if n == 1 then
      [s]
    else
      var idx := IndexOf(s, sep);
      if idx < 0 then
        OccurrencesAbsent(s, sep);
        [s]
      else
        CutAtFirst(s, sep, idx);
        var tail := SplitN(s[idx + 1..], sep, n - 1);
        assert ([s[..idx]] + tail)[1..] == tail;
        [s[..idx]] + tail
  }

  /** Splitting at a first separator preceded by a separator-free part. */
  lemma SplitNAfterPrefix(a: string, c: char, b: string, n: nat)
    requires c !in a && n >= 2
    ensures SplitN(a + [c] + b, c, n) == [a] + SplitN(b, c, n - 1)
  {
    var s := a + [c] + b;
    IndexOfAfterPrefix(a, c, b);
    assert s[..|a|] == a && s[|a| + 1..] == b;
  }

  /** ASCII upper-casing of one character. */
  function UpperChar(c: char): char
  {
    if 'a' <= c <= 'z' then (c as int - 32) as char else c
  }

  /** `strings.ToUpper` restricted to ASCII letters; every other character is kept. */
  function ToUpper(s: string): (u: string)
    ensures |u| == |s|
    ensures forall i :: 0 <= i < |s| ==> u[i] == UpperChar(s[i])
  {
    if |s| == 0 then "" else [UpperChar(s[0])] + ToUpper(s[1..])
  }

  /** Lexicographic order on code points: `a` is a proper prefix of `b`, or they first differ with a smaller code point in `a`. */
  ghost predicate LexLess(a: string, b: string)
  {
    || (|a| < |b| && b[..|a|] == a)
    || (exists k :: 0 <= k < |a| && k < |b| && a[..k] == b[..k] && a[k] < b[k])
  }

  /**
   `strings.Compare(a, b)`: -1, 0 or 1. For valid UTF-8, Go's byte-wise
   order agrees with the code-point order used here.
   */
  function Compare(a: string, b: string): (r: int)
    ensures -1 <= r <= 1
    ensures r == 0 <==> a == b
  {
    if |a| == 0 && |b| == 0 then 0
    else if |a| == 0 then -1
    else if |b| == 0 then 1
    else if a[0] < b[0] then -1
    else if a[0] > b[0] then 1
    else
      var r := Compare(a[1..], b[1..]);
      assert a == [a[0]] + a[1..] && b == [b[0]] + b[1..];
      r
  }

  /** `Compare` is antisymmetric: swapping the arguments negates the result. */
  lemma {:induction false} CompareAntisymmetric(a: string, b: string)
    ensures Compare(a, b) == -Compare(b, a)
  {
    if |a| > 0 && |b| > 0 && a[0] == b[0] {
      CompareAntisymmetric(a[1..], b[1..]);
    }
  }

  /** Dropping an equal first character preserves the lexicographic order. */
  lemma LexLessTail(a: string, b: string)
    requires |a| > 0 && |b| > 0 && a[0] == b[0]
    ensures LexLess(a, b) <==> LexLess(a[1..], b[1..])
  {
    var a', b' := a[1..], b[1..];
    if |a| < |b| && b[..|a|] == a {
      assert b'[..|a'|] == b[..|a|][1..];
    }
    if |a'| < |b'| && b'[..|a'|] == a' {
      assert b[..|a|] == [b[0]] + b'[..|a'|];
      assert a == [a[0]] + a';
    }
    if k :| 0 <= k < |a| && k < |b| && a[..k] == b[..k] && a[k] < b[k] {
      assert k > 0;
      assert a'[..k - 1] == a[..k][1..] && b'[..k - 1] == b[..k][1..];
      assert a'[k - 1] == a[k] && b'[k - 1] == b[k];
    }
    if k :| 0 <= k < |a'| && k < |b'| && a'[..k] == b'[..k] && a'[k] < b'[k] {
      assert a[..k + 1] == [a[0]] + a'[..k] && b[..k + 1] == [b[0]] + b'[..k];
      assert a[k + 1] == a'[k] && b[k + 1] == b'[k];
    }
  }

  /** `Compare` returns a negative value exactly when `a` sorts before `b`. */
  lemma {:induction false} CompareNegativeIffLexLess(a: string, b: string)
    ensures Compare(a, b) < 0 <==> LexLess(a, b)
  {
    if |a| == 0 {
      if |b| > 0 {
        assert b[..|a|] == a;
      }
    } else if |b| == 0 {
    } else if a[0] < b[0] {
      assert a[..0] == b[..0];
    } else if a[0] > b[0] {
      if k :| 0 <= k < |a| && k < |b| && a[..k] == b[..k] && a[k] < b[k] {
        if k > 0 {
          assert a[..k][0] == b[..k][0];
        }
      }
    } else {
      CompareNegativeIffLexLess(a[1..], b[1..]);
      LexLessTail(a, b);
    }
  }

  /** Upper-casing twice is upper-casing once. */
  lemma ToUpperIdempotent(s: string)
    ensures ToUpper(ToUpper(s)) == ToUpper(s)
  {
  }
}

/**
 * The few operations on Python `str` values that the server relies on:
 * `find`, `endswith`, `strip`, `"".join` and counting a character.
 * Each is given the meaning CPython documents for it.
 */
module Text {

  /** `"".join(parts)`; also the byte-level concatenation of written chunks. */
  function Concat<T>(parts: seq<seq<T>>): seq<T>
  {
    if parts == [] then [] else parts[0] + Concat(parts[1..])
  }

  lemma {:induction false} ConcatAppend<T>(a: seq<seq<T>>, b: seq<seq<T>>)
    ensures Concat(a + b) == Concat(a) + Concat(b)
  {
    if a == [] {
      assert a + b == b;
    } else {
      assert (a + b)[1..] == a[1..] + b;
      ConcatAppend(a[1..], b);
    }
  }

  /** `sub` occurs in `s` starting at index `i`. */
  predicate OccursAt(s: string, sub: string, i: int)
  {
    0 <= i && i + |sub| <= |s| && s[i..i + |sub|] == sub
  }

  /** `s.find(sub, from)`: the lowest index at or after `from` where `sub` occurs, or -1. */
  function FindFrom(s: string, sub: string, from: nat): (r: int)
    ensures r == -1 || (from <= r && OccursAt(s, sub, r))
    ensures r == -1 ==> forall j :: from <= j ==> !OccursAt(s, sub, j)
    ensures r >= 0 ==> forall j :: from <= j < r ==> !OccursAt(s, sub, j)
    decreases |s| - from
  {
    if from + |sub| > |s| then -1
    else if s[from..from + |sub|] == sub then from
    else FindFrom(s, sub, from + 1)
  }

  /** `s.find(sub)`. */
  function Find(s: string, sub: string): (r: int)
    ensures r == -1 || OccursAt(s, sub, r)
    ensures r == -1 ==> forall j :: !OccursAt(s, sub, j)
    ensures r >= 0 ==> forall j :: 0 <= j < r ==> !OccursAt(s, sub, j)
  {
    FindFrom(s, sub, 0)
  }

  /** `(a + b) + c == a + (b + c)` on strings, for proofs that regroup joined text. */
  lemma Associate(a: string, b: string, c: string)
    ensures (a + b) + c == a + (b + c)
  {
  }

  /** An occurrence that ends within the first `n` characters is an occurrence in `s[..n]`. */
  lemma OccursAtPrefix(s: string, n: nat, sub: string, j: int)
    requires n <= |s| && j + |sub| <= n
    ensures OccursAt(s[..n], sub, j) <==> OccursAt(s, sub, j)
  {
    if 0 <= j {
      assert s[..n][j..j + |sub|] == s[j..j + |sub|];
    }
  }

  /** Appending text cannot move the first occurrence of `sub` in `s`. */
  lemma {:induction false} FindExtend(s: string, t: string, sub: string)
    requires Find(s, sub) >= 0
    ensures Find(s + t, sub) == Find(s, sub)
  {
    var i := Find(s, sub);
    OccursAtPrefix(s + t, |s|, sub, i);
    assert (s + t)[..|s|] == s;
    forall j | 0 <= j < i
      ensures !OccursAt(s + t, sub, j)
    {
      OccursAtPrefix(s + t, |s|, sub, j);
    }
  }

  /** Cutting `s` just after the first occurrence of `sub` keeps that occurrence first. */
  lemma {:induction false} FindCut(s: string, sub: string)
    requires Find(s, sub) >= 0
    ensures Find(s[..Find(s, sub) + |sub|], sub) == Find(s, sub)
  {
    var i := Find(s, sub);
    var n := i + |sub|;
    OccursAtPrefix(s, n, sub, i);
    forall j | 0 <= j < i
      ensures !OccursAt(s[..n], sub, j)
    {
      OccursAtPrefix(s, n, sub, j);
    }
  }

  /** A one-character pattern occurs exactly where that character is. */
  lemma OccursAtChar(s: string, c: char, j: int)
    ensures OccursAt(s, [c], j) <==> 0 <= j < |s| && s[j] == c
  {
    if 0 <= j < |s| {
      assert s[j..j + 1] == [s[j]];
    }
  }

  /** `s.endswith(suffix)`. */
  predicate EndsWith(s: string, suffix: string)
  {
    |suffix| <= |s| && s[|s| - |suffix|..] == suffix
  }

  lemma ConcatEndsWith(parts: seq<string>, suffix: string)
    requires parts != [] && EndsWith(parts[|parts| - 1], suffix)
    ensures EndsWith(Concat(parts), suffix)
  {
    var last := |parts| - 1;
    assert parts == parts[..last] + [parts[last]];
    ConcatAppend(parts[..last], [parts[last]]);
    assert Concat([parts[last]]) == parts[last] + Concat([parts[last]][1..]);
    assert [parts[last]][1..] == [];
  }

  /** `s.lstrip(c)`: leading copies of `c` removed. */
  function StripLeft(s: string, c: char): string
  {
    if |s| > 0 && s[0] == c then StripLeft(s[1..], c) else s
  }

  /** `s.rstrip(c)`: trailing copies of `c` removed. */
  function StripRight(s: string, c: char): string
  {
    if |s| > 0 && s[|s| - 1] == c then StripRight(s[..|s| - 1], c) else s
  }

  /** `s.strip(c)`: copies of `c` removed from both ends, as Python's `str.strip` does. */
  function Strip(s: string, c: char): string
  {
    StripRight(StripLeft(s, c), c)
  }

  lemma {:induction false} StripLeftIsSuffix(s: string, c: char)
    ensures var r := StripLeft(s, c);
      |r| <= |s| && r == s[|s| - |r|..] &&
      (forall i :: 0 <= i < |s| - |r| ==> s[i] == c) &&
      (r == [] || r[0] != c)
  {
    if |s| > 0 && s[0] == c {
      StripLeftIsSuffix(s[1..], c);
    }
  }

  lemma {:induction false} StripRightIsPrefix(s: string, c: char)
    ensures var r := StripRight(s, c);
      |r| <= |s| && r == s[..|r|] &&
      (forall i :: |r| <= i < |s| ==> s[i] == c) &&
      (r == [] || r[|r| - 1] != c)
  {
    if |s| > 0 && s[|s| - 1] == c {
      StripRightIsPrefix(s[..|s| - 1], c);
    }
  }

  /**
   * `s.strip(c)` is the part of `s` between a run of leading and a run of
   * trailing copies of `c`, and neither starts nor ends with `c`.
   */
  lemma StripEdges(s: string, c: char)
    ensures var r, a := Strip(s, c), |s| - |StripLeft(s, c)|;
      0 <= a && a + |r| <= |s| && r == s[a..a + |r|] &&
      (forall i :: 0 <= i < a ==> s[i] == c) &&
      (forall i :: a + |r| <= i < |s| ==> s[i] == c)
    ensures var r := Strip(s, c); r == [] || (r[0] != c && r[|r| - 1] != c)
  {
    var l := StripLeft(s, c);
    StripLeftIsSuffix(s, c);
    StripRightIsPrefix(l, c);
    var r := Strip(s, c);
    var a := |s| - |l|;
    assert r == s[a..a + |r|];
  }

  /** A stripped string never ends with the character stripped from it. */
  lemma StrippedNeverEndsWith(s: string, c: char)
    ensures !EndsWith(Strip(s, c), [c])
  {
    StripEdges(s, c);
  }

  /** The number of occurrences of `c` in `s` (`s.count(c)` for one character). */
  function Count(s: string, c: char): nat
  {
    if s == [] then 0 else (if s[0] == c then 1 else 0) + Count(s[1..], c)
  }

  lemma {:induction false} CountAppend(a: string, b: string, c: char)
    ensures Count(a + b, c) == Count(a, c) + Count(b, c)
  {
    if a == [] {
      assert a + b == b;
    } else {
      assert (a + b)[1..] == a[1..] + b;
      CountAppend(a[1..], b, c);
    }
  }

  lemma {:induction false} CountAbsent(s: string, c: char)
    requires forall j :: 0 <= j < |s| ==> s[j] != c
    ensures Count(s, c) == 0
  {
    if s != [] {
      CountAbsent(s[1..], c);
    }
  }
}

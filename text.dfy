/**
  String helpers shared by the two link passes and by folder ingestion:
  Python's `in` on strings, `str.split(d)[0]`, `str.rfind(c)`, `str.endswith`
  and ASCII `str.lower`. Strings are sequences of characters.
 */
module Text {
  import opened Wrappers

  /** `s.startswith(p)` */
  predicate StartsWith(s: string, p: string)
  {
    |p| <= |s| && s[..|p|] == p
  }

  /** `s.endswith(p)` */
  predicate EndsWith(s: string, p: string)
  {
    |p| <= |s| && s[|s| - |p|..] == p
  }

  /** `p in s`: `p` occurs somewhere in `s` */
  predicate Contains(s: string, p: string)
  {
    exists i | 0 <= i <= |s| :: StartsWith(s[i..], p)
  }

  /** The position of the first occurrence of `p` in `s` at or after `from`. */
  function IndexOfFrom(s: string, p: string, from: nat): (r: Option<nat>)
    requires from <= |s|
    ensures r.Some? ==> from <= r.value <= |s| && StartsWith(s[r.value..], p)
    ensures r.Some? ==> forall k | from <= k < r.value :: !StartsWith(s[k..], p)
    ensures r.None? ==> forall k | from <= k <= |s| :: !StartsWith(s[k..], p)
    decreases |s| - from
  {
    if StartsWith(s[from..], p) then Some(from)
    else if from == |s| then None
    else IndexOfFrom(s, p, from + 1)
  }

  /** `s.find(p)`, with `None` for -1 */
  function IndexOf(s: string, p: string): (r: Option<nat>)
    ensures r.None? <==> !Contains(s, p)
    ensures r.Some? ==> r.value <= |s| && StartsWith(s[r.value..], p)
    ensures r.Some? ==> forall k | 0 <= k < r.value :: !StartsWith(s[k..], p)
  {
    IndexOfFrom(s, p, 0)
  }

  /** `s.rfind(c)` for a single character, with `None` for -1 */
  function LastIndexOf(s: string, c: char): (r: Option<nat>)
    ensures r.None? <==> c !in s
    ensures r.Some? ==> r.value < |s| && s[r.value] == c
    ensures r.Some? ==> forall k | r.value < k < |s| :: s[k] != c
  {
    if s == [] then None
    else if s[|s| - 1] == c then Some(|s| - 1)
    else LastIndexOf(s[..|s| - 1], c)
  }

  /** `s.split(d)[0]` when `d in s`: the text before the first occurrence of `d` */
  function PrefixBefore(s: string, d: string): (r: string)
    requires Contains(s, d)
    ensures StartsWith(s, r + d)
    ensures forall k | 0 <= k < |r| :: !StartsWith(s[k..], d)
  {
    var i := IndexOf(s, d).value;
    assert s[..i] + d == s[..i + |d|];
    s[..i]
  }

  /** ASCII `str.lower` of one character */
  function LowerChar(c: char): char
  {
    if 'A' <= c <= 'Z' then (c as int - 'A' as int + 'a' as int) as char else c
  }

  /**
    ASCII `str.lower`: each capital becomes the letter 32 code points higher,
    every other character stays, and no capital is left.
   */
  function Lower(s: string): (r: string)
    ensures |r| == |s|
    ensures forall k | 0 <= k < |s| && 'A' <= s[k] <= 'Z' :: r[k] as int == s[k] as int + 32
    ensures forall k | 0 <= k < |s| && !('A' <= s[k] <= 'Z') :: r[k] == s[k]
    ensures forall k | 0 <= k < |r| :: !('A' <= r[k] <= 'Z')
  {
    seq(|s|, k requires 0 <= k < |s| => LowerChar(s[k]))
  }

  /** Lowering twice is lowering once. */
  lemma LowerIdempotent(s: string)
    ensures Lower(Lower(s)) == Lower(s)
  {
    var r := Lower(s);
    assert forall k | 0 <= k < |r| :: Lower(r)[k] == r[k];
  }

  /** The position of the first occurrence of `x` in `xs`. */
  function FirstIndex<T(==)>(xs: seq<T>, x: T): (k: nat)
    requires x in xs
    ensures k < |xs| && xs[k] == x
    ensures forall j | 0 <= j < k :: xs[j] != x
  {
    if xs[0] == x then 0 else 1 + FirstIndex(xs[1..], x)
  }

  /** Concatenation regrouped; a step the solver does not always find in long chains. */
  lemma AppendAssoc(a: string, b: string, c: string)
    ensures a + (b + c) == (a + b) + c
  {
  }

  /** A pattern can only occur where its first character occurs. */
  lemma NotContainedWithoutFirstChar(s: string, p: string)
    requires p != [] && p[0] !in s
    ensures !Contains(s, p)
  {
  }

  /** A pattern longer than the text cannot occur in it. */
  lemma NotContainedWhenLonger(s: string, p: string)
    requires |s| < |p|
    ensures !Contains(s, p)
  {
  }

  /** An occurrence of `p + q` is an occurrence of `p`. */
  lemma ContainsPrefixOfPattern(s: string, p: string, q: string)
    requires Contains(s, p + q)
    ensures Contains(s, p)
  {
    var i :| 0 <= i <= |s| && StartsWith(s[i..], p + q);
    assert s[i..][..|p|] == (p + q)[..|p|] == p;
  }

  /** An occurrence survives adding text in front or behind. */
  lemma ContainsInContext(a: string, s: string, b: string, p: string)
    requires Contains(s, p)
    ensures Contains(a + s + b, p)
  {
    var i :| 0 <= i <= |s| && StartsWith(s[i..], p);
    var t := a + s + b;
    assert t[|a| + i..][..|p|] == s[i..][..|p|];
  }

  /** `p` occurs in `[c] + s` only at the front or inside `s`. */
  lemma ContainsCons(c: char, s: string, p: string)
    ensures Contains([c] + s, p) <==> StartsWith([c] + s, p) || Contains(s, p)
  {
    var t := [c] + s;
    assert t[0..] == t;
    if Contains(t, p) && !StartsWith(t, p) {
      var i :| 0 <= i <= |t| && StartsWith(t[i..], p);
      assert i > 0;
      assert t[i..] == s[i - 1..];
    }
    if Contains(s, p) {
      var i :| 0 <= i <= |s| && StartsWith(s[i..], p);
      assert t[i + 1..] == s[i..];
    }
  }
}

/**
 * Literal find/replace on character sequences, as the `-s` mode of the
 * `map` pipe filter does it with Rust's `str::replace` and `str::replacen`.
 *
 * Matches are found by scanning from the left; after a match the scan
 * resumes right after it, so the matches replaced are the leftmost,
 * non-overlapping ones. An empty pattern matches at every character
 * boundary, including the start and the end of the text.
 */
module LiteralReplace {
  import opened Wrappers

  /** `p` occurs in `s` starting at position `i`. */
  predicate MatchAt(s: string, p: string, i: nat)
  {
    i <= |s| && StartsWith(s[i..], p)
  }

  /** `p` occurs at the very start of `s`, compared one character at a time. */
  predicate StartsWith(s: string, p: string)
    decreases |p|
  {
    |p| <= |s| && (|p| == 0 || (s[0] == p[0] && StartsWith(s[1..], p[1..])))
  }

  /** `i` is the position of the leftmost occurrence of `p` in `s`. */
  predicate IsFirstMatch(s: string, p: string, i: nat)
  {
    MatchAt(s, p, i) && forall j :: 0 <= j < i ==> !MatchAt(s, p, j)
  }

  /** `p` occurs nowhere in `s`. */
  predicate NoMatch(s: string, p: string)
  {
    forall j :: 0 <= j <= |s| ==> !MatchAt(s, p, j)
  }

  function Min(a: nat, b: nat): nat
  {
    if a <= b then a else b
  }

  /** The position of the leftmost occurrence of `p` in `s`, if there is one. */
  function Find(s: string, p: string): (r: Option<nat>)
    ensures r.Some? ==> IsFirstMatch(s, p, r.value)
    ensures r.None? ==> NoMatch(s, p)
    decreases |s|
  {
    if StartsWith(s, p) then
      assert MatchAt(s, p, 0);
      Some(0)
    else if |s| == 0 then
      None
    else
      match Find(s[1..], p)
      case None =>
        assert forall j :: 1 <= j <= |s| ==> (MatchAt(s, p, j) <==> MatchAt(s[1..], p, j - 1));
        None
      case Some(i) =>
        assert forall j :: 1 <= j <= |s| ==> (MatchAt(s, p, j) <==> MatchAt(s[1..], p, j - 1));
        Some(i + 1)
  }

  /**
   * The number of leftmost, non-overlapping occurrences of `p` in `s`:
   * the number of replacements `str::replace` makes.
   */
  function Count(s: string, p: string): nat
    decreases |s|
  {
    if StartsWith(s, p) then
      if |p| == 0 then
        if |s| == 0 then 1 else 1 + Count(s[1..], p)
      else 1 + Count(s[|p|..], p)
    else if |s| == 0 then 0
    else Count(s[1..], p)
  }

  /** `str::replace`: every leftmost, non-overlapping occurrence of `p` becomes `r`. */
  function ReplaceAll(s: string, p: string, r: string): string
    decreases |s|
  {
    if StartsWith(s, p) then
      if |p| == 0 then
        if |s| == 0 then r else r + [s[0]] + ReplaceAll(s[1..], p, r)
      else r + ReplaceAll(s[|p|..], p, r)
    else if |s| == 0 then []
    else [s[0]] + ReplaceAll(s[1..], p, r)
  }

  /** `str::replacen`: only the first `n` leftmost, non-overlapping occurrences become `r`. */
  function ReplaceN(s: string, p: string, r: string, n: nat): string
    decreases |s|
  {
    if n == 0 then s
    else if StartsWith(s, p) then
      if |p| == 0 then
        if |s| == 0 then r else r + [s[0]] + ReplaceN(s[1..], p, r, n - 1)
      else r + ReplaceN(s[|p|..], p, r, n - 1)
    else if |s| == 0 then []
    else [s[0]] + ReplaceN(s[1..], p, r, n)
  }

  /** The position just past the `n`-th replaced occurrence (counted from 1). */
  function MatchEnd(s: string, p: string, n: nat): (e: nat)
    requires 1 <= n <= Count(s, p)
    ensures |p| <= e <= |s|
    decreases |s|
  {
    if StartsWith(s, p) then
      if n == 1 then |p|
      else if |p| == 0 then 1 + MatchEnd(s[1..], p, n - 1)
      else |p| + MatchEnd(s[|p|..], p, n - 1)
    else 1 + MatchEnd(s[1..], p, n)
  }
}

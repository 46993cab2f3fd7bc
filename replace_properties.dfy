/**
 * What the literal replacement promises: text before the first occurrence
 * is kept, text after the last replaced occurrence is kept, a large enough
 * limit is the same as no limit, and the length changes by the number of
 * replacements times the difference in pattern lengths.
 */
module ReplaceProperties {
  import opened LiteralReplace

  // One step of the scan, for each of the three ways it can go on:
  // past a position that starts no occurrence, past a non-empty
  // occurrence, or past one character after an empty-pattern match.

  lemma {:induction false} ReplaceNSkip(s: string, p: string, r: string, n: nat)
    requires n > 0 && |s| > 0 && !StartsWith(s, p)
    ensures ReplaceN(s, p, r, n) == [s[0]] + ReplaceN(s[1..], p, r, n)
  {
  }

  lemma {:induction false} ReplaceNMatch(s: string, p: string, r: string, n: nat)
    requires n > 0 && |p| > 0 && StartsWith(s, p)
    ensures ReplaceN(s, p, r, n) == r + ReplaceN(s[|p|..], p, r, n - 1)
  {
  }

  lemma {:induction false} ReplaceNEmpty(s: string, p: string, r: string, n: nat)
    requires n > 0 && |p| == 0 && |s| > 0
    ensures ReplaceN(s, p, r, n) == r + [s[0]] + ReplaceN(s[1..], p, r, n - 1)
  {
  }

  lemma {:induction false} ReplaceAllSkip(s: string, p: string, r: string)
    requires |s| > 0 && !StartsWith(s, p)
    ensures ReplaceAll(s, p, r) == [s[0]] + ReplaceAll(s[1..], p, r)
  {
  }

  lemma {:induction false} ReplaceAllMatch(s: string, p: string, r: string)
    requires |p| > 0 && StartsWith(s, p)
    ensures ReplaceAll(s, p, r) == r + ReplaceAll(s[|p|..], p, r)
  {
  }

  lemma {:induction false} ReplaceAllEmpty(s: string, p: string, r: string)
    requires |p| == 0 && |s| > 0
    ensures ReplaceAll(s, p, r) == r + [s[0]] + ReplaceAll(s[1..], p, r)
  {
  }

  lemma {:induction false} CountSkip(s: string, p: string)
    requires |s| > 0 && !StartsWith(s, p)
    ensures Count(s, p) == Count(s[1..], p)
  {
  }

  lemma {:induction false} CountMatch(s: string, p: string)
    requires |p| > 0 && StartsWith(s, p)
    ensures Count(s, p) == 1 + Count(s[|p|..], p)
  {
  }

  lemma {:induction false} CountEmpty(s: string, p: string)
    requires |p| == 0 && |s| > 0
    ensures Count(s, p) == 1 + Count(s[1..], p)
  {
  }

  lemma {:induction false} MatchEndSkip(s: string, p: string, n: nat)
    requires !StartsWith(s, p) && 1 <= n <= Count(s, p)
    ensures |s| > 0 && n <= Count(s[1..], p)
    ensures MatchEnd(s, p, n) == 1 + MatchEnd(s[1..], p, n)
  {
  }

  lemma {:induction false} MatchEndMatch(s: string, p: string, n: nat)
    requires |p| > 0 && StartsWith(s, p) && 2 <= n <= Count(s, p)
    ensures n - 1 <= Count(s[|p|..], p)
    ensures MatchEnd(s, p, n) == |p| + MatchEnd(s[|p|..], p, n - 1)
  {
  }

  lemma {:induction false} MatchEndEmpty(s: string, p: string, n: nat)
    requires |p| == 0 && 2 <= n <= Count(s, p)
    ensures |s| > 0 && n - 1 <= Count(s[1..], p)
    ensures MatchEnd(s, p, n) == 1 + MatchEnd(s[1..], p, n - 1)
  {
  }

  /** Dropping the first character, then `i - 1` more, is dropping `i`. */
  lemma {:induction false} ConsSlices(s: string, i: nat)
    requires 0 < i <= |s|
    ensures [s[0]] + s[1..][..i - 1] == s[..i]
    ensures s[1..][i - 1..] == s[i..]
  {
  }

  /** Slicing the rest after `k` is slicing `s` `k` positions further on. */
  lemma {:induction false} SliceShift(s: string, k: nat, e: nat)
    requires k + e <= |s|
    ensures s[..k + e][k..] == s[k..][..e]
    ensures s[k + e..] == s[k..][e..]
  {
  }

  /** Concatenation is associative. */
  lemma {:induction false} Regroup(x: string, a: string, b: string)
    ensures x + (a + b) == (x + a) + b
  {
  }

  /** A text is its first `k` characters followed by the rest. */
  lemma {:induction false} SplitAt(s: string, k: nat)
    requires k <= |s|
    ensures s[..k] + s[k..] == s
  {
  }

  /** An occurrence at position `k + j` of `s` is one at `j` of `s[k..]`. */
  lemma {:induction false} MatchShift(s: string, p: string, k: nat, j: nat)
    requires k <= |s|
    ensures MatchAt(s, p, k + j) <==> MatchAt(s[k..], p, j)
  {
    if k + j <= |s| {
      assert s[k..][j..] == s[k + j..];
    }
  }

  /** The character-by-character test is the prefix test on sequences. */
  lemma {:induction false} StartsWithIsPrefix(s: string, p: string)
    ensures StartsWith(s, p) <==> |p| <= |s| && s[..|p|] == p
    decreases |p|
  {
    if |p| > 0 && |p| <= |s| {
      StartsWithIsPrefix(s[1..], p[1..]);
      assert s[..|p|] == [s[0]] + s[1..][..|p| - 1];
      assert p == [p[0]] + p[1..];
    }
  }

  /** A text that starts with `p` begins with a copy of `p`, which starts with `p` too. */
  lemma {:induction false} HeadStartsWith(s: string, p: string)
    requires StartsWith(s, p)
    ensures s[..|p|] == p && StartsWith(s[..|p|], p)
  {
    StartsWithIsPrefix(s, p);
    StartsWithIsPrefix(s[..|p|], p);
    assert s[..|p|][..|p|] == s[..|p|];
  }

  /** A prefix of `s` at least as long as `p` starts with `p` exactly when `s` does. */
  lemma {:induction false} PrefixStart(s: string, p: string, e: nat)
    requires |p| <= e <= |s|
    ensures StartsWith(s[..e], p) <==> StartsWith(s, p)
  {
    StartsWithIsPrefix(s, p);
    StartsWithIsPrefix(s[..e], p);
    assert s[..e][..|p|] == s[..|p|];
  }

  /** No occurrence starts in the first `i` positions of `s` (`i` > 0): the same holds one position further on. */
  lemma {:induction false} UnmatchedStep(s: string, p: string, i: nat)
    requires 0 < i <= |s|
    requires forall j :: 0 <= j < i ==> !MatchAt(s, p, j)
    ensures !StartsWith(s, p)
    ensures forall j :: 0 <= j < i - 1 ==> !MatchAt(s[1..], p, j)
  {
    assert !MatchAt(s, p, 0);
    forall j | 0 <= j < i - 1
      ensures !MatchAt(s[1..], p, j)
    {
      MatchShift(s, p, 1, j);
    }
  }

  /**
   * Text in front of the first `i` positions, none of which starts an
   * occurrence, is copied unchanged by `replacen` and the scan goes on from `i`.
   */
  lemma {:induction false} SkipUnmatchedN(s: string, p: string, r: string, n: nat, i: nat)
    requires i <= |s|
    requires forall j :: 0 <= j < i ==> !MatchAt(s, p, j)
    ensures ReplaceN(s, p, r, n) == s[..i] + ReplaceN(s[i..], p, r, n)
    decreases i
  {
    if i > 0 && n > 0 {
      var t := s[1..];
      UnmatchedStep(s, p, i);
      SkipUnmatchedN(t, p, r, n, i - 1);
      ReplaceNSkip(s, p, r, n);
      ConsSlices(s, i);
      Regroup([s[0]], t[..i - 1], ReplaceN(t[i - 1..], p, r, n));
    }
  }

  /** The same for `replace`. */
  lemma {:induction false} SkipUnmatchedAll(s: string, p: string, r: string, i: nat)
    requires i <= |s|
    requires forall j :: 0 <= j < i ==> !MatchAt(s, p, j)
    ensures ReplaceAll(s, p, r) == s[..i] + ReplaceAll(s[i..], p, r)
    decreases i
  {
    if i > 0 {
      var t := s[1..];
      UnmatchedStep(s, p, i);
      SkipUnmatchedAll(t, p, r, i - 1);
      ReplaceAllSkip(s, p, r);
      ConsSlices(s, i);
      Regroup([s[0]], t[..i - 1], ReplaceAll(t[i - 1..], p, r));
    }
  }

  /** The same for the count of occurrences. */
  lemma {:induction false} SkipUnmatchedCount(s: string, p: string, i: nat)
    requires i <= |s|
    requires forall j :: 0 <= j < i ==> !MatchAt(s, p, j)
    ensures Count(s, p) == Count(s[i..], p)
    decreases i
  {
    if i > 0 {
      var t := s[1..];
      UnmatchedStep(s, p, i);
      SkipUnmatchedCount(t, p, i - 1);
      CountSkip(s, p);
      ConsSlices(s, i);
    }
  }

  /**
   * Text in front of the first `i` positions, none of which starts an
   * occurrence, is copied unchanged and the scan goes on from `i`.
   */
  lemma {:induction false} SkipUnmatched(s: string, p: string, r: string, n: nat, i: nat)
    requires i <= |s|
    requires forall j :: 0 <= j < i ==> !MatchAt(s, p, j)
    ensures ReplaceN(s, p, r, n) == s[..i] + ReplaceN(s[i..], p, r, n)
    ensures ReplaceAll(s, p, r) == s[..i] + ReplaceAll(s[i..], p, r)
    ensures Count(s, p) == Count(s[i..], p)
  {
    SkipUnmatchedN(s, p, r, n, i);
    SkipUnmatchedAll(s, p, r, i);
    SkipUnmatchedCount(s, p, i);
  }

  /** The leftmost occurrence is at `i`: the text from `i` on starts with `p`. */
  lemma {:induction false} FirstMatchStarts(s: string, p: string, i: nat)
    requires IsFirstMatch(s, p, i)
    ensures i <= |s| && StartsWith(s[i..], p)
  {
  }

  lemma {:induction false} FirstMatchReplacedN(s: string, p: string, r: string, n: nat, i: nat)
    requires |p| > 0 && n >= 1
    requires IsFirstMatch(s, p, i)
    ensures ReplaceN(s, p, r, n) == s[..i] + r + ReplaceN(s[i + |p|..], p, r, n - 1)
  {
    SkipUnmatchedN(s, p, r, n, i);
    FirstMatchStarts(s, p, i);
    ReplaceNMatch(s[i..], p, r, n);
    SliceShift(s, i, |p|);
    Regroup(s[..i], r, ReplaceN(s[i + |p|..], p, r, n - 1));
  }

  lemma {:induction false} FirstMatchReplacedAll(s: string, p: string, r: string, i: nat)
    requires |p| > 0
    requires IsFirstMatch(s, p, i)
    ensures ReplaceAll(s, p, r) == s[..i] + r + ReplaceAll(s[i + |p|..], p, r)
  {
    SkipUnmatchedAll(s, p, r, i);
    FirstMatchStarts(s, p, i);
    ReplaceAllMatch(s[i..], p, r);
    SliceShift(s, i, |p|);
    Regroup(s[..i], r, ReplaceAll(s[i + |p|..], p, r));
  }

  lemma {:induction false} FirstMatchCounted(s: string, p: string, i: nat)
    requires |p| > 0
    requires IsFirstMatch(s, p, i)
    ensures Count(s, p) == 1 + Count(s[i + |p|..], p)
  {
    SkipUnmatchedCount(s, p, i);
    FirstMatchStarts(s, p, i);
    CountMatch(s[i..], p);
    SliceShift(s, i, |p|);
  }

  /**
   * Count 0 and count N > 0 alike: the leftmost occurrence of a non-empty
   * pattern is the first one replaced, everything before it is kept, and
   * the scan resumes right after it.
   */
  lemma {:induction false} FirstMatchReplaced(s: string, p: string, r: string, n: nat, i: nat)
    requires |p| > 0
    requires IsFirstMatch(s, p, i)
    ensures n >= 1 ==> ReplaceN(s, p, r, n) == s[..i] + r + ReplaceN(s[i + |p|..], p, r, n - 1)
    ensures ReplaceAll(s, p, r) == s[..i] + r + ReplaceAll(s[i + |p|..], p, r)
    ensures Count(s, p) == 1 + Count(s[i + |p|..], p)
  {
    if n >= 1 {
      FirstMatchReplacedN(s, p, r, n, i);
    }
    FirstMatchReplacedAll(s, p, r, i);
    FirstMatchCounted(s, p, i);
  }

  /** A text in which the pattern never occurs is returned unchanged. */
  lemma {:induction false} NoMatchUnchanged(s: string, p: string, r: string, n: nat)
    requires NoMatch(s, p)
    ensures ReplaceN(s, p, r, n) == s
    ensures ReplaceAll(s, p, r) == s
    ensures Count(s, p) == 0
  {
    SkipUnmatched(s, p, r, n, |s|);
    assert !MatchAt(s, p, |s|);
    assert s[|s|..] == [];
  }

  /** No occurrence is counted exactly when the pattern occurs nowhere. */
  lemma {:induction false} CountZeroIffNoMatch(s: string, p: string)
    ensures Count(s, p) == 0 <==> NoMatch(s, p)
  {
    match Find(s, p)
    case None =>
      NoMatchUnchanged(s, p, [], 0);
    case Some(i) =>
      if |p| > 0 {
        FirstMatchReplaced(s, p, [], 0, i);
      }
  }

  /** One more occurrence takes the pattern's length once more. */
  lemma {:induction false} MulSucc(c: nat, len: nat)
    ensures (1 + c) * len == len + c * len
  {
  }

  /** Non-overlapping occurrences of a non-empty pattern fit in the text. */
  lemma {:induction false} CountBound(s: string, p: string)
    requires |p| > 0
    ensures Count(s, p) * |p| <= |s|
    decreases |s|
  {
    if |s| == 0 {
    } else if !StartsWith(s, p) {
      CountBound(s[1..], p);
      CountSkip(s, p);
    } else {
      var t := s[|p|..];
      CountBound(t, p);
      CountMatch(s, p);
      MulSucc(Count(t, p), |p|);
    }
  }

  /** A limit of 0 is `replace` when there is nothing to replace. */
  lemma {:induction false} LimitZero(s: string, p: string, r: string)
    requires Count(s, p) == 0
    ensures ReplaceN(s, p, r, 0) == ReplaceAll(s, p, r)
  {
    CountZeroIffNoMatch(s, p);
    NoMatchUnchanged(s, p, r, 0);
  }

  /** Both scans agree past a position that starts no occurrence. */
  lemma {:induction false} LimitSkip(s: string, p: string, r: string, n: nat)
    requires n > 0 && |s| > 0 && !StartsWith(s, p)
    requires ReplaceN(s[1..], p, r, n) == ReplaceAll(s[1..], p, r)
    ensures ReplaceN(s, p, r, n) == ReplaceAll(s, p, r)
  {
    ReplaceNSkip(s, p, r, n);
    ReplaceAllSkip(s, p, r);
  }

  /** Both scans agree past an empty-pattern match and the character after it. */
  lemma {:induction false} LimitEmpty(s: string, p: string, r: string, n: nat)
    requires n > 0 && |p| == 0 && |s| > 0
    requires ReplaceN(s[1..], p, r, n - 1) == ReplaceAll(s[1..], p, r)
    ensures ReplaceN(s, p, r, n) == ReplaceAll(s, p, r)
  {
    ReplaceNEmpty(s, p, r, n);
    ReplaceAllEmpty(s, p, r);
  }

  /** Both scans agree past a non-empty occurrence at the start. */
  lemma {:induction false} LimitMatch(s: string, p: string, r: string, n: nat)
    requires n > 0 && |p| > 0 && StartsWith(s, p)
    requires ReplaceN(s[|p|..], p, r, n - 1) == ReplaceAll(s[|p|..], p, r)
    ensures ReplaceN(s, p, r, n) == ReplaceAll(s, p, r)
  {
    ReplaceNMatch(s, p, r, n);
    ReplaceAllMatch(s, p, r);
  }

  /** Once the limit covers every occurrence, `replacen` is `replace`. */
  lemma {:induction false} LimitCoveringAllIsReplaceAll(s: string, p: string, r: string, n: nat)
    requires n >= Count(s, p)
    ensures ReplaceN(s, p, r, n) == ReplaceAll(s, p, r)
    decreases |s|
  {
    if n == 0 {
      LimitZero(s, p, r);
    } else if |s| == 0 {
    } else if !StartsWith(s, p) {
      CountSkip(s, p);
      LimitCoveringAllIsReplaceAll(s[1..], p, r, n);
      LimitSkip(s, p, r, n);
    } else if |p| == 0 {
      CountEmpty(s, p);
      LimitCoveringAllIsReplaceAll(s[1..], p, r, n - 1);
      LimitEmpty(s, p, r, n);
    } else {
      CountMatch(s, p);
      LimitCoveringAllIsReplaceAll(s[|p|..], p, r, n - 1);
      LimitMatch(s, p, r, n);
    }
  }

  /** One more replacement adds the difference in lengths once more. */
  lemma {:induction false} LengthStep(len: int, m: int, d: int, added: int)
    ensures added + len + m * d == (added - d + len) + (m + 1) * d
  {
  }

  /**
   * The output grows by |r| - |p| for every replaced occurrence, and
   * min(n, Count) occurrences are replaced.
   */
  lemma {:induction false} LengthReplaceN(s: string, p: string, r: string, n: nat)
    ensures |ReplaceN(s, p, r, n)| == |s| + Min(n, Count(s, p)) * (|r| - |p|)
    decreases |s|
  {
    if n == 0 || |s| == 0 {
    } else if !StartsWith(s, p) {
      LengthReplaceN(s[1..], p, r, n);
      ReplaceNSkip(s, p, r, n);
      CountSkip(s, p);
    } else if |p| == 0 {
      var t := s[1..];
      LengthReplaceN(t, p, r, n - 1);
      ReplaceNEmpty(s, p, r, n);
      CountEmpty(s, p);
      LengthStep(|t|, Min(n - 1, Count(t, p)), |r| - |p|, 1 + |r|);
    } else {
      var t := s[|p|..];
      LengthReplaceN(t, p, r, n - 1);
      ReplaceNMatch(s, p, r, n);
      CountMatch(s, p);
      LengthStep(|t|, Min(n - 1, Count(t, p)), |r| - |p|, |r|);
    }
  }

  /** `replace` grows the text by |r| - |p| for every occurrence. */
  lemma {:induction false} LengthReplaceAll(s: string, p: string, r: string)
    ensures |ReplaceAll(s, p, r)| == |s| + Count(s, p) * (|r| - |p|)
  {
    LimitCoveringAllIsReplaceAll(s, p, r, Count(s, p));
    LengthReplaceN(s, p, r, Count(s, p));
  }

  /** `replacen` of a pattern by itself changes nothing, whatever the limit. */
  lemma {:induction false} SelfReplacementN(s: string, p: string, n: nat)
    ensures ReplaceN(s, p, p, n) == s
    decreases |s|
  {
    if n == 0 || |s| == 0 {
    } else if !StartsWith(s, p) {
      SelfReplacementN(s[1..], p, n);
      ReplaceNSkip(s, p, p, n);
      SplitAt(s, 1);
    } else if |p| == 0 {
      SelfReplacementN(s[1..], p, n - 1);
      ReplaceNEmpty(s, p, p, n);
      SplitAt(s, 1);
    } else {
      SelfReplacementN(s[|p|..], p, n - 1);
      ReplaceNMatch(s, p, p, n);
      HeadStartsWith(s, p);
      SplitAt(s, |p|);
    }
  }

  /** `replace` of a pattern by itself changes nothing. */
  lemma {:induction false} SelfReplacementAll(s: string, p: string)
    ensures ReplaceAll(s, p, p) == s
    decreases |s|
  {
    if |s| == 0 {
    } else if !StartsWith(s, p) {
      SelfReplacementAll(s[1..], p);
      ReplaceAllSkip(s, p, p);
      SplitAt(s, 1);
    } else if |p| == 0 {
      SelfReplacementAll(s[1..], p);
      ReplaceAllEmpty(s, p, p);
      SplitAt(s, 1);
    } else {
      SelfReplacementAll(s[|p|..], p);
      ReplaceAllMatch(s, p, p);
      HeadStartsWith(s, p);
      SplitAt(s, |p|);
    }
  }

  /** The `n`-th occurrence the scan finds in `s` ends at `MatchEnd(s, p, n)`. */
  ghost predicate EndsAMatch(s: string, p: string, n: nat)
    requires 1 <= n <= Count(s, p)
  {
    MatchAt(s, p, MatchEnd(s, p, n) - |p|)
  }

  /** When the scan moves `k` positions on, an occurrence ending in the rest ends in `s` too. */
  lemma {:induction false} EndStep(s: string, p: string, n: nat, k: nat, m: nat)
    requires 1 <= n <= Count(s, p) && k <= |s| && 1 <= m <= Count(s[k..], p)
    requires MatchEnd(s, p, n) == k + MatchEnd(s[k..], p, m)
    requires EndsAMatch(s[k..], p, m)
    ensures EndsAMatch(s, p, n)
  {
    MatchShift(s, p, k, MatchEnd(s[k..], p, m) - |p|);
  }

  /** A match at the start is the first occurrence the scan replaces. */
  lemma {:induction false} EndOfFirst(s: string, p: string)
    requires StartsWith(s, p)
    ensures 1 <= Count(s, p) && MatchEnd(s, p, 1) == |p| && EndsAMatch(s, p, 1)
  {
    assert MatchAt(s, p, 0);
  }

  /** The empty pattern occurs at every cut. */
  lemma {:induction false} EndsEmpty(s: string, p: string, n: nat)
    requires |p| == 0 && 1 <= n <= Count(s, p)
    ensures EndsAMatch(s, p, n)
  {
    assert MatchAt(s, p, MatchEnd(s, p, n));
  }

  /** A real occurrence at the end of the cut carries over a position that starts none. */
  lemma {:induction false} EndsSkip(s: string, p: string, n: nat)
    requires !StartsWith(s, p) && 1 <= n <= Count(s, p)
    requires |s| > 0 && n <= Count(s[1..], p)
    requires EndsAMatch(s[1..], p, n)
    ensures EndsAMatch(s, p, n)
  {
    MatchEndSkip(s, p, n);
    EndStep(s, p, n, 1, n);
  }

  /** A real occurrence at the end of the cut carries over a non-empty occurrence at the start. */
  lemma {:induction false} EndsMatch(s: string, p: string, n: nat)
    requires |p| > 0 && StartsWith(s, p) && 2 <= n <= Count(s, p)
    requires n - 1 <= Count(s[|p|..], p)
    requires EndsAMatch(s[|p|..], p, n - 1)
    ensures EndsAMatch(s, p, n)
  {
    MatchEndMatch(s, p, n);
    EndStep(s, p, n, |p|, n - 1);
  }

  /** The `n`-th occurrence the scan replaces is a real occurrence. */
  lemma {:induction false} MatchEndIsMatch(s: string, p: string, n: nat)
    requires 1 <= n <= Count(s, p)
    ensures MatchAt(s, p, MatchEnd(s, p, n) - |p|)
    decreases |s|
  {
    if |p| == 0 {
      EndsEmpty(s, p, n);
    } else if !StartsWith(s, p) {
      MatchEndSkip(s, p, n);
      MatchEndIsMatch(s[1..], p, n);
      EndsSkip(s, p, n);
    } else if n == 1 {
      EndOfFirst(s, p);
    } else {
      MatchEndMatch(s, p, n);
      MatchEndIsMatch(s[|p|..], p, n - 1);
      EndsMatch(s, p, n);
    }
  }

  /** The prefix of `s` up to the end of the `n`-th occurrence holds `n` occurrences. */
  ghost predicate CountedUpTo(s: string, p: string, n: nat)
    requires 1 <= n <= Count(s, p)
  {
    Count(s[..MatchEnd(s, p, n)], p) == n
  }

  /**
   * When the scan moves `k` positions on past a start that does (`hit`) or
   * does not count as an occurrence, the prefix up to the `n`-th end holds
   * what the rest's prefix up to its `m`-th end holds, plus that one.
   */
  lemma {:induction false} CountedStep(s: string, p: string, n: nat, k: nat, m: nat, hit: bool)
    requires 1 <= n <= Count(s, p) && k <= |s| && 1 <= m <= Count(s[k..], p)
    requires MatchEnd(s, p, n) == k + MatchEnd(s[k..], p, m)
    requires Count(s[..MatchEnd(s, p, n)], p) ==
      (if hit then 1 else 0) + Count(s[..MatchEnd(s, p, n)][k..], p)
    requires n == m + (if hit then 1 else 0)
    requires CountedUpTo(s[k..], p, m)
    ensures CountedUpTo(s, p, n)
  {
    SliceShift(s, k, MatchEnd(s[k..], p, m));
  }

  /** Counting past a position that starts no occurrence. */
  lemma {:induction false} CountedSkip(s: string, p: string, n: nat)
    requires !StartsWith(s, p) && 1 <= n <= Count(s, p)
    requires |s| > 0 && n <= Count(s[1..], p)
    requires CountedUpTo(s[1..], p, n)
    ensures CountedUpTo(s, p, n)
  {
    MatchEndSkip(s, p, n);
    var e := MatchEnd(s, p, n);
    PrefixStart(s, p, e);
    CountSkip(s[..e], p);
    CountedStep(s, p, n, 1, n, false);
  }

  /** Counting past an occurrence at the start, the first one included. */
  lemma {:induction false} CountedFirst(s: string, p: string)
    requires StartsWith(s, p)
    ensures 1 <= Count(s, p) && CountedUpTo(s, p, 1)
  {
    EndOfFirst(s, p);
    var head := s[..|p|];
    HeadStartsWith(s, p);
    if |p| == 0 {
      assert |head| == 0;
    } else {
      CountMatch(head, p);
      assert |head[|p|..]| == 0;
    }
  }

  /** Counting past an empty-pattern match and the character after it. */
  lemma {:induction false} CountedEmpty(s: string, p: string, n: nat)
    requires |p| == 0 && 2 <= n <= Count(s, p)
    requires |s| > 0 && n - 1 <= Count(s[1..], p)
    requires CountedUpTo(s[1..], p, n - 1)
    ensures CountedUpTo(s, p, n)
  {
    MatchEndEmpty(s, p, n);
    var e := MatchEnd(s, p, n);
    CountEmpty(s[..e], p);
    CountedStep(s, p, n, 1, n - 1, true);
  }

  /** Counting past a non-empty occurrence at the start. */
  lemma {:induction false} CountedMatch(s: string, p: string, n: nat)
    requires |p| > 0 && StartsWith(s, p) && 2 <= n <= Count(s, p)
    requires n - 1 <= Count(s[|p|..], p)
    requires CountedUpTo(s[|p|..], p, n - 1)
    ensures CountedUpTo(s, p, n)
  {
    MatchEndMatch(s, p, n);
    var e := MatchEnd(s, p, n);
    PrefixStart(s, p, e);
    CountMatch(s[..e], p);
    CountedStep(s, p, n, |p|, n - 1, true);
  }

  /** The text up to the end of the `n`-th occurrence holds exactly `n` occurrences. */
  lemma {:induction false} CountUpToMatchEnd(s: string, p: string, n: nat)
    requires 1 <= n <= Count(s, p)
    ensures Count(s[..MatchEnd(s, p, n)], p) == n
    decreases |s|
  {
    if !StartsWith(s, p) {
      MatchEndSkip(s, p, n);
      CountUpToMatchEnd(s[1..], p, n);
      CountedSkip(s, p, n);
    } else if n == 1 {
      CountedFirst(s, p);
    } else if |p| == 0 {
      MatchEndEmpty(s, p, n);
      CountUpToMatchEnd(s[1..], p, n - 1);
      CountedEmpty(s, p, n);
    } else {
      MatchEndMatch(s, p, n);
      CountUpToMatchEnd(s[|p|..], p, n - 1);
      CountedMatch(s, p, n);
    }
  }

  /** The leftmost search moves one position on past a start that is no occurrence. */
  lemma {:induction false} FindSkip(s: string, p: string)
    requires |s| > 0 && !StartsWith(s, p)
    ensures Find(s[1..], p).Some? ==> Find(s, p).Some? && Find(s, p).value == Find(s[1..], p).value + 1
  {
  }

  /** The first occurrence the scan replaces is the leftmost one: it ends `|p|` past `Find`. */
  lemma {:induction false} MatchEndOfFirst(s: string, p: string)
    requires 1 <= Count(s, p)
    ensures Find(s, p).Some? && MatchEnd(s, p, 1) == Find(s, p).value + |p|
    decreases |s|
  {
    if StartsWith(s, p) {
      EndOfFirst(s, p);
    } else {
      MatchEndSkip(s, p, 1);
      MatchEndOfFirst(s[1..], p);
      FindSkip(s, p);
    }
  }

  /** A text shorter than a non-empty pattern holds no occurrence of it. */
  lemma {:induction false} ShortTextNoCount(s: string, p: string)
    requires |s| < |p|
    ensures Count(s, p) == 0
    decreases |s|
  {
    if |s| > 0 {
      ShortTextNoCount(s[1..], p);
      CountSkip(s, p);
    }
  }

  /** The text up to one character before the end of the `n`-th occurrence holds `n - 1` occurrences. */
  ghost predicate CountedBefore(s: string, p: string, n: nat)
    requires |p| > 0 && 1 <= n <= Count(s, p)
  {
    Count(s[..MatchEnd(s, p, n) - 1], p) == n - 1
  }

  /** Counting short of the end, past a position that starts no occurrence. */
  lemma {:induction false} BeforeSkip(s: string, p: string, n: nat)
    requires |p| > 0 && !StartsWith(s, p) && 1 <= n <= Count(s, p)
    requires |s| > 0 && n <= Count(s[1..], p)
    requires CountedBefore(s[1..], p, n)
    ensures CountedBefore(s, p, n)
  {
    MatchEndSkip(s, p, n);
    var e' := MatchEnd(s[1..], p, n);
    PrefixStart(s, p, e');
    CountSkip(s[..e'], p);
    SliceShift(s, 1, e' - 1);
  }

  /** Counting short of the end of an occurrence at the very start. */
  lemma {:induction false} BeforeFirst(s: string, p: string)
    requires |p| > 0 && StartsWith(s, p)
    ensures 1 <= Count(s, p) && CountedBefore(s, p, 1)
  {
    EndOfFirst(s, p);
    ShortTextNoCount(s[..|p| - 1], p);
  }

  /** Counting short of the end, past a non-empty occurrence at the start. */
  lemma {:induction false} BeforeMatch(s: string, p: string, n: nat)
    requires |p| > 0 && StartsWith(s, p) && 2 <= n <= Count(s, p)
    requires n - 1 <= Count(s[|p|..], p)
    requires CountedBefore(s[|p|..], p, n - 1)
    ensures CountedBefore(s, p, n)
  {
    MatchEndMatch(s, p, n);
    var e' := MatchEnd(s[|p|..], p, n - 1);
    PrefixStart(s, p, |p| + e' - 1);
    CountMatch(s[..|p| + e' - 1], p);
    SliceShift(s, |p|, e' - 1);
  }

  /**
   * For a non-empty pattern no shorter cut holds `n` occurrences: the
   * text up to one character before the end of the `n`-th occurrence
   * holds only `n - 1`, so the cut is the end of the `n`-th occurrence and
   * not of a later, overlapping one.
   */
  lemma {:induction false} MatchEndMinimal(s: string, p: string, n: nat)
    requires |p| > 0 && 1 <= n <= Count(s, p)
    ensures Count(s[..MatchEnd(s, p, n) - 1], p) == n - 1
    decreases |s|
  {
    if !StartsWith(s, p) {
      MatchEndSkip(s, p, n);
      MatchEndMinimal(s[1..], p, n);
      BeforeSkip(s, p, n);
    } else if n == 1 {
      BeforeFirst(s, p);
    } else {
      MatchEndMatch(s, p, n);
      MatchEndMinimal(s[|p|..], p, n - 1);
      BeforeMatch(s, p, n);
    }
  }

  /**
   * The number of occurrences left after a replacement is not the count
   * minus the replacements: the new text can bring occurrences of its own.
   * Replacing `a` by `aa` in `a` makes one replacement and leaves two.
   */
  lemma {:induction false} ReplacementCanAddOccurrences()
    ensures Count("a", "a") == 1
    ensures ReplaceAll("a", "a", "aa") == "aa"
    ensures Count("aa", "a") == 2
  {
  }

  /** The end of the `n`-th occurrence of `p` in `s` splits the output as promised. */
  ghost predicate TailKept(s: string, p: string, r: string, n: nat)
    requires 1 <= n <= Count(s, p)
  {
    ReplaceN(s, p, r, n) == ReplaceAll(s[..MatchEnd(s, p, n)], p, r) + s[MatchEnd(s, p, n)..]
  }

  /**
   * When the scan moves `k` positions on, emitting `out` for them both in
   * the limited and in the full replacement, the split of the rest carries
   * over to `s`.
   */
  lemma {:induction false} TailStep(s: string, p: string, r: string, n: nat, k: nat, m: nat, out: string)
    requires 1 <= n <= Count(s, p) && k <= |s| && 1 <= m <= Count(s[k..], p)
    requires MatchEnd(s, p, n) == k + MatchEnd(s[k..], p, m)
    requires ReplaceN(s, p, r, n) == out + ReplaceN(s[k..], p, r, m)
    requires ReplaceAll(s[..MatchEnd(s, p, n)], p, r) == out + ReplaceAll(s[..MatchEnd(s, p, n)][k..], p, r)
    requires TailKept(s[k..], p, r, m)
    ensures TailKept(s, p, r, n)
  {
    var e := MatchEnd(s, p, n);
    var e' := MatchEnd(s[k..], p, m);
    var rest := s[k..];
    SliceShift(s, k, e');
    calc {
      ReplaceN(s, p, r, n);
      out + ReplaceN(rest, p, r, m);
      out + (ReplaceAll(rest[..e'], p, r) + rest[e'..]);
      { Regroup(out, ReplaceAll(rest[..e'], p, r), rest[e'..]); }
      (out + ReplaceAll(rest[..e'], p, r)) + rest[e'..];
      (out + ReplaceAll(s[..e][k..], p, r)) + s[e..];
      ReplaceAll(s[..e], p, r) + s[e..];
    }
  }

  /** Nothing is left to replace in an empty text, except an empty pattern. */
  lemma {:induction false} ReplaceAllOfEmpty(e: string, p: string, r: string)
    requires |e| == 0
    ensures ReplaceAll(e, p, r) == if |p| == 0 then r else []
  {
  }

  /** An empty text is neutral for concatenation. */
  lemma {:induction false} AppendEmpty(x: string, e: string)
    requires |e| == 0
    ensures x + e == x && e + x == x
  {
  }

  /** A limit of one and an empty pattern: `r` goes in front and nothing else changes. */
  lemma {:induction false} TailOfFirstEmpty(s: string, p: string, r: string)
    requires |p| == 0
    ensures ReplaceN(s, p, r, 1) == ReplaceAll(s[..|p|], p, r) + s[|p|..]
  {
    ReplaceAllOfEmpty(s[..|p|], p, r);
    assert s[|p|..] == s;
    if |s| == 0 {
      AppendEmpty(r, s);
    } else {
      ReplaceNEmpty(s, p, r, 1);
      SplitAt(s, 1);
      Regroup(r, [s[0]], s[1..]);
    }
  }

  /** A limit of one and a non-empty pattern at the start: only that occurrence is replaced. */
  lemma {:induction false} TailOfFirstMatch(s: string, p: string, r: string)
    requires |p| > 0 && StartsWith(s, p)
    ensures ReplaceN(s, p, r, 1) == ReplaceAll(s[..|p|], p, r) + s[|p|..]
  {
    var head := s[..|p|];
    HeadStartsWith(s, p);
    ReplaceNMatch(s, p, r, 1);
    ReplaceAllMatch(head, p, r);
    ReplaceAllOfEmpty(head[|p|..], p, r);
    AppendEmpty(r, head[|p|..]);
  }

  /** The case of a limit of one with an occurrence at the very start. */
  lemma {:induction false} TailOfFirst(s: string, p: string, r: string)
    requires StartsWith(s, p)
    ensures 1 <= Count(s, p) && TailKept(s, p, r, 1)
  {
    EndOfFirst(s, p);
    if |p| == 0 {
      TailOfFirstEmpty(s, p, r);
    } else {
      TailOfFirstMatch(s, p, r);
    }
  }

  /** The split carries over a position that starts no occurrence. */
  lemma {:induction false} TailSkip(s: string, p: string, r: string, n: nat)
    requires !StartsWith(s, p) && 1 <= n <= Count(s, p)
    requires |s| > 0 && n <= Count(s[1..], p)
    requires TailKept(s[1..], p, r, n)
    ensures TailKept(s, p, r, n)
  {
    MatchEndSkip(s, p, n);
    var e := MatchEnd(s, p, n);
    PrefixStart(s, p, e);
    ReplaceNSkip(s, p, r, n);
    ReplaceAllSkip(s[..e], p, r);
    TailStep(s, p, r, n, 1, n, [s[0]]);
  }

  /** The split carries over an empty-pattern match and the character after it. */
  lemma {:induction false} TailEmpty(s: string, p: string, r: string, n: nat)
    requires |p| == 0 && 2 <= n <= Count(s, p)
    requires |s| > 0 && n - 1 <= Count(s[1..], p)
    requires TailKept(s[1..], p, r, n - 1)
    ensures TailKept(s, p, r, n)
  {
    MatchEndEmpty(s, p, n);
    var e := MatchEnd(s, p, n);
    ReplaceNEmpty(s, p, r, n);
    ReplaceAllEmpty(s[..e], p, r);
    TailStep(s, p, r, n, 1, n - 1, r + [s[0]]);
  }

  /** The split carries over a non-empty occurrence at the start that is not the last one replaced. */
  lemma {:induction false} TailMatch(s: string, p: string, r: string, n: nat)
    requires |p| > 0 && StartsWith(s, p) && 2 <= n <= Count(s, p)
    requires n - 1 <= Count(s[|p|..], p)
    requires TailKept(s[|p|..], p, r, n - 1)
    ensures TailKept(s, p, r, n)
  {
    MatchEndMatch(s, p, n);
    var e := MatchEnd(s, p, n);
    PrefixStart(s, p, e);
    ReplaceNMatch(s, p, r, n);
    ReplaceAllMatch(s[..e], p, r);
    TailStep(s, p, r, n, |p|, n - 1, r);
  }

  /**
   * With a limit of `n` (1 <= n <= Count), the text up to the end of the
   * `n`-th occurrence is fully replaced and everything after it is copied
   * unchanged.
   */
  lemma {:induction false} TailAfterLastReplacedKept(s: string, p: string, r: string, n: nat)
    requires 1 <= n <= Count(s, p)
    ensures ReplaceN(s, p, r, n) == ReplaceAll(s[..MatchEnd(s, p, n)], p, r) + s[MatchEnd(s, p, n)..]
    decreases |s|
  {
    if !StartsWith(s, p) {
      MatchEndSkip(s, p, n);
      TailAfterLastReplacedKept(s[1..], p, r, n);
      TailSkip(s, p, r, n);
    } else if n == 1 {
      TailOfFirst(s, p, r);
    } else if |p| == 0 {
      MatchEndEmpty(s, p, n);
      TailAfterLastReplacedKept(s[1..], p, r, n - 1);
      TailEmpty(s, p, r, n);
    } else {
      MatchEndMatch(s, p, n);
      TailAfterLastReplacedKept(s[|p|..], p, r, n - 1);
      TailMatch(s, p, r, n);
    }
  }

  /** The empty pattern occurs at each of the |s| + 1 character boundaries. */
  lemma {:induction false} EmptyPatternCount(s: string)
    ensures Count(s, []) == |s| + 1
    decreases |s|
  {
    if |s| > 0 {
      EmptyPatternCount(s[1..]);
      CountEmpty(s, []);
    }
  }

  /**
   * With the empty pattern, `replace` puts `r` at every boundary: one
   * copy in front, and one after every character.
   */
  lemma {:induction false} EmptyPatternReplaceAll(s: string, c: char, r: string)
    ensures ReplaceAll([], [], r) == r
    ensures ReplaceAll(s + [c], [], r) == ReplaceAll(s, [], r) + [c] + r
    decreases |s|
  {
    ReplaceAllEmpty(s + [c], [], r);
    if |s| == 0 {
      assert (s + [c])[1..] == [];
    } else {
      EmptyPatternReplaceAll(s[1..], c, r);
      ReplaceAllEmpty(s, [], r);
      assert (s + [c])[1..] == s[1..] + [c];
    }
  }
}

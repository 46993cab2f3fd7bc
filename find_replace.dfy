/**
 * The literal (`-s`) replacement command of the `map` pipe filter: the
 * count argument is read first, and then every occurrence (count 0) or
 * the first N occurrences (count N > 0) of the old pattern are replaced.
 */
module FindReplace {
  import opened Wrappers
  import opened LiteralReplace
  import opened ReplaceProperties
  import opened CountArgument

  /** How many occurrences a count of `numFlag` replaces: all for 0, at most N otherwise. */
  function Replaced(input: string, oldPattern: string, numFlag: U32): (k: nat)
    ensures k <= Count(input, oldPattern)
    ensures numFlag > 0 ==> k <= numFlag
    ensures 0 < numFlag <= Count(input, oldPattern) ==> k == numFlag
    ensures numFlag == 0 || numFlag >= Count(input, oldPattern) ==> k == Count(input, oldPattern)
  {
    if numFlag == 0 then Count(input, oldPattern) else Min(numFlag, Count(input, oldPattern))
  }

  /** `find_replace`: `str::replace` for a count of 0, `str::replacen` otherwise. */
  function FindReplaceLiteral(input: string, oldPattern: string, newPattern: string, numFlag: U32): (output: string)
    ensures |output| == |input| + Replaced(input, oldPattern, numFlag) * (|newPattern| - |oldPattern|)
    ensures numFlag == 0 ==> output == ReplaceAll(input, oldPattern, newPattern)
    ensures numFlag >= Count(input, oldPattern) ==> output == ReplaceAll(input, oldPattern, newPattern)
    ensures NoMatch(input, oldPattern) ==> output == input
    ensures newPattern == oldPattern ==> output == input
  {
    if numFlag == 0 then
      LengthReplaceAll(input, oldPattern, newPattern);
      SelfReplacementAll(input, oldPattern);
      NoMatchAnyLimit(input, oldPattern, newPattern, 0);
      ReplaceAll(input, oldPattern, newPattern)
    else
      LengthReplaceN(input, oldPattern, newPattern, numFlag);
      SelfReplacementN(input, oldPattern, numFlag);
      NoMatchAnyLimit(input, oldPattern, newPattern, numFlag);
      LargeLimitAnyInput(input, oldPattern, newPattern, numFlag);
      ReplaceN(input, oldPattern, newPattern, numFlag)
  }

  /** Without an occurrence, either replacement returns the input. */
  lemma {:induction false} NoMatchAnyLimit(input: string, oldPattern: string, newPattern: string, n: nat)
    ensures NoMatch(input, oldPattern) ==>
      ReplaceN(input, oldPattern, newPattern, n) == input && ReplaceAll(input, oldPattern, newPattern) == input
  {
    if NoMatch(input, oldPattern) {
      NoMatchUnchanged(input, oldPattern, newPattern, n);
    }
  }

  /** A limit covering every occurrence makes `replacen` equal to `replace`. */
  lemma {:induction false} LargeLimitAnyInput(input: string, oldPattern: string, newPattern: string, n: nat)
    ensures n >= Count(input, oldPattern) ==>
      ReplaceN(input, oldPattern, newPattern, n) == ReplaceAll(input, oldPattern, newPattern)
  {
    if n >= Count(input, oldPattern) {
      LimitCoveringAllIsReplaceAll(input, oldPattern, newPattern, n);
    }
  }

  /** A count of at least the number of occurrences behaves as a count of 0. */
  lemma {:induction false} LargeCountIsReplaceAll(input: string, oldPattern: string, newPattern: string, numFlag: U32)
    requires numFlag >= Count(input, oldPattern)
    ensures FindReplaceLiteral(input, oldPattern, newPattern, numFlag)
         == FindReplaceLiteral(input, oldPattern, newPattern, 0)
  {
  }

  /**
   * A count N > 0 replaces the text up to the end of the N-th occurrence
   * as `replace` would and copies everything after it unchanged.
   */
  lemma {:induction false} TailAfterNthKept(input: string, oldPattern: string, newPattern: string, numFlag: U32)
    requires 0 < numFlag <= Count(input, oldPattern)
    ensures FindReplaceLiteral(input, oldPattern, newPattern, numFlag)
         == ReplaceAll(input[..MatchEnd(input, oldPattern, numFlag)], oldPattern, newPattern)
            + input[MatchEnd(input, oldPattern, numFlag)..]
  {
    TailAfterLastReplacedKept(input, oldPattern, newPattern, numFlag);
  }

  /**
   * What `Replaced` counts, for every count: with no replacement the input
   * is returned; otherwise, for k = `Replaced(...)`, the input up to the end
   * of its k-th occurrence holds exactly k occurrences, it is replaced as
   * `replace` would, and everything after it is copied unchanged.
   */
  lemma {:induction false} ReplacedSplitsOutput(input: string, oldPattern: string, newPattern: string, numFlag: U32)
    ensures Replaced(input, oldPattern, numFlag) == 0 ==>
      FindReplaceLiteral(input, oldPattern, newPattern, numFlag) == input
    ensures Replaced(input, oldPattern, numFlag) >= 1 ==>
      Count(input[..MatchEnd(input, oldPattern, Replaced(input, oldPattern, numFlag))], oldPattern)
        == Replaced(input, oldPattern, numFlag)
    ensures Replaced(input, oldPattern, numFlag) >= 1 ==>
      FindReplaceLiteral(input, oldPattern, newPattern, numFlag)
        == ReplaceAll(input[..MatchEnd(input, oldPattern, Replaced(input, oldPattern, numFlag))], oldPattern, newPattern)
           + input[MatchEnd(input, oldPattern, Replaced(input, oldPattern, numFlag))..]
  {
    var k := Replaced(input, oldPattern, numFlag);
    if k == 0 {
      CountZeroIffNoMatch(input, oldPattern);
    } else {
      CountUpToMatchEnd(input, oldPattern, k);
      TailAfterLastReplacedKept(input, oldPattern, newPattern, k);
      if numFlag == 0 || numFlag > Count(input, oldPattern) {
        LimitCoveringAllIsReplaceAll(input, oldPattern, newPattern, k);
      }
    }
  }

  /** The text before the leftmost occurrence is a prefix of the output, for any count. */
  lemma {:induction false} PrefixBeforeFirstMatchKept(input: string, oldPattern: string, newPattern: string, numFlag: U32, i: nat)
    requires IsFirstMatch(input, oldPattern, i)
    ensures input[..i] <= FindReplaceLiteral(input, oldPattern, newPattern, numFlag)
  {
    SkipUnmatched(input, oldPattern, newPattern, numFlag, i);
  }

  /**
   * The literal branch of the program: the count is parsed before any
   * replacement, and None stands for the exit with status 1 that an
   * unparsable count causes.
   */
  function RunLiteral(input: string, oldPattern: string, newPattern: string, numArg: Option<string>): (r: Option<string>)
    ensures r.None? <==> numArg.Some? && ParseU32(numArg.value).None?
    ensures numArg.None? ==> r == Some(ReplaceAll(input, oldPattern, newPattern))
    ensures numArg.Some? && |numArg.value| > 0 && numArg.value[0] == '-' ==> r.None?
    ensures forall n: nat {:trigger Decimal(n)} :: numArg == Some(Decimal(n)) ==>
      r == if n < U32Limit then Some(FindReplaceLiteral(input, oldPattern, newPattern, n)) else None
    ensures forall z: nat, n: nat {:trigger Zeros(z), Decimal(n)} ::
      numArg == Some(Zeros(z) + Decimal(n)) || numArg == Some(['+'] + Zeros(z) + Decimal(n)) ==>
      r == if n < U32Limit then Some(FindReplaceLiteral(input, oldPattern, newPattern, n)) else None
  {
    forall n: nat {:trigger Decimal(n)} | numArg == Some(Decimal(n))
      ensures ParseCount(numArg) == if n < U32Limit then Some(n) else None
    {
      ParseDecimal(n);
    }
    forall z: nat, n: nat {:trigger Zeros(z), Decimal(n)}
      | numArg == Some(Zeros(z) + Decimal(n)) || numArg == Some(['+'] + Zeros(z) + Decimal(n))
      ensures ParseCount(numArg) == if n < U32Limit then Some(n) else None
    {
      ParseZerosDecimal(z, n);
    }
    match ParseCount(numArg)
    case None => None
    case Some(numFlag) => Some(FindReplaceLiteral(input, oldPattern, newPattern, numFlag))
  }
}

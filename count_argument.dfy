/**
 * The `-n/--num` argument: an unsigned 32-bit count, read the way Rust's
 * `u32::from_str` reads it (an optional leading '+', then one or more
 * ASCII decimal digits, with a value below 2^32).
 */
module CountArgument {
  import opened Wrappers

  const U32Limit: nat := 0x1_0000_0000

  /** The values of Rust's `u32`. */
  type U32 = x: nat | x < U32Limit

  predicate IsDigit(c: char)
  {
    '0' <= c <= '9'
  }

  predicate AllDigits(s: string)
  {
    forall i :: 0 <= i < |s| ==> IsDigit(s[i])
  }

  function DigitChar(d: nat): (c: char)
    requires d < 10
    ensures IsDigit(c) && c as int - '0' as int == d
  {
    ('0' as int + d) as char
  }

  /** The value of a string of decimal digits, most significant first. */
  function DigitsValue(ds: string): nat
    requires AllDigits(ds)
    decreases |ds|
  {
    if ds == [] then 0
    else 10 * DigitsValue(ds[..|ds| - 1]) + (ds[|ds| - 1] as int - '0' as int)
  }

  /** The shortest decimal spelling of `n`. */
  function Decimal(n: nat): (s: string)
    ensures s != [] && AllDigits(s)
    decreases n
  {
    if n < 10 then [DigitChar(n)] else Decimal(n / 10) + [DigitChar(n % 10)]
  }

  /** `k` zero digits. */
  function Zeros(k: nat): (s: string)
    ensures |s| == k && AllDigits(s)
  {
    seq(k, _ => '0')
  }

  /** What follows an optional leading '+'. */
  function Unsigned(s: string): (t: string)
    ensures |t| <= |s|
  {
    if |s| > 0 && s[0] == '+' then s[1..] else s
  }

  /**
   * `u32::from_str`: None for the empty string, a lone sign, any character
   * that is not an ASCII digit (a '-' included) and any value of 2^32 or more.
   */
  function ParseU32(s: string): (r: Option<U32>)
    ensures r.Some? ==> 0 < |Unsigned(s)| && AllDigits(Unsigned(s))
    ensures |s| > 0 && s[0] == '-' ==> r.None?
    ensures s == [] || s == ['+'] ==> r.None?
  {
    var ds := Unsigned(s);
    if ds == [] || !AllDigits(ds) then None
    else
      var v := DigitsValue(ds);
      if v < U32Limit then Some(v) else None
  }

  /**
   * The count in effect: 0 when the option is absent, the parsed value
   * when it is given, and None when it is given but does not parse.
   */
  function ParseCount(arg: Option<string>): (r: Option<U32>)
    ensures arg.None? ==> r == Some(0)
    ensures arg.Some? && |arg.value| > 0 && arg.value[0] == '-' ==> r.None?
  {
    match arg
    case None => Some(0)
    case Some(a) => ParseU32(a)
  }

  /** Appending a digit multiplies the value by ten and adds the digit. */
  lemma {:induction false} DigitsValueSnoc(ds: string, c: char)
    requires AllDigits(ds) && IsDigit(c)
    ensures AllDigits(ds + [c])
    ensures DigitsValue(ds + [c]) == 10 * DigitsValue(ds) + (c as int - '0' as int)
  {
    assert (ds + [c])[..|ds|] == ds;
  }

  /** Reading back the decimal spelling of `n` gives `n`. */
  lemma {:induction false} DecimalValue(n: nat)
    ensures DigitsValue(Decimal(n)) == n
    decreases n
  {
    if n < 10 {
      assert Decimal(n)[..0] == [];
    } else {
      DecimalValue(n / 10);
      DigitsValueSnoc(Decimal(n / 10), DigitChar(n % 10));
    }
  }

  /** Leading zeros add nothing to the value. */
  lemma {:induction false} LeadingZerosValue(k: nat, ds: string)
    requires AllDigits(ds)
    ensures AllDigits(Zeros(k) + ds)
    ensures DigitsValue(Zeros(k) + ds) == DigitsValue(ds)
    decreases |ds|
  {
    if ds == [] {
      ZerosValue(k);
      assert Zeros(k) + ds == Zeros(k);
    } else {
      var init := ds[..|ds| - 1];
      LeadingZerosValue(k, init);
      assert Zeros(k) + ds == (Zeros(k) + init) + [ds[|ds| - 1]];
      DigitsValueSnoc(Zeros(k) + init, ds[|ds| - 1]);
    }
  }

  /** A run of zeros has value 0. */
  lemma {:induction false} ZerosValue(k: nat)
    ensures DigitsValue(Zeros(k)) == 0
    decreases k
  {
    if k > 0 {
      ZerosValue(k - 1);
      assert Zeros(k)[..k - 1] == Zeros(k - 1);
    }
  }

  /** A digit string of value 0 is all zeros. */
  lemma {:induction false} ValueZeroIsZeros(ds: string)
    requires AllDigits(ds) && DigitsValue(ds) == 0
    ensures ds == Zeros(|ds|)
    decreases |ds|
  {
    if ds != [] {
      ValueZeroIsZeros(ds[..|ds| - 1]);
      assert ds == ds[..|ds| - 1] + [ds[|ds| - 1]];
    }
  }

  /**
   * Every non-empty digit string is the decimal spelling of its value
   * behind some leading zeros.
   */
  lemma {:induction false} DigitsAreZerosThenDecimal(ds: string)
    requires ds != [] && AllDigits(ds)
    ensures |Decimal(DigitsValue(ds))| <= |ds|
    ensures ds == Zeros(|ds| - |Decimal(DigitsValue(ds))|) + Decimal(DigitsValue(ds))
    decreases |ds|
  {
    var init, c := ds[..|ds| - 1], ds[|ds| - 1];
    assert ds == init + [c];
    var d := c as int - '0' as int;
    var v0 := DigitsValue(init);
    var v := DigitsValue(ds);
    assert v == 10 * v0 + d;
    assert DigitChar(d) == c;
    if v0 == 0 {
      ValueZeroIsZeros(init);
      assert Decimal(v) == [c];
    } else {
      DigitsAreZerosThenDecimal(init);
      assert v / 10 == v0 && v % 10 == d;
      assert Decimal(v) == Decimal(v0) + [c];
      var k := |init| - |Decimal(v0)|;
      assert ds == Zeros(k) + Decimal(v0) + [c];
    }
  }

  /** The decimal spelling of a count, with or without '+', parses back to it. */
  lemma {:induction false} ParseDecimal(n: nat)
    ensures ParseU32(Decimal(n)) == (if n < U32Limit then Some(n) else None)
    ensures ParseU32(['+'] + Decimal(n)) == (if n < U32Limit then Some(n) else None)
  {
    DecimalValue(n);
    assert Unsigned(['+'] + Decimal(n)) == Decimal(n);
    assert Decimal(n)[0] != '+' by {
      assert IsDigit(Decimal(n)[0]);
    }
  }

  /**
   * Leading zeros are accepted and change nothing: zeros followed by the
   * decimal spelling of `n`, with or without '+', parse to `n` when
   * `n` < 2^32 and are rejected otherwise.
   */
  lemma {:induction false} ParseZerosDecimal(k: nat, n: nat)
    ensures ParseU32(Zeros(k) + Decimal(n)) == (if n < U32Limit then Some(n) else None)
    ensures ParseU32(['+'] + Zeros(k) + Decimal(n)) == (if n < U32Limit then Some(n) else None)
  {
    var ds := Zeros(k) + Decimal(n);
    DecimalValue(n);
    LeadingZerosValue(k, Decimal(n));
    assert ds[0] != '+' by {
      assert IsDigit(ds[0]);
    }
    assert ['+'] + Zeros(k) + Decimal(n) == ['+'] + ds;
    assert Unsigned(['+'] + ds) == ds;
  }

  /**
   * Every accepted argument is the decimal spelling of the count it gives,
   * possibly after a '+' and leading zeros.
   */
  lemma {:induction false} AcceptedIsDecimal(s: string)
    requires ParseU32(s).Some?
    ensures exists k: nat :: Unsigned(s) == Zeros(k) + Decimal(ParseU32(s).value)
  {
    var ds := Unsigned(s);
    DigitsAreZerosThenDecimal(ds);
    var k := |ds| - |Decimal(DigitsValue(ds))|;
    assert Unsigned(s) == Zeros(k) + Decimal(ParseU32(s).value);
  }
}

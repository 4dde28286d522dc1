/**
  Concrete cases from the repository's tests, stated on the model. Decimal
  literals are written as (exponent, mantissa, accuracy) triples, the form
  the string constructor gives them, e.g. "3124.3312" is (-4, 31243312, 100).
 */
module Examples {
  import opened Wrappers
  import opened BigInteger
  import opened DecimalText
  import opened Representation
  import opened Comparison
  import opened Additive
  import opened Multiplicative
  import opened Formatting

  const A: nat := DefaultAccuracy

  // ---------------------------------------------------------------------
  // Construction and printing
  // ---------------------------------------------------------------------

  /** Integers: 1234 keeps exponent 0 and prints as "1234*e^(0)". */
  lemma IntegerConstruction()
    ensures FromInt(1234) == BigFloat(0, 1234, A)
    ensures PrettyString(FromInt(1234)) == "1234*e^(0)"
  {
    TextsIntegerConstruction();
    Kept(1234, 0, 123, 4);
    Spells1234();
    PrintsAs(BigFloat(0, 1234, A), "1234", "0", "1234*e^(0)");
  }

  /** 1234000000 folds six zeros into the exponent and prints as "1234*e^(6)". */
  lemma IntegerTrailingZeros()
    ensures FromInt(1234000000) == BigFloat(6, 1234, A)
    ensures PrettyString(FromInt(1234000000)) == "1234*e^(6)"
  {
    TextsIntegerTrailingZeros();
    Pow10Six();
    StripScaled(1234, 6, 1000000, 1234000000, 0);
    Kept(1234, 6, 123, 4);
    Spells1234();
    PrintsAs(BigFloat(6, 1234, A), "1234", "6", "1234*e^(6)");
  }

  /** Negative integers keep their sign: -1234 and -1234000000. */
  lemma NegativeIntegers()
    ensures FromInt(-1234) == BigFloat(0, -1234, A)
    ensures FromInt(-1234000000) == BigFloat(6, -1234, A)
  {
    Kept(-1234, 0, -123, -4);
    Pow10Six();
    StripScaled(-1234, 6, 1000000, -1234000000, 0);
    Kept(-1234, 6, -123, -4);
  }

  /** "124.2134" reads as (-4, 1242134). */
  lemma ReadDecimal()
    ensures FromString("124.2134", A) == Ok(BigFloat(-4, 1242134, A))
  {
    Spells1242134();
    DigitsAs("124", "2134", "", "1242134", 1242134);
    Kept(1242134, -4, 124213, 4);
    TruncateDone(1242134, -4, A);
    ReadsAs("124.2134", false, "124", "2134", 1242134, A, (1242134, -4), (1242134, -4));
  }

  /** "-124.2134" reads as (-4, -1242134). */
  lemma ReadNegativeDecimal()
    ensures FromString("-124.2134", A) == Ok(BigFloat(-4, -1242134, A))
  {
    Spells1242134();
    DigitsAs("124", "2134", "", "1242134", 1242134);
    Kept(-1242134, -4, -124213, -4);
    TruncateDone(-1242134, -4, A);
    ReadsAs("-124.2134", true, "124", "2134", 1242134, A, (-1242134, -4), (-1242134, -4));
  }

  /** (-4, 1242134) prints as "1242134*e^(-4)" and (-4, -1242134) as "-1242134*e^(-4)". */
  lemma PrintDecimals()
    ensures PrettyString(BigFloat(-4, 1242134, A)) == "1242134*e^(-4)"
    ensures PrettyString(BigFloat(-4, -1242134, A)) == "-1242134*e^(-4)"
  {
    TextsPrintDecimals();
    Spells1242134();
    PrintsAs(BigFloat(-4, 1242134, A), "1242134", "4", "1242134*e^(-4)");
    PrintsAs(BigFloat(-4, -1242134, A), "1242134", "4", "-1242134*e^(-4)");
  }

  /** Leading zeros are harmless: "00000.00124" reads as (-5, 124). */
  lemma ReadLeadingZeros()
    ensures FromString("00000.00124", A) == Ok(BigFloat(-5, 124, A))
  {
    Spells124();
    DigitsAs("00000", "00124", "0000000", "124", 124);
    Kept(124, -5, 12, 4);
    TruncateDone(124, -5, A);
    ReadsAs("00000.00124", false, "00000", "00124", 124, A, (124, -5), (124, -5));
  }

  /** "-0.00124" reads as (-5, -124). */
  lemma ReadNegativeFraction()
    ensures FromString("-0.00124", A) == Ok(BigFloat(-5, -124, A))
  {
    Spells124();
    DigitsAs("0", "00124", "000", "124", 124);
    Kept(-124, -5, -12, -4);
    TruncateDone(-124, -5, A);
    ReadsAs("-0.00124", true, "0", "00124", 124, A, (-124, -5), (-124, -5));
  }

  /** Truncation toward zero: "-0.00124" at accuracy 2 is zero, (0, 0). */
  lemma ReadBelowAccuracy()
    ensures FromString("-0.00124", 2) == Ok(BigFloat(0, 0, 2))
  {
    Spells124();
    DigitsAs("0", "00124", "000", "124", 124);
    Kept(-124, -5, -12, -4);
    TruncateToZero();
    ReadsAs("-0.00124", true, "0", "00124", 124, 2, (-124, -5), (0, -2));
  }

  /** "-0.1241124" at accuracy 3 is cut to (-3, -124). */
  lemma ReadTruncated()
    ensures FromString("-0.1241124", 3) == Ok(BigFloat(-3, -124, 3))
  {
    Digits1241124();
    Kept(-1241124, -7, -124112, -4);
    TruncateSevenDigits();
    ReadsAs("-0.1241124", true, "0", "1241124", 1241124, 3, (-1241124, -7), (-124, -3));
  }

  /** "20000.0" becomes (4, 2). */
  lemma ReadTrailingZeros()
    ensures FromString("20000.0", A) == Ok(BigFloat(4, 2, A))
  {
    Digits200000();
    Strip200000();
    TruncateDone(2, 4, A);
    ReadsAs("20000.0", false, "20000", "0", 200000, A, (2, 4), (2, 4));
  }

  /** "20000", without a point, also becomes (4, 2). */
  lemma ReadWholeTrailingZeros()
    ensures FromString("20000", A) == Ok(BigFloat(4, 2, A))
  {
    Spells20000();
    Pow10Four();
    StripScaled(2, 4, 10000, 20000, 0);
    Kept(2, 4, 0, 2);
    ReadsWholeAs("20000", A, BigFloat(4, 2, A));
  }

  /** -1234 and -1234000000 print with their sign. */
  lemma PrintNegativeIntegers()
    ensures PrettyString(BigFloat(0, -1234, A)) == "-1234*e^(0)"
    ensures PrettyString(BigFloat(6, -1234, A)) == "-1234*e^(6)"
  {
    TextsPrintNegativeIntegers();
    Spells1234();
    PrintsAs(BigFloat(0, -1234, A), "1234", "0", "-1234*e^(0)");
    PrintsAs(BigFloat(6, -1234, A), "1234", "6", "-1234*e^(6)");
  }

  /** The values read from "00000.00124", "-0.00124" and "-0.1241124" print as in the source's tests. */
  lemma PrintFractions()
    ensures PrettyString(BigFloat(-5, 124, A)) == "124*e^(-5)"
    ensures PrettyString(BigFloat(-5, -124, A)) == "-124*e^(-5)"
    ensures PrettyString(BigFloat(-3, -124, 3)) == "-124*e^(-3)"
  {
    TextsPrintFractions();
    Spells124();
    PrintsAs(BigFloat(-5, 124, A), "124", "5", "124*e^(-5)");
    PrintsAs(BigFloat(-5, -124, A), "124", "5", "-124*e^(-5)");
    PrintsAs(BigFloat(-3, -124, 3), "124", "3", "-124*e^(-3)");
  }

  /** Zero prints as "0*e^(0)" and (4, 2) as "2*e^(4)". */
  lemma PrintZeroAndScaled()
    ensures PrettyString(BigFloat(0, 0, 2)) == "0*e^(0)"
    ensures PrettyString(BigFloat(4, 2, A)) == "2*e^(4)"
  {
    TextsPrintZeroAndScaled();
    PrintsAs(BigFloat(0, 0, 2), "0", "0", "0*e^(0)");
    PrintsAs(BigFloat(4, 2, A), "2", "4", "2*e^(4)");
  }

  /**
    The string constructor on a numeral with a point, in the form the
    concrete cases need: the digits, what stripping leaves of them and what
    truncation leaves of that.
   */
  lemma ReadsAs(s: string, negative: bool, ip: string, fp: string, digits: nat, accuracy: nat,
                stripped: (int, int), cut: (int, int))
    requires s == (if negative then "-" else "") + ip + "." + fp
    requires |ip| > 0 && |fp| > 0 && IsDigits(ip + fp) && DigitsValue(ip + fp) == digits
    requires Strip((if negative then -1 else 1) * digits, Floor(|fp|)) == stripped
    requires Truncate(stripped.0, stripped.1, accuracy) == cut
    ensures FromString(s, accuracy) == Ok(BigFloat(if cut.0 == 0 then 0 else cut.1, cut.0, accuracy))
  {
    assert IsDigits(ip) by {
      forall i | 0 <= i < |ip| ensures IsDigit(ip[i]) { assert ip[i] == (ip + fp)[i]; }
    }
    assert IsDigits(fp) by {
      forall i | 0 <= i < |fp| ensures IsDigit(fp[i]) { assert fp[i] == (ip + fp)[|ip| + i]; }
    }
    FromStringOfNumeral(negative, ip, fp, accuracy);
    NormalOf(BigFloat(Floor(|fp|), (if negative then -1 else 1) * digits, accuracy), stripped, cut);
  }

  /** The string constructor on a numeral of digits alone. */
  lemma ReadsWholeAs(s: string, accuracy: nat, v: BigFloat)
    requires IsDigits(s)
    requires Normal(BigFloat(0, DigitsValue(s), accuracy)) == v
    ensures FromString(s, accuracy) == Ok(v)
  {
    FromStringOfWhole(false, s, accuracy);
    assert "" + s == s;
  }

  /** `toPrettyString` once the two integers' texts are known. */
  lemma PrintsAs(v: BigFloat, md: string, ed: string, t: string)
    requires NatToString(Abs(v.mantissa)) == md && NatToString(Abs(v.exponent)) == ed
    requires t == Signed(v.mantissa, md) + "*e^(" + Signed(v.exponent, ed) + ")"
    ensures PrettyString(v) == t
  {
    IntText(v.mantissa, md, Signed(v.mantissa, md));
    IntText(v.exponent, ed, Signed(v.exponent, ed));
  }

  function Signed(n: int, d: string): string
  {
    if n < 0 then "-" + d else d
  }

  /** The printed texts of the examples, assembled from sign, digits and frame. */
  lemma TextsIntegerConstruction()
    ensures Signed(1234, "1234") + "*e^(" + Signed(0, "0") + ")" == "1234*e^(0)"
  {}

  lemma TextsIntegerTrailingZeros()
    ensures Signed(1234, "1234") + "*e^(" + Signed(6, "6") + ")" == "1234*e^(6)"
  {}

  lemma TextsPrintNegativeIntegers()
    ensures Signed(-1234, "1234") + "*e^(" + Signed(0, "0") + ")" == "-1234*e^(0)"
    ensures Signed(-1234, "1234") + "*e^(" + Signed(6, "6") + ")" == "-1234*e^(6)"
  {}

  lemma TextsPrintFractions()
    ensures Signed(124, "124") + "*e^(" + Signed(-5, "5") + ")" == "124*e^(-5)"
    ensures Signed(-124, "124") + "*e^(" + Signed(-5, "5") + ")" == "-124*e^(-5)"
    ensures Signed(-124, "124") + "*e^(" + Signed(-3, "3") + ")" == "-124*e^(-3)"
  {}

  lemma TextsPrintZeroAndScaled()
    ensures Signed(0, "0") + "*e^(" + Signed(0, "0") + ")" == "0*e^(0)"
    ensures Signed(2, "2") + "*e^(" + Signed(4, "4") + ")" == "2*e^(4)"
  {}

  lemma TextsPrintDecimals()
    ensures Signed(1242134, "1242134") + "*e^(" + Signed(-4, "4") + ")" == "1242134*e^(-4)"
    ensures Signed(-1242134, "1242134") + "*e^(" + Signed(-4, "4") + ")" == "-1242134*e^(-4)"
  {}

  /** The text of an integer from the text of its magnitude. */
  lemma IntText(n: int, d: string, t: string)
    requires NatToString(Abs(n)) == d && t == (if n < 0 then "-" + d else d)
    ensures IntToString(n) == t
  {}

  /** Stripping a multiple of a power of ten. */
  lemma StripScaled(m: int, k: nat, p: int, n: int, e: int)
    requires m != 0 && p == Pow10(k) && n == m * p
    ensures Strip(n, e) == Strip(m, e + k)
  {
    StripTrailingZeros(m, e, k);
  }

  lemma Pow10Four()
    ensures Pow10(4) == 10000
  {
    assert Pow10(2) == 100;
  }

  lemma Pow10Five()
    ensures Pow10(5) == 100000
  {
    Pow10Four();
    Pow10Step(5);
  }

  lemma Pow10Six()
    ensures Pow10(6) == 1000000
  {
    Pow10Five();
    Pow10Step(6);
  }

  lemma Pow10Twelve()
    ensures Pow10(12) == 1000000000000
  {
    Pow10Six();
    Pow10Add(6, 6);
  }

  /** Appending the last digit of n to the digits of n / 10 spells n. */
  lemma NatStep(n: nat, s: string, t: string)
    requires n >= 10 && NatToString(n / 10) == s && t == s + [DigitChar(n % 10)]
    ensures NatToString(n) == t
  {}

  lemma Spells124()
    ensures NatToString(124) == "124"
  {
    assert NatToString(1) == "1";
    NatStep(12, "1", "12");
    NatStep(124, "12", "124");
  }

  lemma Spells1234()
    ensures NatToString(1234) == "1234"
  {
    assert NatToString(1) == "1";
    NatStep(12, "1", "12");
    NatStep(123, "12", "123");
    NatStep(1234, "123", "1234");
  }

  lemma Spells1242134()
    ensures NatToString(1242134) == "1242134"
  {
    Spells124();
    NatStep(1242, "124", "1242");
    NatStep(12421, "1242", "12421");
    NatStep(124213, "12421", "124213");
    NatStep(1242134, "124213", "1242134");
  }

  lemma Spells1241124()
    ensures NatToString(1241124) == "1241124"
  {
    Spells124();
    NatStep(1241, "124", "1241");
    NatStep(12411, "1241", "12411");
    NatStep(124112, "12411", "124112");
    NatStep(1241124, "124112", "1241124");
  }

  lemma Spells20000()
    ensures NatToString(20000) == "20000"
  {
    assert NatToString(2) == "2";
    NatStep(20, "2", "20");
    NatStep(200, "20", "200");
    NatStep(2000, "200", "2000");
    NatStep(20000, "2000", "20000");
  }

  lemma Spells200000()
    ensures NatToString(200000) == "200000"
  {
    Spells20000();
    NatStep(200000, "20000", "200000");
  }

  lemma Digits1241124()
    ensures IsDigits("0" + "1241124") && DigitsValue("0" + "1241124") == 1241124
  {
    Spells1241124();
    DigitsAs("0", "1241124", "0", "1241124", 1241124);
  }

  lemma Digits200000()
    ensures IsDigits("20000" + "0") && DigitsValue("20000" + "0") == 200000
  {
    Spells200000();
    DigitsAs("20000", "0", "", "200000", 200000);
  }

  lemma Strip200000()
    ensures Strip(200000, -1) == (2, 4)
  {
    Pow10Five();
    StripScaled(2, 5, 100000, 200000, -1);
    Kept(2, 4, 0, 2);
  }

  /** The digits ip + fp are the zeros z followed by the digits t of n. */
  lemma DigitsAs(ip: string, fp: string, z: string, t: string, n: nat)
    requires forall i :: 0 <= i < |z| ==> z[i] == '0'
    requires ip + fp == z + t && NatToString(n) == t
    ensures IsDigits(ip + fp) && DigitsValue(ip + fp) == n
  {
    ZerosThenDigits(z, t);
  }

  lemma ZerosThenDigits(z: string, s: string)
    requires forall i :: 0 <= i < |z| ==> z[i] == '0'
    requires IsDigits(s)
    ensures IsDigits(z + s) && DigitsValue(z + s) == DigitsValue(s)
  {
    AllZeros(z);
    DigitsValueAppend(z, s);
  }

  lemma {:induction false} AllZeros(z: string)
    requires forall i :: 0 <= i < |z| ==> z[i] == '0'
    ensures forall i :: 0 <= i < |z| ==> IsDigit(z[i])
    ensures DigitsValue(z) == 0
  {
    if |z| > 0 {
      AllZeros(z[..|z| - 1]);
    }
  }

  lemma TruncateToZero()
    ensures Truncate(-124, -5, 2) == (0, -2)
  {
    Cut(-124, -5, 2, -12, -4);
    Cut(-12, -4, 2, -1, -2);
    Cut(-1, -3, 2, 0, -1);
    TruncateDone(0, -2, 2);
  }

  lemma TruncateSevenDigits()
    ensures Truncate(-1241124, -7, 3) == (-124, -3)
  {
    Cut(-1241124, -7, 3, -124112, -4);
    Cut(-124112, -6, 3, -12411, -2);
    Cut(-12411, -5, 3, -1241, -1);
    Cut(-1241, -4, 3, -124, -1);
    TruncateDone(-124, -3, 3);
  }

  /** Stripping stops at a mantissa whose last digit d is not zero (negative m: d < 0). */
  lemma Kept(m: int, e: int, q: int, d: int)
    requires m == q * 10 + d && d != 0
    requires m >= 0 ==> 0 <= d < 10
    requires m < 0 ==> -10 < d <= 0
    ensures Strip(m, e) == (m, e)
  {
    DivRemOf(m, 10, q, d);
    StripDone(m, e);
  }

  /** Stripping drops a trailing zero of a non-zero mantissa m = 10 * q. */
  lemma Dropped(m: int, e: int, q: int)
    requires m == q * 10 && q != 0
    ensures Strip(m, e) == Strip(q, e + 1)
  {
    DivRemOf(m, 10, q, 0);
    StripStep(m, e);
  }

  /** One step of truncation drops the last digit d of m (negative m: d <= 0). */
  lemma Cut(m: int, e: int, accuracy: nat, q: int, d: int)
    requires e < Floor(accuracy) && m == q * 10 + d
    requires m >= 0 ==> 0 <= d < 10
    requires m < 0 ==> -10 < d <= 0
    ensures Truncate(m, e, accuracy) == Truncate(q, e + 1, accuracy)
  {
    DivRemOf(m, 10, q, d);
    TruncateStep(m, e, (q, d), accuracy);
  }

  // ---------------------------------------------------------------------
  // Comparison
  // ---------------------------------------------------------------------

  /** 0.312 against 0.32141: the strict operators. */
  lemma CompareFractions()
    ensures var a, b := BigFloat(-3, 312, A), BigFloat(-5, 32141, A);
      Less(a, b) && !Less(b, a) && Greater(b, a) && !Greater(a, b)
  {
    assert Comparison.Comparison(BigFloat(-5, 32141, A), BigFloat(-3, 312, A)) == 1 by {
      assert Scaled(BigFloat(-3, 312, A), -5) == 31200;
    }
    assert Comparison.Comparison(BigFloat(-3, 312, A), BigFloat(-5, 32141, A)) == -1;
  }

  /** 0.312 against 0.32141: equality and the non-strict operators. */
  lemma CompareFractionsInclusive()
    ensures var a, b := BigFloat(-3, 312, A), BigFloat(-5, 32141, A);
      LessEq(a, b) && !LessEq(b, a) && GreaterEq(b, a) && !GreaterEq(a, b)
      && Eq(a, a) && NotEq(a, b) && !Less(a, a) && LessEq(a, a) && GreaterEq(b, b)
  {
    assert Comparison.Comparison(BigFloat(-5, 32141, A), BigFloat(-3, 312, A)) == 1 by {
      assert Scaled(BigFloat(-3, 312, A), -5) == 31200;
    }
    assert Comparison.Comparison(BigFloat(-3, 312, A), BigFloat(-5, 32141, A)) == -1;
  }

  /** -452.41 against 0.415. */
  lemma CompareNegativeWithPositive()
    ensures var a, b := BigFloat(-2, -45241, A), BigFloat(-3, 415, A);
      Less(a, b) && !Less(b, a) && Greater(b, a) && LessEq(a, b) && !GreaterEq(a, b)
  {
    assert Comparison.Comparison(BigFloat(-3, 415, A), BigFloat(-2, -45241, A)) == 1 by {
      assert Scaled(BigFloat(-2, -45241, A), -3) == -452410;
    }
  }

  /** -452.41 against -0.415. */
  lemma CompareNegatives()
    ensures var a, b := BigFloat(-2, -45241, A), BigFloat(-3, -415, A);
      Less(a, b) && !Less(b, a) && Greater(b, a) && LessEq(a, b) && !GreaterEq(a, b)
  {
    assert Comparison.Comparison(BigFloat(-3, -415, A), BigFloat(-2, -45241, A)) == 1 by {
      assert Scaled(BigFloat(-2, -45241, A), -3) == -452410;
    }
  }

  /**
    The comparison tests do not reach the mis-ordering of `compareTo` as
    written: on each of their pairs, in both orders, the code's verdict is
    already the numeric one.
   */
  lemma CompareTestsMissTheDefect()
    ensures ComparisonAsWritten(BigFloat(-3, 312, A), BigFloat(-5, 32141, A))
         == Comparison.Comparison(BigFloat(-3, 312, A), BigFloat(-5, 32141, A)) == -1
    ensures ComparisonAsWritten(BigFloat(-5, 32141, A), BigFloat(-3, 312, A))
         == Comparison.Comparison(BigFloat(-5, 32141, A), BigFloat(-3, 312, A)) == 1
    ensures ComparisonAsWritten(BigFloat(-2, -45241, A), BigFloat(-3, 415, A))
         == Comparison.Comparison(BigFloat(-2, -45241, A), BigFloat(-3, 415, A)) == -1
    ensures ComparisonAsWritten(BigFloat(-3, 415, A), BigFloat(-2, -45241, A))
         == Comparison.Comparison(BigFloat(-3, 415, A), BigFloat(-2, -45241, A)) == 1
    ensures ComparisonAsWritten(BigFloat(-2, -45241, A), BigFloat(-3, -415, A))
         == Comparison.Comparison(BigFloat(-2, -45241, A), BigFloat(-3, -415, A)) == -1
    ensures ComparisonAsWritten(BigFloat(-3, -415, A), BigFloat(-2, -45241, A))
         == Comparison.Comparison(BigFloat(-3, -415, A), BigFloat(-2, -45241, A)) == 1
  {
    assert Scaled(BigFloat(-3, 312, A), -5) == 31200;
    assert Scaled(BigFloat(-2, -45241, A), -3) == -452410;
    CompareFractions();
    CompareNegativeWithPositive();
    CompareNegatives();
  }

  // ---------------------------------------------------------------------
  // Addition and subtraction
  // ---------------------------------------------------------------------

  /** 3124.3312 + -12.41551 = 3111.91569, in either order. */
  lemma AddMixedSigns()
    ensures Addition(BigFloat(-4, 31243312, A), BigFloat(-5, -1241551, A)) == BigFloat(-5, 311191569, A)
    ensures Addition(BigFloat(-5, -1241551, A), BigFloat(-4, 31243312, A)) == BigFloat(-5, 311191569, A)
  {
    ScaledBy(BigFloat(-4, 31243312, A), -5, 10, 312433120);
    ScaledBy(BigFloat(-5, -1241551, A), -5, 1, -1241551);
    Kept(311191569, -5, 31119156, 9);
    TruncateDone(311191569, -5, A);
    AddsAs(BigFloat(-4, 31243312, A), BigFloat(-5, -1241551, A), A, -5, 312433120, -1241551,
           (311191569, -5), (311191569, -5));
    AdditionCommutes(BigFloat(-4, 31243312, A), BigFloat(-5, -1241551, A));
  }

  /** 3124.3312 - -12.41551 = 3136.74671, and swapping the operands negates it. */
  lemma SubtractMixedSigns()
    ensures Subtraction(BigFloat(-4, 31243312, A), BigFloat(-5, -1241551, A)) == BigFloat(-5, 313674671, A)
    ensures Subtraction(BigFloat(-5, -1241551, A), BigFloat(-4, 31243312, A)) == BigFloat(-5, -313674671, A)
  {
    ScaledBy(BigFloat(-4, 31243312, A), -5, 10, 312433120);
    ScaledBy(BigFloat(-5, -1241551, A), -5, 1, -1241551);
    Kept(313674671, -5, 31367467, 1);
    TruncateDone(313674671, -5, A);
    SubtractsAs(BigFloat(-4, 31243312, A), BigFloat(-5, -1241551, A), A, -5, 312433120, -1241551,
                (313674671, -5), (313674671, -5));
    SubtractionAntisymmetric(BigFloat(-5, -1241551, A), BigFloat(-4, 31243312, A));
  }

  /** 0.312415 + 0.00000312 = 0.31241812. */
  lemma AddSmallFractions()
    ensures Addition(BigFloat(-6, 312415, A), BigFloat(-8, 312, A)) == BigFloat(-8, 31241812, A)
    ensures Addition(BigFloat(-8, 312, A), BigFloat(-6, 312415, A)) == BigFloat(-8, 31241812, A)
  {
    ScaledBy(BigFloat(-6, 312415, A), -8, 100, 31241500);
    ScaledBy(BigFloat(-8, 312, A), -8, 1, 312);
    Kept(31241812, -8, 3124181, 2);
    TruncateDone(31241812, -8, A);
    AddsAs(BigFloat(-6, 312415, A), BigFloat(-8, 312, A), A, -8, 31241500, 312, (31241812, -8), (31241812, -8));
    AdditionCommutes(BigFloat(-6, 312415, A), BigFloat(-8, 312, A));
  }

  /** 2041 + 4145000 = 4147041. */
  lemma AddWholeNumbers()
    ensures Addition(BigFloat(0, 2041, A), BigFloat(3, 4145, A)) == BigFloat(0, 4147041, A)
    ensures Addition(BigFloat(3, 4145, A), BigFloat(0, 2041, A)) == BigFloat(0, 4147041, A)
  {
    ScaledBy(BigFloat(0, 2041, A), 0, 1, 2041);
    ScaledBy(BigFloat(3, 4145, A), 0, 1000, 4145000);
    Kept(4147041, 0, 414704, 1);
    TruncateDone(4147041, 0, A);
    AddsAs(BigFloat(0, 2041, A), BigFloat(3, 4145, A), A, 0, 2041, 4145000, (4147041, 0), (4147041, 0));
    AdditionCommutes(BigFloat(0, 2041, A), BigFloat(3, 4145, A));
  }

  /** 5 + 15 = 20, which normalises to (1, 2). */
  lemma AddToTrailingZero()
    ensures Addition(BigFloat(0, 5, A), BigFloat(0, 15, A)) == BigFloat(1, 2, A)
    ensures Addition(BigFloat(0, 15, A), BigFloat(0, 5, A)) == BigFloat(1, 2, A)
  {
    ScaledBy(BigFloat(0, 5, A), 0, 1, 5);
    ScaledBy(BigFloat(0, 15, A), 0, 1, 15);
    Dropped(20, 0, 2);
    Kept(2, 1, 0, 2);
    TruncateDone(2, 1, A);
    AddsAs(BigFloat(0, 5, A), BigFloat(0, 15, A), A, 0, 5, 15, (2, 1), (2, 1));
    AdditionCommutes(BigFloat(0, 5, A), BigFloat(0, 15, A));
  }

  /** 4120000 + 0.00100312 = 4120000.00100312. */
  lemma AddFarApart()
    ensures Addition(BigFloat(4, 412, A), BigFloat(-8, 100312, A)) == BigFloat(-8, 412000000100312, A)
    ensures Addition(BigFloat(-8, 100312, A), BigFloat(4, 412, A)) == BigFloat(-8, 412000000100312, A)
  {
    Pow10Twelve();
    ScaledBy(BigFloat(4, 412, A), -8, 1000000000000, 412000000000000);
    ScaledBy(BigFloat(-8, 100312, A), -8, 1, 100312);
    Kept(412000000100312, -8, 41200000010031, 2);
    TruncateDone(412000000100312, -8, A);
    AddsAs(BigFloat(4, 412, A), BigFloat(-8, 100312, A), A, -8, 412000000000000, 100312,
           (412000000100312, -8), (412000000100312, -8));
    AdditionCommutes(BigFloat(4, 412, A), BigFloat(-8, 100312, A));
  }

  /** `++` on 4120000, held as (4, 412), gives 4120001 at exponent 0. */
  lemma IncrementScaled()
    ensures Increment(BigFloat(4, 412, A)) == BigFloat(0, 4120001, A)
  {
    Pow10Four();
    ScaledBy(BigFloat(4, 412, A), 0, 10000, 4120000);
    ScaledBy(One, 0, 1, 1);
    Kept(4120001, 0, 412000, 1);
    TruncateDone(4120001, 0, A);
    AddsAs(BigFloat(4, 412, A), One, A, 0, 4120000, 1, (4120001, 0), (4120001, 0));
  }

  /** `++` on 4120001 gives 4120002. */
  lemma IncrementAgain()
    ensures Increment(BigFloat(0, 4120001, A)) == BigFloat(0, 4120002, A)
  {
    ScaledBy(BigFloat(0, 4120001, A), 0, 1, 4120001);
    ScaledBy(One, 0, 1, 1);
    Kept(4120002, 0, 412000, 2);
    TruncateDone(4120002, 0, A);
    AddsAs(BigFloat(0, 4120001, A), One, A, 0, 4120001, 1, (4120002, 0), (4120002, 0));
  }

  /** `--` on 4120000 gives 4119999. */
  lemma DecrementScaled()
    ensures Decrement(BigFloat(4, 412, A)) == BigFloat(0, 4119999, A)
  {
    Pow10Four();
    ScaledBy(BigFloat(4, 412, A), 0, 10000, 4120000);
    ScaledBy(One, 0, 1, 1);
    Kept(4119999, 0, 411999, 9);
    TruncateDone(4119999, 0, A);
    SubtractsAs(BigFloat(4, 412, A), One, A, 0, 4120000, 1, (4119999, 0), (4119999, 0));
  }

  /** 0.312415 - 0.00000312 = 0.31241188. */
  lemma SubtractSmallFractions()
    ensures Subtraction(BigFloat(-6, 312415, A), BigFloat(-8, 312, A)) == BigFloat(-8, 31241188, A)
    ensures Subtraction(BigFloat(-8, 312, A), BigFloat(-6, 312415, A)) == BigFloat(-8, -31241188, A)
  {
    ScaledBy(BigFloat(-6, 312415, A), -8, 100, 31241500);
    ScaledBy(BigFloat(-8, 312, A), -8, 1, 312);
    Kept(31241188, -8, 3124118, 8);
    TruncateDone(31241188, -8, A);
    SubtractsAs(BigFloat(-6, 312415, A), BigFloat(-8, 312, A), A, -8, 31241500, 312, (31241188, -8), (31241188, -8));
    SubtractionAntisymmetric(BigFloat(-8, 312, A), BigFloat(-6, 312415, A));
  }

  /** 2041 - 4145000 = -4142959. */
  lemma SubtractWholeNumbers()
    ensures Subtraction(BigFloat(0, 2041, A), BigFloat(3, 4145, A)) == BigFloat(0, -4142959, A)
    ensures Subtraction(BigFloat(3, 4145, A), BigFloat(0, 2041, A)) == BigFloat(0, 4142959, A)
  {
    ScaledBy(BigFloat(0, 2041, A), 0, 1, 2041);
    ScaledBy(BigFloat(3, 4145, A), 0, 1000, 4145000);
    Kept(-4142959, 0, -414295, -9);
    TruncateDone(-4142959, 0, A);
    SubtractsAs(BigFloat(0, 2041, A), BigFloat(3, 4145, A), A, 0, 2041, 4145000, (-4142959, 0), (-4142959, 0));
    SubtractionAntisymmetric(BigFloat(3, 4145, A), BigFloat(0, 2041, A));
  }

  /** 5 - 15 = -10, which normalises to (1, -1). */
  lemma SubtractToTrailingZero()
    ensures Subtraction(BigFloat(0, 5, A), BigFloat(0, 15, A)) == BigFloat(1, -1, A)
    ensures Subtraction(BigFloat(0, 15, A), BigFloat(0, 5, A)) == BigFloat(1, 1, A)
  {
    ScaledBy(BigFloat(0, 5, A), 0, 1, 5);
    ScaledBy(BigFloat(0, 15, A), 0, 1, 15);
    Dropped(-10, 0, -1);
    Kept(-1, 1, 0, -1);
    TruncateDone(-1, 1, A);
    SubtractsAs(BigFloat(0, 5, A), BigFloat(0, 15, A), A, 0, 5, 15, (-1, 1), (-1, 1));
    SubtractionAntisymmetric(BigFloat(0, 15, A), BigFloat(0, 5, A));
  }

  /** 4120000 - 0.00100312 = 4119999.99899688. */
  lemma SubtractFarApart()
    ensures Subtraction(BigFloat(4, 412, A), BigFloat(-8, 100312, A)) == BigFloat(-8, 411999999899688, A)
    ensures Subtraction(BigFloat(-8, 100312, A), BigFloat(4, 412, A)) == BigFloat(-8, -411999999899688, A)
  {
    Pow10Twelve();
    ScaledBy(BigFloat(4, 412, A), -8, 1000000000000, 412000000000000);
    ScaledBy(BigFloat(-8, 100312, A), -8, 1, 100312);
    Kept(411999999899688, -8, 41199999989968, 8);
    TruncateDone(411999999899688, -8, A);
    SubtractsAs(BigFloat(4, 412, A), BigFloat(-8, 100312, A), A, -8, 412000000000000, 100312,
                (411999999899688, -8), (411999999899688, -8));
    SubtractionAntisymmetric(BigFloat(-8, 100312, A), BigFloat(4, 412, A));
  }

  /** `--` on 4119999 gives 4119998. */
  lemma DecrementAgain()
    ensures Decrement(BigFloat(0, 4119999, A)) == BigFloat(0, 4119998, A)
  {
    ScaledBy(BigFloat(0, 4119999, A), 0, 1, 4119999);
    ScaledBy(One, 0, 1, 1);
    Kept(4119998, 0, 411999, 8);
    TruncateDone(4119998, 0, A);
    SubtractsAs(BigFloat(0, 4119999, A), One, A, 0, 4119999, 1, (4119998, 0), (4119998, 0));
  }

  /** A value read at exponent t, once the power of ten is known. */
  lemma ScaledBy(v: BigFloat, t: int, p: int, x: int)
    requires t <= v.exponent && p == Pow10(v.exponent - t) && x == v.mantissa * p
    ensures Scaled(v, t) == x
  {}

  /** `addition` once the aligned mantissas, and what stripping and truncation leave of their sum, are known. */
  lemma AddsAs(a: BigFloat, b: BigFloat, accuracy: nat, e: int, x: int, y: int, stripped: (int, int), cut: (int, int))
    requires accuracy == (if a.exponent <= b.exponent then b.accuracy else a.accuracy)
    requires e == Common(a, b) && x == Scaled(a, e) && y == Scaled(b, e)
    requires Strip(x + y, e) == stripped && Truncate(stripped.0, stripped.1, accuracy) == cut
    ensures Addition(a, b) == BigFloat(if cut.0 == 0 then 0 else cut.1, cut.0, accuracy)
  {
    NormalOf(Sum(a, b), stripped, cut);
  }

  /** `substraction` in the same terms: the aligned mantissa of b is subtracted. */
  lemma SubtractsAs(a: BigFloat, b: BigFloat, accuracy: nat, e: int, x: int, y: int, stripped: (int, int), cut: (int, int))
    requires accuracy == (if a.exponent <= b.exponent then b.accuracy else a.accuracy)
    requires e == Common(a, b) && x == Scaled(a, e) && y == Scaled(b, e)
    requires Strip(x - y, e) == stripped && Truncate(stripped.0, stripped.1, accuracy) == cut
    ensures Subtraction(a, b) == BigFloat(if cut.0 == 0 then 0 else cut.1, cut.0, accuracy)
  {
    assert Scaled(Negate(b), e) == -y;
    AddsAs(a, Negate(b), accuracy, e, x, -y, stripped, cut);
  }

  // ---------------------------------------------------------------------
  // Multiplication, inverse and division
  // ---------------------------------------------------------------------

  /** 3124.3312 * -12.41551 = -38790.165256912. */
  lemma MultiplyMixedSigns()
    ensures Times(BigFloat(-4, 31243312, A), BigFloat(-5, -1241551, A)) == BigFloat(-9, -38790165256912, A)
    ensures Times(BigFloat(-5, -1241551, A), BigFloat(-4, 31243312, A)) == BigFloat(-9, -38790165256912, A)
  {
    Kept(-38790165256912, -9, -3879016525691, -2);
    TruncateDone(-38790165256912, -9, A);
    MultipliesAs(BigFloat(-4, 31243312, A), BigFloat(-5, -1241551, A), A, -38790165256912, -9,
                 (-38790165256912, -9), (-38790165256912, -9));
    MultiplicationCommutes(BigFloat(-4, 31243312, A), BigFloat(-5, -1241551, A), A);
  }

  /** -12.41551 * -1 = 12.41551, and 3124.3312 * 12.41551 = 38790.165256912 in either order. */
  lemma MultiplyByMinusOne()
    ensures Times(BigFloat(-5, -1241551, A), BigFloat(0, -1, A)) == BigFloat(-5, 1241551, A)
    ensures Times(BigFloat(-4, 31243312, A), BigFloat(-5, 1241551, A)) == BigFloat(-9, 38790165256912, A)
    ensures Times(BigFloat(-5, 1241551, A), BigFloat(-4, 31243312, A)) == BigFloat(-9, 38790165256912, A)
  {
    Kept(1241551, -5, 124155, 1);
    TruncateDone(1241551, -5, A);
    MultipliesAs(BigFloat(-5, -1241551, A), BigFloat(0, -1, A), A, 1241551, -5, (1241551, -5), (1241551, -5));
    Kept(38790165256912, -9, 3879016525691, 2);
    TruncateDone(38790165256912, -9, A);
    MultipliesAs(BigFloat(-4, 31243312, A), BigFloat(-5, 1241551, A), A, 38790165256912, -9,
                 (38790165256912, -9), (38790165256912, -9));
    MultiplicationCommutes(BigFloat(-4, 31243312, A), BigFloat(-5, 1241551, A), A);
  }

  /** 0.312415 * 0.00000312 = 0.0000009747348. */
  lemma MultiplySmallFractions()
    ensures Times(BigFloat(-6, 312415, A), BigFloat(-8, 312, A)) == BigFloat(-13, 9747348, A)
    ensures Times(BigFloat(-8, 312, A), BigFloat(-6, 312415, A)) == BigFloat(-13, 9747348, A)
  {
    Dropped(97473480, -14, 9747348);
    Kept(9747348, -13, 974734, 8);
    TruncateDone(9747348, -13, A);
    MultipliesAs(BigFloat(-6, 312415, A), BigFloat(-8, 312, A), A, 97473480, -14, (9747348, -13), (9747348, -13));
    MultiplicationCommutes(BigFloat(-6, 312415, A), BigFloat(-8, 312, A), A);
  }

  /** 1 / 5 = 0.2. */
  lemma InverseOfFive()
    ensures Reciprocal(BigFloat(0, 5, A)) == Ok(BigFloat(-1, 2, A))
  {
    ScaleDone(10, 0, 5);
    DivRemOf(10, 5, 2, 0);
    Step(DigitState(10, 1, 0, 0), 5, -100, 2, 0, DigitState(0, 0, 2, -1));
    Stop(DigitState(0, 0, 2, -1), 5, -100);
    ReciprocalBy(BigFloat(0, 5, A), 10, 0, DigitState(0, 0, 2, -1));
  }

  /** 1 / 3 at accuracy 5 = 0.33333: the digit loop stops at the accuracy floor. */
  lemma InverseOfThree()
    ensures Reciprocal(BigFloat(0, 3, 5)) == Ok(BigFloat(-5, 33333, 5))
  {
    ScaleDone(10, 0, 3);
    DivRemOf(10, 3, 3, 1);
    Step(DigitState(10, 1, 0, 0), 3, -5, 3, 1, DigitState(10, 1, 3, -1));
    Step(DigitState(10, 1, 3, -1), 3, -5, 3, 1, DigitState(10, 1, 33, -2));
    Step(DigitState(10, 1, 33, -2), 3, -5, 3, 1, DigitState(10, 1, 333, -3));
    Step(DigitState(10, 1, 333, -3), 3, -5, 3, 1, DigitState(10, 1, 3333, -4));
    Step(DigitState(10, 1, 3333, -4), 3, -5, 3, 1, DigitState(10, 1, 33333, -5));
    Stop(DigitState(10, 1, 33333, -5), 3, -5);
    ReciprocalBy(BigFloat(0, 3, 5), 10, 0, DigitState(10, 1, 33333, -5));
  }

  /** 1 / 4 at accuracy 5 = 0.25. */
  lemma InverseOfFour()
    ensures Reciprocal(BigFloat(0, 4, 5)) == Ok(BigFloat(-2, 25, 5))
  {
    ScaleDone(10, 0, 4);
    DivRemOf(10, 4, 2, 2);
    Step(DigitState(10, 1, 0, 0), 4, -5, 2, 2, DigitState(20, 2, 2, -1));
    DivRemOf(20, 4, 5, 0);
    Step(DigitState(20, 2, 2, -1), 4, -5, 5, 0, DigitState(0, 0, 25, -2));
    Stop(DigitState(0, 0, 25, -2), 4, -5);
    ReciprocalBy(BigFloat(0, 4, 5), 10, 0, DigitState(0, 0, 25, -2));
  }

  /** 1 / 13 at accuracy 5 = 0.07692. */
  lemma InverseOfThirteen()
    ensures Reciprocal(BigFloat(0, 13, 5)) == Ok(BigFloat(-5, 7692, 5))
  {
    ScaleStep(10, 0, 13, 100);
    ScaleDone(100, -1, 13);
    DivRemOf(100, 13, 7, 9);
    Step(DigitState(100, 1, 0, -1), 13, -5, 7, 9, DigitState(90, 9, 7, -2));
    DivRemOf(90, 13, 6, 12);
    Step(DigitState(90, 9, 7, -2), 13, -5, 6, 12, DigitState(120, 12, 76, -3));
    DivRemOf(120, 13, 9, 3);
    Step(DigitState(120, 12, 76, -3), 13, -5, 9, 3, DigitState(30, 3, 769, -4));
    DivRemOf(30, 13, 2, 4);
    Step(DigitState(30, 3, 769, -4), 13, -5, 2, 4, DigitState(40, 4, 7692, -5));
    Stop(DigitState(40, 4, 7692, -5), 13, -5);
    ReciprocalBy(BigFloat(0, 13, 5), 100, -1, DigitState(40, 4, 7692, -5));
  }

  /** 13 / 4 = 3.25 (accuracy 5 operands, accuracy 100 result). */
  lemma DivideThirteenByFour()
    ensures Quotient(BigFloat(0, 13, 5), BigFloat(0, 4, 5)) == Ok(BigFloat(-2, 325, A))
  {
    InverseOfFour();
    Kept(325, -2, 32, 5);
    TruncateDone(325, -2, A);
    MultipliesAs(BigFloat(0, 13, 5), BigFloat(-2, 25, 5), A, 325, -2, (325, -2), (325, -2));
    DividesAs(BigFloat(0, 13, 5), BigFloat(0, 4, 5), BigFloat(-2, 25, 5), BigFloat(-2, 325, A));
  }

  /** 4 / 13 = 4 * 0.07692 = 0.30768. */
  lemma DivideFourByThirteen()
    ensures Quotient(BigFloat(0, 4, 5), BigFloat(0, 13, 5)) == Ok(BigFloat(-5, 30768, A))
  {
    InverseOfThirteen();
    Kept(30768, -5, 3076, 8);
    TruncateDone(30768, -5, A);
    MultipliesAs(BigFloat(0, 4, 5), BigFloat(-5, 7692, 5), A, 30768, -5, (30768, -5), (30768, -5));
    DividesAs(BigFloat(0, 4, 5), BigFloat(0, 13, 5), BigFloat(-5, 7692, 5), BigFloat(-5, 30768, A));
  }

  /** A value divided by itself is 1. */
  lemma DivideBySelf()
    ensures Quotient(BigFloat(0, 13, 5), BigFloat(0, 13, 5)) == Ok(One)
  {}

  /** 4 / 4 is 1 too. */
  lemma DivideFourBySelf()
    ensures Quotient(BigFloat(0, 4, 5), BigFloat(0, 4, 5)) == Ok(One)
  {}

  /** Dividing 4 by zero fails: `inverse` throws on a zero mantissa. */
  lemma DivideByZero()
    ensures Quotient(BigFloat(0, 4, 5), Zero) == Err(DivisionByZero)
  {}

  /** 1 / 5 at accuracy 6 = 0.2. */
  lemma InverseOfFiveAtSix()
    ensures Reciprocal(BigFloat(0, 5, 6)) == Ok(BigFloat(-1, 2, 6))
  {
    ScaleDone(10, 0, 5);
    DivRemOf(10, 5, 2, 0);
    Step(DigitState(10, 1, 0, 0), 5, -6, 2, 0, DigitState(0, 0, 2, -1));
    Stop(DigitState(0, 0, 2, -1), 5, -6);
    ReciprocalBy(BigFloat(0, 5, 6), 10, 0, DigitState(0, 0, 2, -1));
  }

  /** 1 / 121 at accuracy 6 = 0.008264. */
  lemma InverseOf121()
    ensures Reciprocal(BigFloat(0, 121, 6)) == Ok(BigFloat(-6, 8264, 6))
  {
    ScaleStep(10, 0, 121, 100);
    ScaleStep(100, -1, 121, 1000);
    ScaleDone(1000, -2, 121);
    DivRemOf(1000, 121, 8, 32);
    Step(DigitState(1000, 1, 0, -2), 121, -6, 8, 32, DigitState(320, 32, 8, -3));
    DivRemOf(320, 121, 2, 78);
    Step(DigitState(320, 32, 8, -3), 121, -6, 2, 78, DigitState(780, 78, 82, -4));
    DivRemOf(780, 121, 6, 54);
    Step(DigitState(780, 78, 82, -4), 121, -6, 6, 54, DigitState(540, 54, 826, -5));
    DivRemOf(540, 121, 4, 56);
    Step(DigitState(540, 54, 826, -5), 121, -6, 4, 56, DigitState(560, 56, 8264, -6));
    Stop(DigitState(560, 56, 8264, -6), 121, -6);
    ReciprocalBy(BigFloat(0, 121, 6), 1000, -2, DigitState(560, 56, 8264, -6));
  }

  /** 121 / 5 = 24.2 (accuracy 6 operands). */
  lemma Divide121ByFive()
    ensures Quotient(BigFloat(0, 121, 6), BigFloat(0, 5, 6)) == Ok(BigFloat(-1, 242, A))
  {
    InverseOfFiveAtSix();
    Kept(242, -1, 24, 2);
    TruncateDone(242, -1, A);
    MultipliesAs(BigFloat(0, 121, 6), BigFloat(-1, 2, 6), A, 242, -1, (242, -1), (242, -1));
    DividesAs(BigFloat(0, 121, 6), BigFloat(0, 5, 6), BigFloat(-1, 2, 6), BigFloat(-1, 242, A));
  }

  /** 5 / 121 = 5 * 0.008264 = 0.04132. */
  lemma DivideFiveBy121()
    ensures Quotient(BigFloat(0, 5, 6), BigFloat(0, 121, 6)) == Ok(BigFloat(-5, 4132, A))
  {
    InverseOf121();
    Dropped(41320, -6, 4132);
    Kept(4132, -5, 413, 2);
    TruncateDone(4132, -5, A);
    MultipliesAs(BigFloat(0, 5, 6), BigFloat(-6, 8264, 6), A, 41320, -6, (4132, -5), (4132, -5));
    DividesAs(BigFloat(0, 5, 6), BigFloat(0, 121, 6), BigFloat(-6, 8264, 6), BigFloat(-5, 4132, A));
  }

  /** `multiplication` once the product's mantissa and exponent, stripped and truncated, are known. */
  lemma MultipliesAs(a: BigFloat, b: BigFloat, accuracy: nat, m: int, e: int, stripped: (int, int), cut: (int, int))
    requires m == a.mantissa * b.mantissa && e == a.exponent + b.exponent
    requires Strip(m, e) == stripped && Truncate(stripped.0, stripped.1, accuracy) == cut
    ensures Multiplication(a, b, accuracy) == BigFloat(if cut.0 == 0 then 0 else cut.1, cut.0, accuracy)
  {
    NormalOf(RawProduct(a, b, accuracy), stripped, cut);
  }

  /** `a / b` once the reciprocal of b and the product are known. */
  lemma DividesAs(a: BigFloat, b: BigFloat, inv: BigFloat, r: BigFloat)
    requires NotEq(a, b) && Reciprocal(b) == Ok(inv) && Multiplication(a, inv, DefaultAccuracy) == r
    ensures Quotient(a, b) == Ok(r)
  {}

  /** `inverse` of a whole number, given the scaling and the digits it produces. */
  lemma ReciprocalBy(v: BigFloat, x: int, e: int, s: DigitState)
    requires v.mantissa > 0 && v.exponent == 0
    requires ScaleUp(10, 0, v.mantissa) == (x, e)
    requires LongDivide(DigitState(x, 1, 0, e), v.mantissa, Floor(v.accuracy)) == s
    ensures Reciprocal(v) == Ok(BigFloat(s.exponent, s.mantissa, v.accuracy))
  {
    assert 10 * Pow10(Max(v.exponent, 0)) == 10;
    assert Abs(s.mantissa) == s.mantissa by {
      LongDivideInvariant(DigitState(x, 1, 0, e), v.mantissa, Floor(v.accuracy));
    }
  }

  /** Truncating division by a positive b, given its quotient and the remainder, which takes a's sign. */
  lemma DivRemOf(a: int, b: int, q: int, r: int)
    requires b > 0 && a == q * b + r
    requires a >= 0 ==> 0 <= r < b
    requires a < 0 ==> -b < r <= 0
    ensures DivRem(a, b) == (q, r)
  {
    var qr := DivRem(a, b);
    if a >= 0 {
      DivUnique(a, b, qr.0, qr.1);
      DivUnique(a, b, q, r);
    } else {
      assert -a == b * -qr.0 + -qr.1;
      assert -a == b * -q + -r;
      DivUnique(-a, b, -qr.0, -qr.1);
      DivUnique(-a, b, -q, -r);
    }
  }

  /** One pass of the scaling loop. */
  lemma ScaleStep(x: int, e: int, m: int, y: int)
    requires 0 < x < m && y == 10 * x
    ensures ScaleUp(x, e, m) == ScaleUp(y, e - 1, m)
  {}

  /** The scaling loop stops once x reaches m. */
  lemma ScaleDone(x: int, e: int, m: int)
    requires 0 < x && m <= x
    ensures ScaleUp(x, e, m) == (x, e)
  {}

  /** One digit of the long division. */
  lemma Step(s: DigitState, m: int, floor: int, q: int, r: int, t: DigitState)
    requires m != 0 && s.exponent > floor && s.r != 0 && DivRem(s.x, m) == (q, r)
    requires t == DigitState(10 * r, r, s.mantissa * 10 + q, s.exponent - 1)
    ensures LongDivide(s, m, floor) == LongDivide(t, m, floor)
  {}

  /** The long division stops at the floor or on a zero remainder. */
  lemma Stop(s: DigitState, m: int, floor: int)
    requires m != 0 && (s.exponent <= floor || s.r == 0)
    ensures LongDivide(s, m, floor) == s
  {}
}

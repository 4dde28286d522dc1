/**
  Multiplication, the long-division reciprocal `inverse`, and `division`
  as multiplication by the reciprocal.
 */
module Multiplicative {
  import opened Wrappers
  import opened BigInteger
  import opened Representation
  import opened Comparison

  /** The one error BigFloat raises: `inverse` of a zero mantissa. */
  datatype ArithError = DivisionByZero

  // ---------------------------------------------------------------------
  // Multiplication
  // ---------------------------------------------------------------------

  /**
    The product `multiplication` writes into its destination before
    normalising (:215-221): exponents added, mantissas multiplied, and the
    destination's own accuracy kept.
   */
  function RawProduct(a: BigFloat, b: BigFloat, accuracy: nat): BigFloat
  {
    BigFloat(a.exponent + b.exponent, a.mantissa * b.mantissa, accuracy)
  }

  /** The raw product is exact: read at exponents s and t, the factors multiply to the product at s + t. */
  lemma RawProductExact(a: BigFloat, b: BigFloat, accuracy: nat, s: int, t: int)
    requires s <= a.exponent && t <= b.exponent
    ensures Scaled(RawProduct(a, b, accuracy), s + t) == Scaled(a, s) * Scaled(b, t)
  {
    var i, j := a.exponent - s, b.exponent - t;
    Pow10Add(i, j);
    assert RawProduct(a, b, accuracy).exponent - (s + t) == i + j;
    Interchange(a.mantissa, b.mantissa, Pow10(i), Pow10(j));
  }

  lemma Interchange(x: int, y: int, p: int, q: int)
    ensures (x * y) * (p * q) == (x * p) * (y * q)
  {}

  /**
    `multiplication(a, b, result)`: the raw product normalised with the
    destination's accuracy, so it becomes that accuracy's truncation of the
    exact product.
   */
  function Multiplication(a: BigFloat, b: BigFloat, accuracy: nat): (r: BigFloat)
    ensures WellFormed(r) && r.accuracy == accuracy
    ensures SameValue(r, Truncation(RawProduct(a, b, accuracy)))
  {
    NormalTruncates(RawProduct(a, b, accuracy));
    Normal(RawProduct(a, b, accuracy))
  }

  /** The loop form of `multiplication`. */
  method Multiply(a: BigFloat, b: BigFloat, accuracy: nat) returns (r: BigFloat)
    ensures r == Multiplication(a, b, accuracy)
  {
    var raw := BigFloat(a.exponent + b.exponent, a.mantissa * b.mantissa, accuracy);
    r := Normalize(raw);
  }

  /** `a * b` (:147-151) and `*=` (:123-128): the destination is default-constructed, so accuracy 100. */
  function Times(a: BigFloat, b: BigFloat): (r: BigFloat)
    ensures WellFormed(r) && r.accuracy == DefaultAccuracy
    ensures SameValue(r, Truncation(RawProduct(a, b, DefaultAccuracy)))
  {
    Multiplication(a, b, DefaultAccuracy)
  }

  lemma MultiplicationCommutes(a: BigFloat, b: BigFloat, accuracy: nat)
    ensures Multiplication(a, b, accuracy) == Multiplication(b, a, accuracy)
  {
    assert RawProduct(a, b, accuracy) == RawProduct(b, a, accuracy);
  }

  /** When the product's exponent meets the accuracy, nothing is lost and the result is canonical. */
  lemma MultiplicationWithoutTruncation(a: BigFloat, b: BigFloat, accuracy: nat)
    requires a.exponent + b.exponent >= Floor(accuracy)
    ensures SameValue(Multiplication(a, b, accuracy), RawProduct(a, b, accuracy))
    ensures Canonical(Multiplication(a, b, accuracy))
  {
    var p := RawProduct(a, b, accuracy);
    var (m1, e1) := Strip(p.mantissa, p.exponent);
    NormalPreservesValue(p);
  }

  // ---------------------------------------------------------------------
  // The reciprocal (`inverse`)
  // ---------------------------------------------------------------------

  /**
    The scaling loop of `inverse` (:280-283): while x < m (a signed
    comparison, so a negative mantissa never scales) multiply x by ten and
    lower the result exponent.
   */
  function ScaleUp(x: int, e: int, m: int): (r: (int, int))
    requires x > 0
    decreases m - x
    ensures r.1 <= e && r.0 >= x && r.0 >= m
    ensures r.0 == x * Pow10(e - r.1)
  {
    if x < m then
      var r := ScaleUp(10 * x, e - 1, m);
      assert Pow10(e - r.1) == 10 * Pow10(e - 1 - r.1);
      MulAssoc(x, 10, Pow10(e - 1 - r.1));
      r
    else
      (x, e)
  }

  /** The state of the digit loop: running dividend x, last remainder r, digits so far and their exponent. */
  datatype DigitState = DigitState(x: int, r: int, mantissa: int, exponent: int)

  /**
    The digit loop of `inverse` (:285-294): while the exponent is above
    `floor` and the last remainder is non-zero, divide x by m, append the
    quotient as the next digit, and continue with ten times the remainder.
   */
  function LongDivide(s: DigitState, m: int, floor: int): (r: DigitState)
    requires m != 0
    decreases s.exponent - floor
    ensures Min(s.exponent, floor) <= r.exponent <= s.exponent
    ensures r.r == 0 || r.exponent <= floor
  {
    if s.exponent > floor && s.r != 0 then
      var qr := DivRem(s.x, m);
      LongDivide(DigitState(10 * qr.1, qr.1, s.mantissa * 10 + qr.0, s.exponent - 1), m, floor)
    else
      s
  }

  /**
    The exponent of the first digit when the running dividend starts at x0:
    where the scaling loop leaves the result.
   */
  function LeadingFrom(v: BigFloat, x0: int): int
    requires x0 > 0
  {
    ScaleUp(x0, -v.exponent, v.mantissa).1
  }

  /**
    `inverse` (:266-299) with the running dividend starting at x0:
    it fails on a zero mantissa; otherwise the result starts at exponent
    -exponent with v's accuracy, x is scaled past the mantissa, digits are
    produced, and the mantissa's sign is applied. The result is not
    normalised.
   */
  function ReciprocalFrom(v: BigFloat, x0: int): (r: Result<BigFloat, ArithError>)
    requires x0 > 0
    ensures r.Err? <==> v.mantissa == 0
    ensures r.Ok? ==> r.value.accuracy == v.accuracy && r.value.exponent <= LeadingFrom(v, x0)
  {
    if v.mantissa == 0 then Err(DivisionByZero)
    else
      var start := ScaleUp(x0, -v.exponent, v.mantissa);
      var s := LongDivide(DigitState(start.0, 1, 0, start.1), v.mantissa, Floor(v.accuracy));
      Ok(BigFloat(s.exponent, SetSign(s.mantissa, v.mantissa < 0), v.accuracy))
  }

  /** `inverse` as written: the loop at :276-278 starts x at 10^(1 + max(exponent, 0)). */
  function ReciprocalAsWritten(v: BigFloat): (r: Result<BigFloat, ArithError>)
    ensures r.Err? <==> v.mantissa == 0
    ensures r.Ok? ==> r.value.accuracy == v.accuracy
  {
    ReciprocalFrom(v, 10 * Pow10(Max(v.exponent, 0)))
  }

  /**
    `inverse` as evidently intended: x starts at 10, because the starting
    exponent -exponent already accounts for v's exponent. It is the code
    itself whenever the exponent is not positive.
   */
  function Reciprocal(v: BigFloat): (r: Result<BigFloat, ArithError>)
    ensures r.Err? <==> v.mantissa == 0
    ensures r.Ok? ==> r.value.accuracy == v.accuracy
  {
    ReciprocalFrom(v, 10)
  }

  /** Where the first digit of the intended `inverse` goes. */
  function Leading(v: BigFloat): int
  {
    LeadingFrom(v, 10)
  }

  /** On exponents that are not positive the code and the intended `inverse` coincide. */
  lemma ReciprocalAsWrittenAgrees(v: BigFloat)
    requires v.exponent <= 0
    ensures ReciprocalAsWritten(v) == Reciprocal(v)
  {}

  /** The loop form of `inverse` as written, with the loop of :276-278. */
  method InverseAsWritten(v: BigFloat) returns (r: Result<BigFloat, ArithError>)
    ensures r == ReciprocalAsWritten(v)
  {
    if v.mantissa == 0 {
      return Err(DivisionByZero);
    }
    var x := 10;
    var i := 0;
    while i < v.exponent
      invariant 0 <= i <= Max(v.exponent, 0)
      invariant x == 10 * Pow10(i)
      decreases v.exponent - i
    {
      x := x * 10;
      i := i + 1;
    }
    var e;
    x, e := Scale(x, -v.exponent, v.mantissa);
    var s := Digits(DigitState(x, 1, 0, e), v.mantissa, Floor(v.accuracy));
    return Ok(BigFloat(s.exponent, SetSign(s.mantissa, v.mantissa < 0), v.accuracy));
  }

  /** The loop form of the intended `inverse`: the scaling and digit loops `Scale` and `Digits` from x = 10. */
  method Inverse(v: BigFloat) returns (r: Result<BigFloat, ArithError>)
    ensures r == Reciprocal(v)
  {
    if v.mantissa == 0 {
      return Err(DivisionByZero);
    }
    var x, e := Scale(10, -v.exponent, v.mantissa);
    var s := Digits(DigitState(x, 1, 0, e), v.mantissa, Floor(v.accuracy));
    return Ok(BigFloat(s.exponent, SetSign(s.mantissa, v.mantissa < 0), v.accuracy));
  }

  /** The scaling loop of `inverse` (:280-283). */
  method Scale(x0: int, e0: int, m: int) returns (x: int, e: int)
    requires x0 > 0
    ensures (x, e) == ScaleUp(x0, e0, m)
  {
    x, e := x0, e0;
    while x < m
      invariant x > 0
      invariant ScaleUp(x, e, m) == ScaleUp(x0, e0, m)
      decreases m - x
    {
      ScaleUpStep(x, e, m);
      x, e := x * 10, e - 1;
    }
  }

  /** The digit loop of `inverse` (:285-294). */
  method Digits(s0: DigitState, m: int, floor: int) returns (s: DigitState)
    requires m != 0
    ensures s == LongDivide(s0, m, floor)
  {
    s := s0;
    while s.exponent > floor && s.r != 0
      invariant LongDivide(s, m, floor) == LongDivide(s0, m, floor)
      decreases s.exponent - floor
    {
      var qr := DivRem(s.x, m);
      s := DigitState(10 * qr.1, qr.1, s.mantissa * 10 + qr.0, s.exponent - 1);
    }
  }

  lemma ScaleUpStep(x: int, e: int, m: int)
    requires 0 < x < m
    ensures ScaleUp(x, e, m) == ScaleUp(x * 10, e - 1, m)
  {}

  /**
    The digit loop keeps 10 * m * digits + x growing by a factor of ten per
    digit; x stays non-negative, digits agree in sign with m, and after at
    least one digit x is ten times a remainder in [0, |m|).
   */
  lemma {:induction false} LongDivideInvariant(s: DigitState, m: int, floor: int)
    requires m != 0 && s.x >= 0 && s.mantissa * m >= 0
    ensures var r := LongDivide(s, m, floor);
      && 10 * m * r.mantissa + r.x == (10 * m * s.mantissa + s.x) * Pow10(s.exponent - r.exponent)
      && r.x >= 0 && r.mantissa * m >= 0
      && (r.exponent < s.exponent ==> r.x == 10 * r.r && 0 <= r.r < Abs(m))
      && (r.exponent == s.exponent ==> r == s)
    decreases s.exponent - floor
  {
    if s.exponent > floor && s.r != 0 {
      var qr := DivRem(s.x, m);
      var t := DigitState(10 * qr.1, qr.1, s.mantissa * 10 + qr.0, s.exponent - 1);
      QuotSign(s.x, m, qr);
      DigitStep(m, s.mantissa, s.x, qr.0, qr.1);
      LongDivideInvariant(t, m, floor);
      var r := LongDivide(t, m, floor);
      assert r == LongDivide(s, m, floor);
      var c := 10 * m * s.mantissa + s.x;
      assert 10 * m * t.mantissa + t.x == 10 * c;
      assert Pow10(s.exponent - r.exponent) == 10 * Pow10(t.exponent - r.exponent);
      MulAssoc(c, 10, Pow10(t.exponent - r.exponent));
    }
  }

  /** Dividing a non-negative x by m gives a quotient of m's sign (or zero) and a non-negative remainder. */
  lemma QuotSign(x: int, m: int, qr: (int, int))
    requires m != 0 && x >= 0 && qr == DivRem(x, m)
    ensures qr.0 * m >= 0 && qr.1 >= 0
  {
    var n, d := Abs(x), Abs(m);
    EuclidNat(n, d);
    if m < 0 {
      NegateProduct(n / d, d);
    }
  }

  lemma DigitStep(m: int, mant: int, x: int, q: int, r: int)
    requires q * m + r == x && mant * m >= 0 && q * m >= 0
    ensures 10 * m * (mant * 10 + q) + 10 * r == 10 * (10 * m * mant + x)
    ensures (mant * 10 + q) * m >= 0
  {
    assert (mant * 10 + q) * m == 10 * (mant * m) + q * m;
  }

  /** The digits agree in sign with m, so the closing `setSign` changes nothing. */
  lemma SetSignKeeps(mant: int, m: int)
    requires m != 0 && mant * m >= 0
    ensures SetSign(mant, m < 0) == mant
  {
    if mant != 0 && (mant < 0) != (m < 0) {
      if mant < 0 {
        NegateProduct(mant, m);
        MulAtLeast(-mant, m);
      } else {
        NegateProduct(mant, m);
        MulAtLeast(mant, -m);
      }
    }
  }

  /**
    What `inverse` computes from x = 10^(big+1). When the scaling leaves room
    above the accuracy floor, at least one digit is produced and, with
    k = big - v's exponent - the result's exponent, the result mantissa is
    10^k divided by v's mantissa, truncated toward zero; it is the exact
    quotient when the loop stopped above the floor. Otherwise no digit is
    produced and the result is a zero mantissa at the leading exponent.
   */
  lemma ReciprocalFromDigits(v: BigFloat, big: nat)
    requires v.mantissa != 0
    ensures var r := ReciprocalFrom(v, 10 * Pow10(big)).value; var k := big - v.exponent - r.exponent;
      if LeadingFrom(v, 10 * Pow10(big)) > Floor(v.accuracy) then
        && k >= 0
        && r.exponent >= Floor(v.accuracy)
        && 0 <= Pow10(k) - r.mantissa * v.mantissa < Abs(v.mantissa)
        && r.mantissa == Quot(Pow10(k), v.mantissa)
        && (r.exponent > Floor(v.accuracy) ==> r.mantissa * v.mantissa == Pow10(k))
      else
        r == BigFloat(LeadingFrom(v, 10 * Pow10(big)), 0, v.accuracy)
  {
    var m, f := v.mantissa, Floor(v.accuracy);
    var x0 := 10 * Pow10(big);
    var (x1, e1) := ScaleUp(x0, -v.exponent, m);
    var s := LongDivide(DigitState(x1, 1, 0, e1), m, f);
    ReciprocalOf(v, x0, x1, e1, s);
    if e1 > f {
      var j: nat := big - v.exponent - e1;
      ScaledStart(x1, big, -v.exponent - e1, j);
      ProducedDigits(m, j, e1, f, s, big - v.exponent - s.exponent);
    } else {
      assert s == DigitState(x1, 1, 0, e1);
    }
  }

  /**
    The intended `inverse` is the reciprocal of v truncated toward zero at
    the accuracy: with k = -(exponent of the result + exponent of v), its
    mantissa is 10^k / v's mantissa, exact when the digits ran out above
    the floor, and zero when there is no room for a digit.
   */
  lemma ReciprocalDigits(v: BigFloat)
    requires v.mantissa != 0
    ensures var r := Reciprocal(v).value; var k := -(r.exponent + v.exponent);
      if Leading(v) > Floor(v.accuracy) then
        && k >= 0
        && r.exponent >= Floor(v.accuracy)
        && 0 <= Pow10(k) - r.mantissa * v.mantissa < Abs(v.mantissa)
        && r.mantissa == Quot(Pow10(k), v.mantissa)
        && (r.exponent > Floor(v.accuracy) ==> r.mantissa * v.mantissa == Pow10(k))
      else
        r == BigFloat(Leading(v), 0, v.accuracy)
  {
    ReciprocalFromDigits(v, 0);
  }

  /**
    As written, `inverse` takes 10^k / mantissa with k = -(exponent of the
    result + min(exponent of v, 0)): a positive exponent of v drops out, so
    the result approximates 1 / mantissa instead of 1 / v.
   */
  lemma ReciprocalAsWrittenDigits(v: BigFloat)
    requires v.mantissa != 0 && LeadingFrom(v, 10 * Pow10(Max(v.exponent, 0))) > Floor(v.accuracy)
    ensures var r := ReciprocalAsWritten(v).value; var k := -(r.exponent + Min(v.exponent, 0));
      && k >= 0
      && r.mantissa == Quot(Pow10(k), v.mantissa)
  {
    ReciprocalFromDigits(v, Max(v.exponent, 0));
  }

  /** `inverse` in terms of the outcome of its two loops. */
  lemma ReciprocalOf(v: BigFloat, x0: int, x1: int, e1: int, s: DigitState)
    requires v.mantissa != 0 && x0 > 0
    requires ScaleUp(x0, -v.exponent, v.mantissa) == (x1, e1)
    requires s == LongDivide(DigitState(x1, 1, 0, e1), v.mantissa, Floor(v.accuracy))
    ensures LeadingFrom(v, x0) == e1
    ensures ReciprocalFrom(v, x0) == Ok(BigFloat(s.exponent, SetSign(s.mantissa, v.mantissa < 0), v.accuracy))
  {}

  /** The scaled start x1 = 10^(big+1) * 10^d is 10 * 10^j for j = big + d. */
  lemma ScaledStart(x1: int, big: nat, d: int, j: nat)
    requires d >= 0 && j == big + d && x1 == 10 * Pow10(big) * Pow10(d)
    ensures x1 == 10 * Pow10(j)
  {
    Pow10Add(big, d);
    MulAssoc(10, Pow10(big), Pow10(d));
  }

  /** The digits produced from 10^(j+1) are the truncated quotient 10^k / m, exact when the loop stopped above the floor. */
  lemma ProducedDigits(m: int, j: nat, e1: int, f: int, s: DigitState, k: int)
    requires m != 0 && e1 > f
    requires s == LongDivide(DigitState(10 * Pow10(j), 1, 0, e1), m, f)
    requires k == j + e1 - s.exponent
    ensures k >= 0 && s.exponent >= f && SetSign(s.mantissa, m < 0) == s.mantissa
    ensures 0 <= Pow10(k) - s.mantissa * m < Abs(m)
    ensures s.mantissa == Quot(Pow10(k), m)
    ensures s.exponent > f ==> s.mantissa * m == Pow10(k)
  {
    DigitsAfterLeading(m, j, e1, f);
    SetSignKeeps(s.mantissa, m);
    TruncatedQuotient(Pow10(k), m, s.mantissa, s.r);
  }

  /**
    Starting from x = 10^(j+1) with a digit still to produce, the digits
    times m plus the last remainder make 10^(j + leading - exponent).
   */
  lemma DigitsAfterLeading(m: int, j: nat, e1: int, f: int)
    requires m != 0 && e1 > f
    ensures var s := LongDivide(DigitState(10 * Pow10(j), 1, 0, e1), m, f);
      && f <= s.exponent < e1
      && 0 <= s.r < Abs(m) && s.mantissa * m >= 0
      && s.mantissa * m + s.r == Pow10(j + (e1 - s.exponent))
      && (s.exponent > f ==> s.r == 0)
  {
    var start := DigitState(10 * Pow10(j), 1, 0, e1);
    var s := LongDivide(start, m, f);
    LongDivideInvariant(start, m, f);
    assert s.exponent < e1;
    Pow10Add(j, e1 - s.exponent);
    Combine(m, s.mantissa, s.r, Pow10(j), Pow10(e1 - s.exponent), Pow10(j + (e1 - s.exponent)));
  }

  lemma Combine(m: int, d: int, r: int, a: int, q: int, w: int)
    requires 10 * m * d + 10 * r == (10 * a) * q && a * q == w
    ensures d * m + r == w
  {
    MulAssoc(10, a, q);
  }

  /** A quotient of m's sign whose remainder lies in [0, |m|) is the truncated quotient. */
  lemma TruncatedQuotient(p: int, m: int, d: int, r: int)
    requires m != 0 && p >= 0 && m * d + r == p && 0 <= r < Abs(m) && d * m >= 0
    ensures d == Quot(p, m)
  {
    var n: int := Abs(d);
    if m > 0 {
      assert d >= 0 by {
        if d < 0 { NegateProduct(d, m); MulAtLeast(m, -d); }
      }
      DivUnique(p, m, d, r);
    } else {
      assert d <= 0 by {
        if d > 0 { NegateProduct(d, m); MulAtLeast(-m, d); }
      }
      NegateProduct(n, m);
      DivUnique(p, -m, n, r);
    }
  }

  /**
    As written, a positive exponent is applied twice: the loop at :276-278
    scales x by 10^exponent while the result already starts at exponent
    -exponent. 20000 is (4, 2); its inverse comes out as 0.5 instead of
    0.00005, which the intended `inverse` gives.
   */
  lemma ReciprocalAsWrittenOverscales()
    ensures ReciprocalAsWritten(BigFloat(4, 2, DefaultAccuracy)) == Ok(BigFloat(-5, 50000, DefaultAccuracy))
    ensures SameValue(BigFloat(-5, 50000, DefaultAccuracy), BigFloat(-1, 5, DefaultAccuracy))
    ensures Reciprocal(BigFloat(4, 2, DefaultAccuracy)) == Ok(BigFloat(-5, 5, DefaultAccuracy))
  {
    assert 10 * Pow10(Max(4, 0)) == 100000;
    assert ScaleUp(100000, -4, 2) == (100000, -4);
    assert LongDivide(DigitState(100000, 1, 0, -4), 2, -100) == DigitState(0, 0, 50000, -5) by {
      assert DivRem(100000, 2) == (50000, 0);
    }
    assert SetSign(50000, false) == 50000;
    assert 10 * Pow10(0) == 10;
    assert ScaleUp(10, -4, 2) == (10, -4);
    assert LongDivide(DigitState(10, 1, 0, -4), 2, -100) == DigitState(0, 0, 5, -5) by {
      assert DivRem(10, 2) == (5, 0);
    }
    assert SetSign(5, false) == 5;
  }

  /** The result is not normalised: at any positive accuracy the inverse of 1 is (-1, 10), which carries a trailing zero. */
  lemma ReciprocalOfOneNotCanonical(v: BigFloat)
    requires v.exponent == 0 && v.mantissa == 1 && v.accuracy > 0
    ensures Reciprocal(v) == Ok(BigFloat(-1, 10, v.accuracy))
    ensures !Canonical(BigFloat(-1, 10, v.accuracy))
  {
    var s := DigitState(0, 0, 10, -1);
    assert ScaleUp(10, 0, 1) == (10, 0);
    assert LongDivide(DigitState(10, 1, 0, 0), 1, Floor(v.accuracy)) == s by {
      assert DivRem(10, 1) == (10, 0);
    }
    ReciprocalOf(v, 10, 10, 0, s);
  }



  // ---------------------------------------------------------------------
  // Division
  // ---------------------------------------------------------------------

  /**
    `division(dividend, divisor, quotient)` (:223-233): when the two compare
    equal under `==` the quotient is `BigFloat(1)` (accuracy 100, even for
    0 / 0); otherwise it is the dividend times the divisor's reciprocal
    (the intended `inverse`, which is the code's for divisors whose exponent
    is not positive), normalised with the destination's accuracy.
   */
  function Division(dividend: BigFloat, divisor: BigFloat, accuracy: nat): (r: Result<BigFloat, ArithError>)
    ensures Eq(dividend, divisor) ==> r == Ok(One)
    ensures r.Err? <==> !Eq(dividend, divisor) && divisor.mantissa == 0
    ensures r.Ok? && !Eq(dividend, divisor) ==> r.value.accuracy == accuracy
    ensures r.Ok? ==> WellFormed(r.value)
  {
    if Eq(dividend, divisor) then Ok(One)
    else
      match Reciprocal(divisor)
      case Err(e) => Err(e)
      case Ok(inv) => Ok(Multiplication(dividend, inv, accuracy))
  }

  /** `a / b` (:153-157): a default-constructed quotient, so accuracy 100. */
  function Quotient(a: BigFloat, b: BigFloat): (r: Result<BigFloat, ArithError>)
    ensures r.Ok? ==> r.value.accuracy == DefaultAccuracy && WellFormed(r.value)
    ensures r.Err? <==> !Eq(a, b) && b.mantissa == 0
  {
    Division(a, b, DefaultAccuracy)
  }

  /**
    Anything divided by itself is exactly one, including a zero mantissa, and
    so is a quotient of operands that differ in accuracy alone.
   */
  lemma DivisionBySelf(a: BigFloat, accuracy: nat)
    ensures Division(a, a, accuracy) == Ok(One)
    ensures Division(BigFloat(0, 0, accuracy), BigFloat(0, 0, accuracy), accuracy) == Ok(One)
    ensures Division(BigFloat(0, 13, 5), BigFloat(0, 13, 100), accuracy) == Ok(One)
  {}

  /** Dividing a canonical value by one gives it back, carrying the destination's accuracy. */
  lemma DivisionByOne(a: BigFloat, b: BigFloat, accuracy: nat)
    requires Canonical(a) && a.exponent >= Floor(accuracy)
    requires b.exponent == 0 && b.mantissa == 1 && b.accuracy > 0
    ensures Division(a, b, accuracy) == Ok(if Eq(a, b) then One else a.(accuracy := accuracy))
  {
    if !Eq(a, b) {
      var inv := BigFloat(-1, 10, b.accuracy);
      ReciprocalOfOneNotCanonical(b);
      DivisionVia(a, b, inv, accuracy);
      assert RawProduct(a, inv, accuracy) == BigFloat(a.exponent - 1, a.mantissa * 10, accuracy);
      NormalUndoesShift(a, accuracy);
    }
  }


  /** Away from `==`, `division` multiplies by the reciprocal. */
  lemma DivisionVia(a: BigFloat, b: BigFloat, inv: BigFloat, accuracy: nat)
    requires !Eq(a, b) && Reciprocal(b) == Ok(inv)
    ensures Division(a, b, accuracy) == Ok(Multiplication(a, inv, accuracy))
  {}

  /** `normalize` strips the zero a multiplication by ten appended. */
  lemma NormalUndoesShift(a: BigFloat, accuracy: nat)
    requires Canonical(a) && a.exponent >= Floor(accuracy)
    ensures Normal(BigFloat(a.exponent - 1, a.mantissa * 10, accuracy)) == a.(accuracy := accuracy)
  {
    var p := BigFloat(a.exponent - 1, a.mantissa * 10, accuracy);
    if a.mantissa != 0 {
      QuotExact(a.mantissa, 10);
      assert DivRem(a.mantissa * 10, 10) == (a.mantissa, 0);
      assert Strip(p.mantissa, p.exponent) == Strip(a.mantissa, a.exponent);
      NormalFixedPoint(a.(accuracy := accuracy));
    }
  }

  /**
    Once `inverse` produced a digit, the quotient is the dividend times the
    truncated reciprocal: before normalising, its mantissa is the dividend's
    mantissa times 10^k / m truncated toward zero, at the dividend's exponent
    plus the reciprocal's.
   */
  lemma DivisionUsesTruncatedReciprocal(a: BigFloat, b: BigFloat, accuracy: nat)
    requires b.mantissa != 0 && !Eq(a, b) && Leading(b) > Floor(b.accuracy)
    ensures var inv := Reciprocal(b).value; var k := -(inv.exponent + b.exponent);
      Division(a, b, accuracy)
      == Ok(Normal(BigFloat(a.exponent + inv.exponent, a.mantissa * Quot(Pow10(k), b.mantissa), accuracy)))
  {
    ReciprocalDigits(b);
  }
}

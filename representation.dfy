/**
  The BigFloat value, its numeric meaning, normalisation and the two
  constructors (from a native integer and from a decimal string).

  A BigFloat is the triple (exponent, mantissa, accuracy) and stands for
  mantissa * 10^exponent; accuracy is the number of fractional digits the
  value may keep.
 */
module Representation {
  import opened Wrappers
  import opened BigInteger
  import opened DecimalText

  /** The accuracy of a default-constructed BigFloat. */
  const DefaultAccuracy: nat := 100

  datatype BigFloat = BigFloat(exponent: int, mantissa: int, accuracy: nat)

  /** The lowest exponent an accuracy allows. */
  function Floor(accuracy: nat): int
  {
    -(accuracy as int)
  }

  /** `BigFloat()`: mantissa 0, exponent 0, default accuracy. */
  const Zero := BigFloat(0, 0, DefaultAccuracy)

  /** `BigFloat(1)`, the literal one used by `++`, `--` and `division`. */
  const One := BigFloat(0, 1, DefaultAccuracy)

  // ---------------------------------------------------------------------
  // Numeric meaning
  // ---------------------------------------------------------------------

  /**
    The number a BigFloat stands for is mantissa * 10^exponent (accuracy
    plays no part). Numbers are compared by writing both at a common
    exponent t no greater than either exponent: v then reads as the integer
    Scaled(v, t) times 10^t.
   */
  function Scaled(v: BigFloat, t: int): int
    requires t <= v.exponent
  {
    v.mantissa * Pow10(v.exponent - t)
  }

  /** The larger exponent at which both values are still integers. */
  function Common(a: BigFloat, b: BigFloat): int
  {
    Min(a.exponent, b.exponent)
  }

  /** a and b stand for the same number. */
  predicate SameValue(a: BigFloat, b: BigFloat)
  {
    Scaled(a, Common(a, b)) == Scaled(b, Common(a, b))
  }

  /** a stands for a smaller number than b. */
  predicate LessValue(a: BigFloat, b: BigFloat)
  {
    Scaled(a, Common(a, b)) < Scaled(b, Common(a, b))
  }

  /** Going down from exponent t to s multiplies the scaled mantissa by 10^(t-s). */
  lemma ScaledLower(v: BigFloat, t: int, s: int)
    requires s <= t <= v.exponent
    ensures Scaled(v, s) == Scaled(v, t) * Pow10(t - s)
  {
    Pow10Add(v.exponent - t, t - s);
    assert v.exponent - s == (v.exponent - t) + (t - s);
    MulAssoc(v.mantissa, Pow10(v.exponent - t), Pow10(t - s));
  }

  /** One alignment step (lower the exponent, multiply the mantissa by ten) keeps the scaled mantissa. */
  lemma ShiftDown(v: BigFloat, t: int)
    requires t < v.exponent
    ensures Scaled(v.(exponent := v.exponent - 1, mantissa := v.mantissa * 10), t) == Scaled(v, t)
  {
    var k := v.exponent - t;
    assert Pow10(k) == 10 * Pow10(k - 1);
    MulAssoc(v.mantissa, 10, Pow10(k - 1));
  }

  lemma MulAssoc(a: int, b: int, c: int)
    ensures a * (b * c) == (a * b) * c
  {}

  lemma ScaleCompare(x: int, y: int, p: int)
    requires p > 0
    ensures x * p == y * p <==> x == y
    ensures x * p < y * p <==> x < y
  {
    if x < y {
      MulAtLeast(p, y - x);
      assert y * p - x * p == p * (y - x);
    } else if y < x {
      MulAtLeast(p, x - y);
      assert x * p - y * p == p * (x - y);
    }
  }

  /** Any common exponent gives the same verdict on equality and order. */
  lemma SameValueAt(a: BigFloat, b: BigFloat, t: int)
    requires t <= a.exponent && t <= b.exponent
    ensures SameValue(a, b) <==> Scaled(a, t) == Scaled(b, t)
    ensures LessValue(a, b) <==> Scaled(a, t) < Scaled(b, t)
  {
    var c := Common(a, b);
    ScaledLower(a, c, t);
    ScaledLower(b, c, t);
    ScaleCompare(Scaled(a, c), Scaled(b, c), Pow10(c - t));
  }

  // ---------------------------------------------------------------------
  // Normalisation (`normalize`)
  // ---------------------------------------------------------------------

  /**
    The zero-stripping loop of `normalize`: while the mantissa is divisible by
    ten, divide it and raise the exponent. The value is unchanged and the
    result has no trailing zero. The guard `m != 0` is added: as written the
    loop tests only the remainder and never stops on a zero mantissa.
   */
  function Strip(m: int, e: int): (r: (int, int))
    decreases Abs(m)
    ensures r.1 >= e
    ensures m == r.0 * Pow10(r.1 - e)
    ensures r.0 == 0 <==> m == 0
    ensures r.0 == 0 || r.0 % 10 != 0
  {
    var qr := DivRem(m, 10);
    if m != 0 && qr.1 == 0 then
      DropTen(m, qr.0);
      var r := Strip(qr.0, e + 1);
      Pow10Step(r.1 - e);
      ShiftTen(m, qr.0, r.0, Pow10(r.1 - (e + 1)));
      r
    else
      RemainderByTen(m, qr);
      (m, e)
  }

  lemma ShiftTen(m: int, q: int, d: int, p: int)
    requires m == q * 10 && q == d * p
    ensures m == d * (10 * p)
  {}

  /** Dividing a non-zero multiple of ten by ten shrinks it. */
  lemma DropTen(m: int, q: int)
    requires m != 0 && m == q * 10
    ensures Abs(q) < Abs(m) && q * 10 == m
  {}

  /** A zero remainder from `DivRem` is divisibility by ten. */
  lemma RemainderByTen(m: int, qr: (int, int))
    requires qr == DivRem(m, 10)
    ensures qr.1 == 0 <==> m % 10 == 0
  {}

  /**
    The zero-stripping loop exactly as written (:311-316): its only guard is a
    zero remainder. At most `passes` passes are run; None means the loop had
    not stopped by then.
   */
  function StripAsWritten(m: int, e: int, passes: nat): (r: Option<(int, int)>)
    decreases passes
    ensures r.Some? ==> r.value.1 >= e && m == r.value.0 * Pow10(r.value.1 - e)
    ensures r.Some? ==> r.value.0 % 10 != 0
  {
    var qr := DivRem(m, 10);
    RemainderByTen(m, qr);
    if qr.1 != 0 then Some((m, e))
    else if passes == 0 then None
    else
      var r := StripAsWritten(qr.0, e + 1, passes - 1);
      if r.Some? then
        Pow10Step(r.value.1 - e);
        ShiftTen(m, qr.0, r.value.0, Pow10(r.value.1 - (e + 1)));
        r
      else r
  }

  /** On a zero mantissa the loop as written never stops, however many passes it is given. */
  lemma {:induction false} StripAsWrittenHangsOnZero(e: int, passes: nat)
    ensures StripAsWritten(0, e, passes) == None
    decreases passes
  {
    if passes > 0 {
      StripAsWrittenHangsOnZero(e + 1, passes - 1);
    }
  }

  /** On a non-zero mantissa the loop as written stops within |m| passes, where `Strip` does. */
  lemma {:induction false} StripAsWrittenAgrees(m: int, e: int, passes: nat)
    requires m != 0 && passes >= Abs(m)
    ensures StripAsWritten(m, e, passes) == Some(Strip(m, e))
    decreases passes
  {
    var qr := DivRem(m, 10);
    if qr.1 == 0 {
      assert m == qr.0 * 10;
      assert qr.0 != 0 && Abs(qr.0) < Abs(m);
      StripAsWrittenAgrees(qr.0, e + 1, passes - 1);
    }
  }

  /** Trailing zeros in the mantissa only move into the exponent: stripping sees through them. */
  lemma {:induction false} StripTrailingZeros(m: int, e: int, k: nat)
    requires m != 0
    ensures Strip(m * Pow10(k), e) == Strip(m, e + k)
    decreases k
  {
    if k > 0 {
      var n := m * Pow10(k - 1);
      MulAssoc(m, Pow10(k - 1), 10);
      assert m * Pow10(k) == n * 10;
      QuotExact(n, 10);
      assert DivRem(n * 10, 10) == (n, 0);
      assert n != 0;
      StripTrailingZeros(m, e + 1, k - 1);
    }
  }

  /**
    The accuracy loop of `normalize`: while the exponent is below -accuracy,
    drop the last digit (truncating toward zero) and raise the exponent.
    In closed form the mantissa is truncated by 10^(steps).
   */
  function Truncate(m: int, e: int, accuracy: nat): (r: (int, int))
    decreases Floor(accuracy) - e
    ensures r.1 == Max(e, Floor(accuracy))
    ensures r.0 == Quot(m, Pow10(r.1 - e))
  {
    if e < Floor(accuracy) then
      var r := Truncate(Quot(m, 10), e + 1, accuracy);
      QuotQuot(m, 10, Pow10(r.1 - (e + 1)));
      r
    else
      QuotByOne(m);
      (m, e)
  }

  lemma QuotByOne(m: int)
    ensures Quot(m, Pow10(0)) == m
  {}

  /**
    `normalize` (:307-327): strip trailing zeros, truncate to the accuracy,
    and give a zero mantissa exponent 0. The result keeps the accuracy, its
    exponent is at least -accuracy, and a zero mantissa has exponent 0.
   */
  function Normal(v: BigFloat): (r: BigFloat)
    ensures r.accuracy == v.accuracy
    ensures r.exponent >= Floor(v.accuracy)
    ensures r.mantissa == 0 ==> r.exponent == 0
    ensures r.mantissa != 0 ==> r.exponent >= v.exponent
  {
    var (m1, e1) := Strip(v.mantissa, v.exponent);
    var (m2, e2) := Truncate(m1, e1, v.accuracy);
    BigFloat(if m2 == 0 then 0 else e2, m2, v.accuracy)
  }

  /** The loop form of `normalize`. */
  method Normalize(v: BigFloat) returns (r: BigFloat)
    ensures r == Normal(v)
  {
    var m, e := StripZeros(v.mantissa, v.exponent);
    m, e := CutToAccuracy(m, e, v.accuracy);
    if m == 0 {
      e := 0;
    }
    r := BigFloat(e, m, v.accuracy);
  }

  /** The zero-stripping loop of `normalize` (:311-316), with the `m != 0` guard added. */
  method StripZeros(m0: int, e0: int) returns (m: int, e: int)
    ensures (m, e) == Strip(m0, e0)
  {
    m, e := m0, e0;
    var qr := DivRem(m, 10);
    while m != 0 && qr.1 == 0
      invariant qr == DivRem(m, 10)
      invariant Strip(m, e) == Strip(m0, e0)
      decreases Abs(m)
    {
      StripStep(m, e);
      DropTen(m, qr.0);
      e, m := e + 1, qr.0;
      assert Strip(m, e) == Strip(m0, e0);
      qr := DivRem(m, 10);
    }
    StripDone(m, e);
  }

  /** The truncation loop of `normalize` (:318-322): drop digits until the exponent meets the accuracy. */
  method CutToAccuracy(m0: int, e0: int, accuracy: nat) returns (m: int, e: int)
    ensures (m, e) == Truncate(m0, e0, accuracy)
  {
    m, e := m0, e0;
    var qr := DivRem(m, 10);
    while e < Floor(accuracy)
      invariant qr == DivRem(m, 10)
      invariant Truncate(m, e, accuracy) == Truncate(m0, e0, accuracy)
      decreases Floor(accuracy) - e
    {
      TruncateStep(m, e, qr, accuracy);
      e, m := e + 1, qr.0;
      assert Truncate(m, e, accuracy) == Truncate(m0, e0, accuracy);
      qr := DivRem(m, 10);
    }
    TruncateDone(m, e, accuracy);
  }

  lemma StripStep(m: int, e: int)
    requires m != 0 && DivRem(m, 10).1 == 0
    ensures Strip(m, e) == Strip(DivRem(m, 10).0, e + 1)
  {}

  lemma StripDone(m: int, e: int)
    requires !(m != 0 && DivRem(m, 10).1 == 0)
    ensures Strip(m, e) == (m, e)
  {}

  lemma TruncateStep(m: int, e: int, qr: (int, int), accuracy: nat)
    requires e < Floor(accuracy) && qr == DivRem(m, 10)
    ensures Truncate(m, e, accuracy) == Truncate(qr.0, e + 1, accuracy)
  {}

  lemma TruncateDone(m: int, e: int, accuracy: nat)
    requires e >= Floor(accuracy)
    ensures Truncate(m, e, accuracy) == (m, e)
  {}

  /**
    The reference meaning of accuracy enforcement: a value whose exponent is
    below -accuracy is cut to exponent -accuracy by truncating its mantissa
    toward zero (never rounding).
   */
  function Truncation(v: BigFloat): BigFloat
  {
    if v.exponent >= Floor(v.accuracy) then v
    else BigFloat(Floor(v.accuracy), Quot(v.mantissa, Pow10(Floor(v.accuracy) - v.exponent)), v.accuracy)
  }

  /** Standing for the same number is transitive. */
  lemma SameValueTrans(a: BigFloat, b: BigFloat, c: BigFloat)
    requires SameValue(a, b) && SameValue(b, c)
    ensures SameValue(a, c)
  {
    var t := Min(Common(a, b), c.exponent);
    SameValueAt(a, b, t);
    SameValueAt(b, c, t);
    SameValueAt(a, c, t);
  }

  /** `normalize` changes the number exactly as truncation to `accuracy` fractional digits does. */
  lemma NormalTruncates(v: BigFloat)
    ensures SameValue(Normal(v), Truncation(v))
  {
    var (m1, e1) := Strip(v.mantissa, v.exponent);
    var (m2, e2) := Truncate(m1, e1, v.accuracy);
    var x := BigFloat(e2, m2, v.accuracy);
    if e1 >= Floor(v.accuracy) {
      StrippedKeepsTruncation(v, m1, e1);
    } else {
      StrippedCutIsTruncation(v, m1, e1);
    }
    var n := Normal(v);
    assert n == BigFloat(if m2 == 0 then 0 else e2, m2, v.accuracy);
    if m2 == 0 {
      ZeroSameValue(n, x);
    } else {
      assert n == x;
    }
    SameValueTrans(n, x, Truncation(v));
  }

  /** All zero mantissas stand for the same number. */
  lemma ZeroSameValue(a: BigFloat, b: BigFloat)
    requires a.mantissa == 0 && b.mantissa == 0
    ensures SameValue(a, b)
  {}

  /** Stripping stopped at or above the floor: the truncated value is the stripped one. */
  lemma StrippedKeepsTruncation(v: BigFloat, m1: int, e1: int)
    requires (m1, e1) == Strip(v.mantissa, v.exponent) && e1 >= Floor(v.accuracy)
    ensures SameValue(BigFloat(e1, m1, v.accuracy), Truncation(v))
  {
    var x, t := BigFloat(e1, m1, v.accuracy), Truncation(v);
    var m, e, f := v.mantissa, v.exponent, Floor(v.accuracy);
    if e >= f {
      SameValueAt(x, t, e);
    } else {
      Pow10Add(e1 - f, f - e);
      MulAssoc(m1, Pow10(e1 - f), Pow10(f - e));
      QuotExact(m1 * Pow10(e1 - f), Pow10(f - e));
      SameValueAt(x, t, f);
    }
  }

  /** Stripping stopped below the floor: truncating the stripped mantissa is truncating the original. */
  lemma StrippedCutIsTruncation(v: BigFloat, m1: int, e1: int)
    requires (m1, e1) == Strip(v.mantissa, v.exponent) && e1 < Floor(v.accuracy)
    ensures var r := Truncate(m1, e1, v.accuracy); BigFloat(r.1, r.0, v.accuracy) == Truncation(v)
  {
    var d := Pow10(Floor(v.accuracy) - v.exponent);
    TruncationBy(v, d);
    var p, q := Pow10(e1 - v.exponent), Pow10(Floor(v.accuracy) - e1);
    Pow10Split(v.exponent, e1, Floor(v.accuracy));
    CutAfterStrip(v.mantissa, m1, p, q, d);
    TruncateBy(m1, e1, v.accuracy, q);
  }

  lemma TruncateBy(m: int, e: int, accuracy: nat, d: int)
    requires e <= Floor(accuracy) && d == Pow10(Floor(accuracy) - e)
    ensures Truncate(m, e, accuracy) == (Quot(m, d), Floor(accuracy))
  {}

  lemma TruncationBy(v: BigFloat, d: int)
    requires v.exponent < Floor(v.accuracy) && d == Pow10(Floor(v.accuracy) - v.exponent)
    ensures Truncation(v) == BigFloat(Floor(v.accuracy), Quot(v.mantissa, d), v.accuracy)
  {}

  lemma Pow10Split(e: int, e1: int, f: int)
    requires e <= e1 <= f
    ensures Pow10(f - e) == Pow10(e1 - e) * Pow10(f - e1)
  {
    Pow10Add(e1 - e, f - e1);
  }

  /** Truncating a multiple m1 * p by p * q is truncating m1 by q. */
  lemma CutAfterStrip(m: int, m1: int, p: int, q: int, d: int)
    requires p > 0 && q > 0 && m == m1 * p && d == p * q
    ensures Quot(m, d) == Quot(m1, q)
  {
    QuotExact(m1, p);
    QuotQuot(m, p, q);
  }

  /** Without truncation (after stripping, the exponent already meets the accuracy) the number is kept. */
  lemma NormalPreservesValue(v: BigFloat)
    requires Strip(v.mantissa, v.exponent).1 >= Floor(v.accuracy)
    ensures SameValue(Normal(v), v)
    ensures Canonical(Normal(v))
  {
    var (m1, e1) := Strip(v.mantissa, v.exponent);
    SameValueAt(BigFloat(e1, m1, v.accuracy), v, v.exponent);
  }

  /**
    The canonical form: no trailing zero digit in a
    non-zero mantissa, and exponent 0 for a zero mantissa.
   */
  predicate Canonical(v: BigFloat)
  {
    (v.mantissa == 0 ==> v.exponent == 0) && (v.mantissa != 0 ==> v.mantissa % 10 != 0)
  }

  /** The invariant every public operation leaves: the accuracy floor and the zero exponent. */
  predicate WellFormed(v: BigFloat)
  {
    v.exponent >= Floor(v.accuracy) && (v.mantissa == 0 ==> v.exponent == 0)
  }

  /** `normalize` leaves a value alone exactly when it is canonical and within its accuracy. */
  lemma NormalFixedPoint(v: BigFloat)
    ensures Normal(v) == v <==> Canonical(v) && v.exponent >= Floor(v.accuracy)
  {
    var m, e := v.mantissa, v.exponent;
    var qr := DivRem(m, 10);
    RemainderByTen(m, qr);
    var s := Strip(m, e);
    var t := Truncate(s.0, s.1, v.accuracy);
    if m != 0 && qr.1 == 0 {
      StripStep(m, e);
      assert s.1 > e;
      assert t.1 > e;
    } else {
      StripDone(m, e);
      if e >= Floor(v.accuracy) {
        TruncateDone(m, e, v.accuracy);
      }
    }
  }

  /** Two canonical values stand for the same number exactly when their (mantissa, exponent) pairs agree. */
  lemma CanonicalEqualIffSameValue(a: BigFloat, b: BigFloat)
    requires Canonical(a) && Canonical(b)
    ensures (a.mantissa == b.mantissa && a.exponent == b.exponent) <==> SameValue(a, b)
  {
    if SameValue(a, b) {
      if a.exponent < b.exponent {
        CanonicalDistinct(a, b);
      } else if b.exponent < a.exponent {
        CanonicalDistinct(b, a);
      } else {
        SameValueAt(a, b, a.exponent);
      }
    }
  }

  lemma CanonicalDistinct(a: BigFloat, b: BigFloat)
    requires Canonical(a) && Canonical(b) && a.exponent < b.exponent
    ensures !SameValue(a, b)
  {
    SameValueAt(a, b, a.exponent);
    if SameValue(a, b) {
      var k := b.exponent - a.exponent;
      assert a.mantissa == b.mantissa * Pow10(k);
      assert Pow10(k) == Pow10(k - 1) * 10;
      MulAssoc(b.mantissa, Pow10(k - 1), 10);
      assert a.mantissa == (b.mantissa * Pow10(k - 1)) * 10;
      TimesTenMod(b.mantissa * Pow10(k - 1));
    }
  }

  lemma TimesTenMod(z: int)
    ensures (z * 10) % 10 == 0
  {
    DivUnique(z * 10, 10, z, 0);
  }

  // ---------------------------------------------------------------------
  // Construction from a native integer (`init`)
  // ---------------------------------------------------------------------

  /**
    `init(val)` on a default-constructed BigFloat: zero stays canonical zero,
    otherwise trailing zeros are folded into the exponent.
   */
  function FromInt(n: int): (r: BigFloat)
    ensures r.accuracy == DefaultAccuracy
  {
    if n == 0 then Zero
    else
      var (m, e) := Strip(n, 0);
      BigFloat(e, m, DefaultAccuracy)
  }

  /** The loop form of `init` (:332-344). */
  method Init(n: int) returns (r: BigFloat)
    ensures r == FromInt(n)
  {
    r := Zero;
    if n == 0 {
      return;
    }
    var val, exp := n, 0;
    while DivRem(val, 10).1 == 0
      invariant val != 0 && exp >= 0
      invariant Strip(val, exp) == Strip(n, 0)
      decreases Abs(val)
    {
      val := DivRem(val, 10).0;
      exp := exp + 1;
    }
    r := r.(mantissa := val, exponent := exp);
  }

  /** An integer converts exactly, canonically, and as `normalize` would produce it. */
  lemma FromIntExact(n: int)
    ensures FromInt(n).exponent >= 0 && Scaled(FromInt(n), 0) == n
    ensures Canonical(FromInt(n)) && WellFormed(FromInt(n))
    ensures FromInt(n) == Normal(BigFloat(0, n, DefaultAccuracy))
  {
  }

  // ---------------------------------------------------------------------
  // Construction from a decimal string
  // ---------------------------------------------------------------------

  datatype ParseError = MalformedNumber

  /** `str.find(c)`: the first position of c, if any. */
  function Find(s: string, c: char): (r: Option<nat>)
    ensures r.None? <==> c !in s
    ensures r.Some? ==> r.value < |s| && s[r.value] == c && c !in s[..r.value]
  {
    if |s| == 0 then None
    else if s[0] == c then Some(0)
    else
      match Find(s[1..], c)
      case None => None
      case Some(i) =>
        assert s[..i + 1] == [s[0]] + s[1..][..i];
        Some(i + 1)
  }

  /**
    The string constructor: the first '.' is erased and the exponent becomes
    minus the number of characters that followed it; the remaining signed
    digit string is the mantissa; then the value is normalised.
   */
  function FromString(s: string, accuracy: nat): (r: Result<BigFloat, ParseError>)
    ensures r.Ok? ==> r.value.accuracy == accuracy && WellFormed(r.value)
  {
    var (digits, exponent) := ErasePoint(s);
    match ParseInteger(digits)
    case None => Err(MalformedNumber)
    case Some(m) => Ok(Normal(BigFloat(exponent, m, accuracy)))
  }

  /** The text without its first '.', and minus the number of characters that followed that '.'. */
  function ErasePoint(s: string): (r: (string, int))
    ensures r.1 <= 0
    ensures |r.0| == |s| - (if '.' in s then 1 else 0)
  {
    match Find(s, '.')
    case None => (s, 0)
    case Some(p) => (s[..p] + s[p + 1..], -(|s| - 1 - p))
  }

  /** A character other than a digit, '-' or '.' anywhere in the text makes the constructor fail. */
  lemma FromStringRejects(s: string, accuracy: nat, i: nat)
    requires i < |s| && !IsDigit(s[i]) && s[i] != '-' && s[i] != '.'
    ensures FromString(s, accuracy) == Err(MalformedNumber)
  {
    var d := ErasePoint(s).0;
    var j: nat := i;
    match Find(s, '.') {
      case None =>
      case Some(p) =>
        if i > p {
          j := i - 1;
        }
    }
    assert d[j] == s[i];
    assert !IsDigit(d[j]);
    if |d| > 1 && d[0] == '-' {
      assert d[1..][j - 1] == d[j];
    }
  }

  /**
    A decimal numeral `ip.fp` (digits on both sides) reads as its number:
    at exponent -|fp| it is the integer spelled by ip followed by fp,
    whenever the fraction fits the accuracy.
   */
  lemma FromStringReadsDecimal(ip: string, fp: string, accuracy: nat)
    requires IsDigits(ip) && IsDigits(fp) && |fp| <= accuracy
    ensures FromString(ip + "." + fp, accuracy).Ok?
    ensures FromString(ip + "." + fp, accuracy).value.exponent >= Floor(|fp|)
    ensures Scaled(FromString(ip + "." + fp, accuracy).value, Floor(|fp|))
            == DigitsValue(ip) * Pow10(|fp|) + DigitsValue(fp)
    ensures Canonical(FromString(ip + "." + fp, accuracy).value)
  {
    ErasePointOf(ip, fp);
    DigitsValueAppend(ip, fp);
    FromDigits(ip + "." + fp, ip + fp, Floor(|fp|), accuracy);
    NormalAtScale(DigitsValue(ip + fp), |fp|, accuracy);
  }

  /** Erasing the point of ip "." fp leaves the digits ip + fp, |fp| of them after the point. */
  lemma ErasePointOf(ip: string, fp: string)
    requires IsDigits(ip) && IsDigits(fp)
    ensures ErasePoint(ip + "." + fp) == (ip + fp, Floor(|fp|))
    ensures IsDigits(ip + fp)
  {
    var s := ip + "." + fp;
    FindInDigits(ip, fp);
    assert s[..|ip|] + s[|ip| + 1..] == ip + fp;
  }

  /** A mantissa with k <= accuracy fractional digits survives `normalize` unchanged in value. */
  lemma NormalAtScale(d: int, k: nat, accuracy: nat)
    requires k <= accuracy
    ensures Normal(BigFloat(Floor(k), d, accuracy)).exponent >= Floor(k)
    ensures Scaled(Normal(BigFloat(Floor(k), d, accuracy)), Floor(k)) == d
    ensures Canonical(Normal(BigFloat(Floor(k), d, accuracy)))
  {
    var raw := BigFloat(Floor(k), d, accuracy);
    NormalPreservesValue(raw);
    SameValueAt(Normal(raw), raw, Floor(k));
  }

  /**
    The general numeral, with an optional '-': the string constructor reads
    it as the signed digits of ip and fp together at exponent -|fp|, then
    normalises.
   */
  lemma FromStringOfNumeral(negative: bool, ip: string, fp: string, accuracy: nat)
    requires IsDigits(ip) && IsDigits(fp)
    ensures FromString((if negative then "-" else "") + ip + "." + fp, accuracy)
         == Ok(Normal(BigFloat(Floor(|fp|), (if negative then -1 else 1) * DigitsValue(ip + fp), accuracy)))
  {
    var p := if negative then "-" else "";
    var digits := ip + fp;
    assert IsDigits(digits) by {
      DigitsValueAppend(ip, fp);
    }
    assert '.' !in p + ip by {
      assert forall i :: 0 <= i < |p + ip| ==> (p + ip)[i] == '-' || IsDigit((p + ip)[i]);
    }
    ErasePointAt(p + ip, fp);
    ConcatAssoc(p, ip, fp);
    SignedDigits(negative, digits);
  }

  lemma ConcatAssoc(a: string, b: string, c: string)
    ensures (a + b) + c == a + (b + c)
  {}

  /** The first '.' is found after a prefix free of it. */
  lemma ErasePointAt(a: string, b: string)
    requires '.' !in a
    ensures ErasePoint(a + "." + b) == (a + b, Floor(|b|))
  {
    var s := a + "." + b;
    assert s[..|a|] == a;
    assert s[|a|] == '.';
    FindFirst(s, '.', |a|);
    assert s[|a| + 1..] == b;
  }

  /** An integer numeral, with an optional '-' and no '.', is read at exponent 0 and normalised. */
  lemma FromStringOfWhole(negative: bool, ip: string, accuracy: nat)
    requires IsDigits(ip)
    ensures FromString((if negative then "-" else "") + ip, accuracy)
         == Ok(Normal(BigFloat(0, (if negative then -1 else 1) * DigitsValue(ip), accuracy)))
  {
    var s := (if negative then "-" else "") + ip;
    assert '.' !in s by {
      assert forall i :: 0 <= i < |s| ==> s[i] == '-' || IsDigit(s[i]);
    }
    assert ErasePoint(s) == (s, 0);
    SignedDigits(negative, ip);
  }

  lemma SignedDigits(negative: bool, digits: string)
    requires IsDigits(digits)
    ensures ParseInteger((if negative then "-" else "") + digits)
         == Some((if negative then -1 else 1) * DigitsValue(digits))
  {
    var s := (if negative then "-" else "") + digits;
    if negative {
      assert s == "-" + digits;
      assert s[1..] == digits;
      assert |s| > 1 && s[0] == '-';
      assert ParseInteger(s) == Some(-(DigitsValue(digits) as int));
    } else {
      assert s == digits;
    }
  }

  lemma FromDigits(s: string, digits: string, exponent: int, accuracy: nat)
    requires ErasePoint(s) == (digits, exponent) && IsDigits(digits)
    ensures FromString(s, accuracy) == Ok(Normal(BigFloat(exponent, DigitsValue(digits), accuracy)))
  {
    assert ParseInteger(digits) == Some(DigitsValue(digits));
  }

  lemma FindInDigits(ip: string, fp: string)
    requires IsDigits(ip) && IsDigits(fp)
    ensures Find(ip + "." + fp, '.') == Some(|ip|)
  {
    var s := ip + "." + fp;
    assert '.' !in s[..|ip|] by {
      assert s[..|ip|] == ip;
    }
    assert s[|ip|] == '.';
    FindFirst(s, '.', |ip|);
  }

  lemma FindFirst(s: string, c: char, i: nat)
    requires i < |s| && s[i] == c && c !in s[..i]
    ensures Find(s, c) == Some(i)
  {
    assert c in s by { assert s[i] == c; }
  }
}

/**
  A BigFloat object whose members update it in place: `setAccuracy`, the
  increment and decrement operators, the compound assignments and the sign
  setters. Each leaves the object holding what the value-level operation of
  the same name computes from its old contents.
 */
module Objects {
  import opened Wrappers
  import opened BigInteger
  import opened Representation
  import opened Comparison
  import opened Additive
  import opened Multiplicative

  class BigFloatVar {
    var exponent: int
    var mantissa: int
    var accuracy: nat

    /** The value the object currently holds. */
    function Get(): BigFloat
      reads this
    {
      BigFloat(exponent, mantissa, accuracy)
    }

    /** `BigFloat()` (:26): exponent and mantissa zero, the default accuracy. */
    constructor Default()
      ensures Get() == BigFloat(0, 0, DefaultAccuracy)
      ensures Eq(Get(), FromInt(0))
    {
      exponent, mantissa, accuracy := 0, 0, DefaultAccuracy;
    }

    /** A copy of a value (the copy constructor, :28-31). */
    constructor (v: BigFloat)
      ensures Get() == v
    {
      exponent, mantissa, accuracy := v.exponent, v.mantissa, v.accuracy;
    }

    /** `BigFloat(intN_t val)` (:65-71): a default object on which `init` runs. */
    constructor FromInteger(n: int)
      ensures Get() == FromInt(n)
    {
      var v := Init(n);
      exponent, mantissa, accuracy := v.exponent, v.mantissa, v.accuracy;
    }

    /** Copy assignment (:38-43): all three fields replaced. */
    method Set(v: BigFloat)
      modifies this
      ensures Get() == v
    {
      exponent, mantissa, accuracy := v.exponent, v.mantissa, v.accuracy;
    }

    /** `setAccuracy` (:259-262): stores |val| and normalises with it. */
    method SetAccuracy(val: int)
      modifies this
      ensures Get() == Normal(old(Get()).(accuracy := Abs(val)))
      ensures WellFormed(Get()) && accuracy == Abs(val)
    {
      accuracy := Abs(val);
      var v := Normalize(Get());
      Set(v);
    }

    /** `getAccuracy` (:264). */
    method GetAccuracy() returns (a: int)
      ensures a == accuracy
    {
      a := accuracy;
    }

    /** Prefix `++` (:87-91): adds one in place and returns the updated value. */
    method PreIncrement() returns (r: BigFloat)
      modifies this
      ensures Get() == Increment(old(Get())) && r == Get()
    {
      var v := Add(Get(), One);
      Set(v);
      r := v;
    }

    /** Postfix `++` (:93-98): adds one in place and returns the value from before. */
    method PostIncrement() returns (r: BigFloat)
      modifies this
      ensures Get() == Increment(old(Get())) && r == old(Get())
    {
      r := Get();
      var v := Add(r, One);
      Set(v);
    }

    /** Prefix `--` (:100-104): subtracts one in place and returns the updated value. */
    method PreDecrement() returns (r: BigFloat)
      modifies this
      ensures Get() == Decrement(old(Get())) && r == Get()
    {
      var v := Add(Get(), Negate(One));
      Set(v);
      r := v;
    }

    /** Postfix `--` (:106-111): subtracts one in place and returns the value from before. */
    method PostDecrement() returns (r: BigFloat)
      modifies this
      ensures Get() == Decrement(old(Get())) && r == old(Get())
    {
      r := Get();
      var v := Add(r, Negate(One));
      Set(v);
    }

    /** `+=` (:113-116): `addition(*this, b, *this)`. */
    method AddAssign(b: BigFloat)
      modifies this
      ensures Get() == Addition(old(Get()), b)
    {
      var v := Add(Get(), b);
      Set(v);
    }

    /** `-=` (:118-121): `substraction(*this, b, *this)`. */
    method SubAssign(b: BigFloat)
      modifies this
      ensures Get() == Subtraction(old(Get()), b)
    {
      var v := Add(Get(), Negate(b));
      Set(v);
    }

    /** `*=` (:123-128): the product goes to a default object first, so the accuracy becomes 100. */
    method MulAssign(b: BigFloat)
      modifies this
      ensures Get() == Times(old(Get()), b)
      ensures accuracy == DefaultAccuracy
    {
      var v := Multiply(Get(), b, DefaultAccuracy);
      Set(v);
    }

    /**
      `/=` (:130-133): `division(*this, b, *this)`, so the product keeps this
      object's accuracy. When `inverse` raises, the object is left unchanged.
     */
    method DivAssign(b: BigFloat) returns (failed: bool)
      modifies this
      ensures failed <==> Division(old(Get()), b, old(accuracy)).Err?
      ensures failed ==> Get() == old(Get())
      ensures !failed ==> Get() == Division(old(Get()), b, old(accuracy)).value
    {
      if Eq(Get(), b) {
        Set(One);
        return false;
      }
      var inv := Inverse(b);
      if inv.Err? {
        return true;
      }
      var v := Multiply(Get(), inv.value, accuracy);
      Set(v);
      failed := false;
    }

    /** `changeSign` (:77). */
    method ChangeSign()
      modifies this
      ensures Get() == Negate(old(Get()))
    {
      mantissa := -mantissa;
    }

    /** `setSign` (:75): the magnitude is kept and the sign set as asked. */
    method SetSign(negative: bool)
      modifies this
      ensures Get() == old(Get()).(mantissa := BigInteger.SetSign(old(mantissa), negative))
    {
      mantissa := BigInteger.SetSign(mantissa, negative);
    }

    /** `getSign` (:73): whether the mantissa is negative. */
    method GetSign() returns (negative: bool)
      ensures negative <==> mantissa < 0
    {
      negative := mantissa < 0;
    }
  }
}

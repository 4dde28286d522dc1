# BigFloat: a verified model of a decimal floating-point type

This project models `BigFloat`, the arbitrary-precision decimal number type of
the nnoops long-arithmetic library, and proves properties of the model in Dafny.

A BigFloat holds three things:

- an exponent;
- a signed big-integer mantissa;
- an accuracy: the number of fractional decimal digits the value may keep (100 by default).

The value stands for mantissa × 10^exponent. Addition, subtraction,
multiplication, `setAccuracy` and the string constructor end with
`normalize`, which does two things:

- strips trailing zero digits of the mantissa into the exponent;
- truncates toward zero any digits below 10^-accuracy.

Their results have no exponent below -accuracy, and no trailing zero unless
truncation removed digits: "1.001" at accuracy 2 becomes (-2, 100). The other
operations do not normalise:

- unary minus copies the exponent and negates the mantissa;
- `init` produces a canonical value by its own loop;
- the `==` branch of `division` returns `BigFloat(1)` as constructed;
- `inverse` returns its long-division digits as produced, so a result can end
  in a zero digit (the inverse of 1 is (-1, 10)).

The model covers:

- the constructors from native integers and from decimal strings;
- `normalize`;
- the representational `==` / `!=`;
- the three-way `compareTo` and the four ordering operators;
- unary minus, addition and subtraction;
- `++` / `--` in prefix and postfix form;
- multiplication;
- the long-division reciprocal `inverse`;
- division;
- `setAccuracy` / `getAccuracy`;
- the sign accessors;
- the compound assignments;
- `toPrettyString`.

The worked examples of the library's test suite are restated as lemmas.

Layout (one module per file):

| file | module | contents |
|---|---|---|
| `wrappers.dfy` | `Wrappers` | `Option` and `Result` |
| `big_integer.dfy` | `BigInteger` | the parts of the big-integer engine that BigFloat relies on, over Dafny's unbounded `int`: truncating division, `setSign`, three-way comparison, powers of ten |
| `decimal_text.dfy` | `DecimalText` | decimal digit strings: parsing a signed integer and printing one |
| `representation.dfy` | `Representation` | the value, its numeric meaning, `normalize` (as a function and as the two loops of the source), `init` and the string constructor |
| `comparison.dfy` | `Comparison` | `==`, `!=`, `compareTo` (as written and corrected) and `<`, `>`, `<=`, `>=` |
| `additive.dfy` | `Additive` | unary `-`, `addition`, `substraction`, `++`, `--` |
| `multiplicative.dfy` | `Multiplicative` | `multiplication`, `inverse` (as written and corrected), `division`, `*`, `/` |
| `formatting.dfy` | `Formatting` | `toPrettyString` |
| `big_float_var.dfy` | `Objects` | class `BigFloatVar`: the members that update a BigFloat in place |
| `examples.dfy` | `Examples` | the test suite's concrete cases |

Each pure operation is a function. Each loop of the source is a method whose
postcondition equates its result with that function. The properties are stated
about the functions, mostly against a reference meaning:

- `SameValue`: two values stand for the same number.
- `LessValue`: one value stands for a smaller number than the other.
- `Truncation`: cutting a value to its accuracy by truncation toward zero.

## Model

Source paths are relative to the repository root. `big_float.hpp` is `include/nnoops/long_arithmetic/big_float.hpp`.

| member | source | states |
|---|---|---|
| BigInteger.DivRem | include/nnoops/long_arithmetic/big_float.hpp:310 | the engine's `division(a, 10, q, &r)` truncates: a == q*b + r, \|r\| < \|b\|, and r takes a's sign |
| BigInteger.SetSign | include/nnoops/long_arithmetic/big_float.hpp:296 | `setSign` keeps the magnitude and gives a non-zero result the requested sign |
| BigInteger.Compare | include/nnoops/long_arithmetic/big_float.hpp:246 | the mantissa `compareTo` is -1, 0 or 1, exactly when x < y, x == y, x > y |
| DecimalText.ParseInteger | include/nnoops/long_arithmetic/big_float.hpp:61 | a text parses exactly when it is digits, or '-' followed by digits; the value is the digits' number, negated after '-' |
| DecimalText.NatToString | include/nnoops/long_arithmetic/big_float.hpp:302-303 | the decimal text of n: digits only, reading back as n, no leading zero |
| DecimalText.IntToString | include/nnoops/long_arithmetic/big_float.hpp:302-303 | the text of n parses back to n and holds only digits and '-' |
| Representation.Strip | include/nnoops/long_arithmetic/big_float.hpp:310-316 | stripping keeps the number (m == m' * 10^(e'-e)), never lowers the exponent, yields zero only from zero, and leaves no trailing zero digit |
| Representation.StripAsWritten | include/nnoops/long_arithmetic/big_float.hpp:310-316 | the loop as written, run for at most a given number of passes: when it stops, the number is kept, the exponent is not lowered and the mantissa has no trailing zero (its termination is `StripAsWrittenHangsOnZero` and `StripAsWrittenAgrees`) |
| Representation.StripAsWrittenHangsOnZero | include/nnoops/long_arithmetic/big_float.hpp:310-316 | the zero-stripping loop as written never stops on a zero mantissa, for any number of passes |
| Representation.StripAsWrittenAgrees | include/nnoops/long_arithmetic/big_float.hpp:310-316 | on a non-zero mantissa the loop as written stops within \|m\| passes with `Strip`'s result |
| Representation.StripTrailingZeros | include/nnoops/long_arithmetic/big_float.hpp:310-316 | trailing zeros of the mantissa only move into the exponent |
| Representation.StripZeros | include/nnoops/long_arithmetic/big_float.hpp:308-316 | the stripping loop computes `Strip` |
| Representation.Truncate | include/nnoops/long_arithmetic/big_float.hpp:318-322 | the truncation loop raises the exponent to max(e, -accuracy) and divides the mantissa by the matching power of ten, truncating toward zero |
| Representation.CutToAccuracy | include/nnoops/long_arithmetic/big_float.hpp:318-322 | the truncation loop computes `Truncate` |
| Representation.Normal | include/nnoops/long_arithmetic/big_float.hpp:307-327 | `normalize` keeps the accuracy, leaves the exponent at or above -accuracy, gives a zero mantissa exponent 0 and never lowers a non-zero value's exponent |
| Representation.Normalize | include/nnoops/long_arithmetic/big_float.hpp:307-327 | the method `normalize` computes `Normal` |
| Representation.NormalTruncates | include/nnoops/long_arithmetic/big_float.hpp:307-327 | `normalize` yields the same number as truncating the value toward zero at its accuracy |
| Representation.StrippedKeepsTruncation | include/nnoops/long_arithmetic/big_float.hpp:310-322 | a stripped value still at or above the floor stands for the truncation of the original |
| Representation.NormalPreservesValue | include/nnoops/long_arithmetic/big_float.hpp:307-327 | when stripping reaches the accuracy floor, `normalize` keeps the number exactly and the result is canonical |
| Representation.NormalFixedPoint | include/nnoops/long_arithmetic/big_float.hpp:307-327 | `normalize` leaves a value unchanged exactly when it is canonical and within its accuracy |
| Representation.CanonicalEqualIffSameValue | include/nnoops/long_arithmetic/big_float.hpp:159-161 | canonical values have equal mantissa and exponent exactly when they stand for the same number |
| Representation.CanonicalDistinct | include/nnoops/long_arithmetic/big_float.hpp:159-161 | canonical values with different exponents stand for different numbers |
| Representation.FromInt | include/nnoops/long_arithmetic/big_float.hpp:65-71 | an integer-constructed BigFloat has the default accuracy |
| Representation.Init | include/nnoops/long_arithmetic/big_float.hpp:332-344 | the loop of `init` computes `FromInt` |
| Representation.FromIntExact | include/nnoops/long_arithmetic/big_float.hpp:332-344 | `init(n)` is exact (a non-negative exponent, reading back as n), canonical, well formed, and equal to normalising (0, n) |
| Representation.Find | include/nnoops/long_arithmetic/big_float.hpp:54 | `find('.')` gives the first position of the character, or none when it is absent |
| Representation.ErasePoint | include/nnoops/long_arithmetic/big_float.hpp:54-59 | erasing the first '.' removes one character and gives a non-positive exponent |
| Representation.ErasePointAt | include/nnoops/long_arithmetic/big_float.hpp:54-59 | after a prefix free of '.', the point is erased and the exponent is minus the number of characters after it |
| Representation.FromString | include/nnoops/long_arithmetic/big_float.hpp:52-63 | the string constructor: a successful reading has the requested accuracy and is well formed; what it reads is stated by `FromStringOfNumeral`, `FromStringOfWhole`, `FromStringReadsDecimal` and `FromStringRejects` |
| Representation.FromStringReadsDecimal | include/nnoops/long_arithmetic/big_float.hpp:52-63 | a numeral ip.fp with \|fp\| ≤ accuracy reads without loss: at exponent -\|fp\| it is ip·10^\|fp\| + fp, and the result is canonical |
| Representation.FromStringOfNumeral | include/nnoops/long_arithmetic/big_float.hpp:52-63 | an optionally signed numeral ip.fp reads as the signed digits of ip and fp at exponent -\|fp\|, normalised |
| Representation.FromStringOfWhole | include/nnoops/long_arithmetic/big_float.hpp:52-63 | a numeral without '.' reads at exponent 0, normalised |
| Representation.FromStringRejects | include/nnoops/long_arithmetic/big_float.hpp:61 | a character other than a digit, '-' or '.' makes the string constructor fail |
| Comparison.Eq | include/nnoops/long_arithmetic/big_float.hpp:159-161 | no contract of its own (a predicate): `==` compares mantissa and exponent only; its meaning is stated by `EqSound` and `EqIsNumericOnCanonical` |
| Comparison.NotEq | include/nnoops/long_arithmetic/big_float.hpp:163 | no contract of its own (a predicate): the negation of `Eq`, so by `EqIsNumericOnCanonical` numeric inequality on canonical values |
| Comparison.EqSound | include/nnoops/long_arithmetic/big_float.hpp:159-161 | `==` holds only between values standing for the same number |
| Comparison.EqIsNumericOnCanonical | include/nnoops/long_arithmetic/big_float.hpp:159-161 | on canonical values `==` is numeric equality, both ways |
| Comparison.ComparisonAsWritten | include/nnoops/long_arithmetic/big_float.hpp:238-257 | `compareTo` as written: the numeric order when this exponent is not above b's, and otherwise the unaligned mantissas |
| Comparison.CompareToAsWritten | include/nnoops/long_arithmetic/big_float.hpp:238-257 | the loops of `compareTo` as written compute `ComparisonAsWritten` |
| Comparison.ComparisonAsWrittenMisorders | include/nnoops/long_arithmetic/big_float.hpp:247-253 | as written, 1 compares below 0.5, while the corrected comparison puts it above |
| Comparison.Comparison | include/nnoops/long_arithmetic/big_float.hpp:238-257 | the corrected `compareTo` is -1, 0 or 1 exactly when a is numerically below, equal to or above b, for all inputs |
| Comparison.CompareTo | include/nnoops/long_arithmetic/big_float.hpp:238-257 | the loops of the corrected `compareTo` compute `Comparison` |
| Comparison.ComparisonAsWrittenAgrees | include/nnoops/long_arithmetic/big_float.hpp:240-246 | where the left exponent is not above the right one, the code and the corrected comparison agree |
| Comparison.Greater | include/nnoops/long_arithmetic/big_float.hpp:165-167 | no contract of its own (a predicate): `compareTo` > 0; `OrderingIsNumeric` states it is the numeric order |
| Comparison.Less | include/nnoops/long_arithmetic/big_float.hpp:169-171 | no contract of its own (a predicate): `compareTo` < 0; `OrderingIsNumeric` states it is the numeric order |
| Comparison.GreaterEq | include/nnoops/long_arithmetic/big_float.hpp:173-175 | no contract of its own (a predicate): `compareTo` >= 0; `OrderingIsNumeric` states it is the numeric order |
| Comparison.LessEq | include/nnoops/long_arithmetic/big_float.hpp:177-179 | no contract of its own (a predicate): `compareTo` <= 0; `OrderingIsNumeric` states it is the numeric order |
| Comparison.OrderingIsNumeric | include/nnoops/long_arithmetic/big_float.hpp:165-179 | `<`, `>`, `<=`, `>=` are the numeric order |
| Comparison.Trichotomy | include/nnoops/long_arithmetic/big_float.hpp:235-237 | exactly one of below, equal, above holds numerically |
| Comparison.TruncationLeavesTrailingZero | include/nnoops/long_arithmetic/big_float.hpp:318-326 | "1.001" at accuracy 2 normalises to (-2, 100), which stands for 1 but is not `==` to `BigFloat(1)` |
| Additive.Negate | include/nnoops/long_arithmetic/big_float.hpp:79-85 | unary minus keeps exponent and accuracy and negates the number at every exponent |
| Additive.NegateInvolution | include/nnoops/long_arithmetic/big_float.hpp:79-85 | negating twice gives the value back |
| Additive.Sum | include/nnoops/long_arithmetic/big_float.hpp:186-201 | the aligned sum sits at the smaller exponent and takes the accuracy of the operand that was copied (b on ties) |
| Additive.SumExact | include/nnoops/long_arithmetic/big_float.hpp:186-201 | the aligned sum is exact at every common exponent |
| Additive.Addition | include/nnoops/long_arithmetic/big_float.hpp:183-204 | `addition` is well formed, takes the copied operand's accuracy, and stands for the exact sum truncated to that accuracy |
| Additive.Add | include/nnoops/long_arithmetic/big_float.hpp:183-204 | the loops of `addition` compute `Addition` |
| Additive.AdditionExact | include/nnoops/long_arithmetic/big_float.hpp:183-204 | well-formed operands of one accuracy add without loss, to a canonical result |
| Additive.AdditionWithoutTruncation | include/nnoops/long_arithmetic/big_float.hpp:183-204 | whenever the aligned sum meets its accuracy, the result is the exact sum and canonical |
| Additive.AdditionCommutes | include/nnoops/long_arithmetic/big_float.hpp:183-204 | addition commutes unless the exponents tie with different accuracies |
| Additive.AdditionTieTakesRightAccuracy | include/nnoops/long_arithmetic/big_float.hpp:187-188 | on tied exponents the result carries the right operand's accuracy |
| Additive.AdditionCommutesUnderEq | include/nnoops/long_arithmetic/big_float.hpp:183-204 | on well-formed operands `a + b == b + a` always holds under the library's `==`, ties of exponent included |
| Additive.Subtraction | include/nnoops/long_arithmetic/big_float.hpp:208-211 | `substraction` is well formed and stands for the exact difference truncated to the copied operand's accuracy |
| Additive.DifferenceExact | include/nnoops/long_arithmetic/big_float.hpp:208-211 | the aligned sum with the negated operand is the exact difference |
| Additive.NormalNegate | include/nnoops/long_arithmetic/big_float.hpp:307-327 | `normalize` commutes with negation |
| Additive.StripNegate | include/nnoops/long_arithmetic/big_float.hpp:310-316 | stripping a negated mantissa strips the same zeros |
| Additive.TruncateNegate | include/nnoops/long_arithmetic/big_float.hpp:318-322 | truncating a negated mantissa gives the negated truncation |
| Additive.SubtractionAntisymmetric | include/nnoops/long_arithmetic/big_float.hpp:208-211 | swapping the operands of a subtraction negates the result |
| Additive.Increment | include/nnoops/long_arithmetic/big_float.hpp:87-91 | `++` is well formed and takes accuracy 100 unless the exponent is positive |
| Additive.Decrement | include/nnoops/long_arithmetic/big_float.hpp:100-104 | `--` is well formed, with the same accuracy rule |
| Additive.IncrementAddsOne | include/nnoops/long_arithmetic/big_float.hpp:87-91 | within the default accuracy, `++` adds exactly one and gives a canonical result |
| Additive.DecrementSubtractsOne | include/nnoops/long_arithmetic/big_float.hpp:100-104 | within the default accuracy, `--` subtracts exactly one and gives a canonical result |
| Additive.DecrementUndoesIncrement | include/nnoops/long_arithmetic/big_float.hpp:87-104 | on canonical values of the default accuracy, `--` undoes `++` |
| Multiplicative.RawProduct | include/nnoops/long_arithmetic/big_float.hpp:218-219 | no contract of its own: the product of the mantissas at the sum of the exponents; `RawProductExact` states it is the exact product |
| Multiplicative.RawProductExact | include/nnoops/long_arithmetic/big_float.hpp:218-219 | the product of the mantissas at the sum of the exponents is exact |
| Multiplicative.Multiplication | include/nnoops/long_arithmetic/big_float.hpp:215-221 | `multiplication` is well formed, takes the destination's accuracy and stands for the exact product truncated to it |
| Multiplicative.Multiply | include/nnoops/long_arithmetic/big_float.hpp:215-221 | the method computes `Multiplication` |
| Multiplicative.Times | include/nnoops/long_arithmetic/big_float.hpp:147-151 | `a * b` is the product truncated at accuracy 100 |
| Multiplicative.MultiplicationCommutes | include/nnoops/long_arithmetic/big_float.hpp:215-221 | multiplication commutes |
| Multiplicative.MultiplicationWithoutTruncation | include/nnoops/long_arithmetic/big_float.hpp:215-221 | whenever the product's exponent meets the accuracy, the product is exact and canonical |
| Multiplicative.ScaleUp | include/nnoops/long_arithmetic/big_float.hpp:280-283 | the scaling loop leaves x ≥ the mantissa, equal to the start times 10 per exponent step taken |
| Multiplicative.Scale | include/nnoops/long_arithmetic/big_float.hpp:280-283 | the scaling loop computes `ScaleUp` |
| Multiplicative.LongDivide | include/nnoops/long_arithmetic/big_float.hpp:285-294 | the digit loop stops with a zero remainder or at the accuracy floor, never below both |
| Multiplicative.Digits | include/nnoops/long_arithmetic/big_float.hpp:285-294 | the digit loop computes `LongDivide` |
| Multiplicative.LongDivideInvariant | include/nnoops/long_arithmetic/big_float.hpp:285-294 | the digit loop's invariant: 10·m·digits + x grows tenfold per digit, and digits and m agree in sign |
| Multiplicative.SetSignKeeps | include/nnoops/long_arithmetic/big_float.hpp:296 | the closing `setSign` changes nothing |
| Multiplicative.ReciprocalFrom | include/nnoops/long_arithmetic/big_float.hpp:266-299 | `inverse` from a given start fails exactly on a zero mantissa and keeps the accuracy |
| Multiplicative.ReciprocalFromDigits | include/nnoops/long_arithmetic/big_float.hpp:266-299 | from the start 10^(big+1), the digits are 10^k / m truncated toward zero, exact when the loop stopped above the floor |
| Multiplicative.ReciprocalAsWritten | include/nnoops/long_arithmetic/big_float.hpp:266-299 | `inverse` as written fails exactly on a zero mantissa and keeps the accuracy; its digits are stated by `ReciprocalAsWrittenDigits` |
| Multiplicative.InverseAsWritten | include/nnoops/long_arithmetic/big_float.hpp:266-299 | the loops of `inverse` as written compute `ReciprocalAsWritten` |
| Multiplicative.ReciprocalAsWrittenDigits | include/nnoops/long_arithmetic/big_float.hpp:266-299 | as written, the digits are 10^k / m with k = -(result exponent + min(exponent, 0)), so a positive exponent drops out |
| Multiplicative.ReciprocalAsWrittenOverscales | include/nnoops/long_arithmetic/big_float.hpp:276-278 | as written, the inverse of 20000 comes out as 0.5; the corrected one gives 0.00005 |
| Multiplicative.ReciprocalAsWrittenAgrees | include/nnoops/long_arithmetic/big_float.hpp:276-278 | on exponents that are not positive, the code and the corrected `inverse` agree |
| Multiplicative.Reciprocal | include/nnoops/long_arithmetic/big_float.hpp:266-299 | the corrected `inverse` fails exactly on a zero mantissa and keeps the accuracy; its digits are stated by `ReciprocalDigits` |
| Multiplicative.Inverse | include/nnoops/long_arithmetic/big_float.hpp:266-299 | the loops of the corrected `inverse` compute `Reciprocal` |
| Multiplicative.ReciprocalDigits | include/nnoops/long_arithmetic/big_float.hpp:266-299 | the corrected `inverse` is 1/v truncated toward zero at the accuracy; exact when the digits ran out above the floor; zero when there is no room for a digit |
| Multiplicative.ReciprocalOfOneNotCanonical | include/nnoops/long_arithmetic/big_float.hpp:266-299 | the result is not normalised: the inverse of 1 is (-1, 10) |
| Multiplicative.Division | include/nnoops/long_arithmetic/big_float.hpp:223-233 | `division` fails exactly when the operands differ under `==` and the divisor's mantissa is zero; operands equal under `==` give exactly `BigFloat(1)`; otherwise it is well formed, and when the operands differ under `==` it has the destination's accuracy |
| Multiplicative.Quotient | include/nnoops/long_arithmetic/big_float.hpp:153-157 | `a / b` has accuracy 100, with the same failure condition |
| Multiplicative.DivisionBySelf | include/nnoops/long_arithmetic/big_float.hpp:226-230 | anything divided by itself is `BigFloat(1)`, 0 / 0 included, and so are operands that differ only in accuracy |
| Multiplicative.DivisionByOne | include/nnoops/long_arithmetic/big_float.hpp:223-233 | dividing a canonical value by one gives it back, at the destination's accuracy |
| Multiplicative.DivisionVia | include/nnoops/long_arithmetic/big_float.hpp:232 | when the operands differ under `==` and the divisor has a reciprocal, the quotient is the dividend times that reciprocal at the destination's accuracy |
| Multiplicative.DivisionUsesTruncatedReciprocal | include/nnoops/long_arithmetic/big_float.hpp:232 | the quotient is the dividend times the truncated reciprocal 10^k / m, normalised |
| Formatting.PrettyString | include/nnoops/long_arithmetic/big_float.hpp:301-304 | the text is longer than five characters and ends in ')' |
| Formatting.PrettyStringDecidesEq | include/nnoops/long_arithmetic/big_float.hpp:301-304 | two values print alike exactly when `==` holds between them |
| Formatting.IntToStringInjective | include/nnoops/long_arithmetic/big_float.hpp:302-303 | different integers print differently |
| Objects.BigFloatVar.Default | include/nnoops/long_arithmetic/big_float.hpp:26 | the default object is zero at exponent 0 with accuracy 100, `==` to `BigFloat(0)` |
| Objects.BigFloatVar.constructor | include/nnoops/long_arithmetic/big_float.hpp:28-31 | the copy constructor holds the copied value |
| Objects.BigFloatVar.FromInteger | include/nnoops/long_arithmetic/big_float.hpp:65-71 | the integer constructors hold `FromInt(n)` |
| Objects.BigFloatVar.Set | include/nnoops/long_arithmetic/big_float.hpp:38-43 | copy assignment replaces all three fields |
| Objects.BigFloatVar.SetAccuracy | include/nnoops/long_arithmetic/big_float.hpp:259-262 | `setAccuracy` stores \|val\| and normalises, leaving a well-formed value |
| Objects.BigFloatVar.GetAccuracy | include/nnoops/long_arithmetic/big_float.hpp:264 | `getAccuracy` returns the stored accuracy |
| Objects.BigFloatVar.PreIncrement | include/nnoops/long_arithmetic/big_float.hpp:87-91 | prefix `++` stores `Increment` of the old value and returns the new one |
| Objects.BigFloatVar.PostIncrement | include/nnoops/long_arithmetic/big_float.hpp:93-98 | postfix `++` stores `Increment` and returns the old value |
| Objects.BigFloatVar.PreDecrement | include/nnoops/long_arithmetic/big_float.hpp:100-104 | prefix `--` stores `Decrement` and returns the new value |
| Objects.BigFloatVar.PostDecrement | include/nnoops/long_arithmetic/big_float.hpp:106-111 | postfix `--` stores `Decrement` and returns the old value |
| Objects.BigFloatVar.AddAssign | include/nnoops/long_arithmetic/big_float.hpp:113-116 | `+=` stores `Addition(old, b)` |
| Objects.BigFloatVar.SubAssign | include/nnoops/long_arithmetic/big_float.hpp:118-121 | `-=` stores `Subtraction(old, b)` |
| Objects.BigFloatVar.MulAssign | include/nnoops/long_arithmetic/big_float.hpp:123-128 | `*=` stores `Times(old, b)`, so the accuracy becomes 100 |
| Objects.BigFloatVar.DivAssign | include/nnoops/long_arithmetic/big_float.hpp:130-133 | `/=` fails exactly when `division` does and then changes nothing; otherwise it stores the quotient at its own old accuracy, or `BigFloat(1)` (accuracy 100) when `b == *this` |
| Objects.BigFloatVar.ChangeSign | include/nnoops/long_arithmetic/big_float.hpp:77 | `changeSign` stores the negation |
| Objects.BigFloatVar.SetSign | include/nnoops/long_arithmetic/big_float.hpp:75 | `setSign` changes the mantissa's sign only |
| Objects.BigFloatVar.GetSign | include/nnoops/long_arithmetic/big_float.hpp:73 | `getSign` is true exactly for a negative mantissa |
| Examples.IntegerConstruction | test/long_arithmetic/big_float_test.cpp:312-314 | 1234 is (0, 1234) and prints as "1234*e^(0)" |
| Examples.IntegerTrailingZeros | test/long_arithmetic/big_float_test.cpp:316-318 | 1234000000 is (6, 1234) and prints as "1234*e^(6)" |
| Examples.NegativeIntegers | test/long_arithmetic/big_float_test.cpp:320-326 | -1234 and -1234000000 keep their sign |
| Examples.PrintNegativeIntegers | test/long_arithmetic/big_float_test.cpp:320-326 | they print as "-1234*e^(0)" and "-1234*e^(6)" |
| Examples.ReadDecimal | test/long_arithmetic/big_float_test.cpp:328-330 | "124.2134" reads as (-4, 1242134) |
| Examples.ReadNegativeDecimal | test/long_arithmetic/big_float_test.cpp:332-334 | "-124.2134" reads as (-4, -1242134) |
| Examples.PrintDecimals | test/long_arithmetic/big_float_test.cpp:328-334 | they print as "1242134*e^(-4)" and "-1242134*e^(-4)" |
| Examples.ReadLeadingZeros | test/long_arithmetic/big_float_test.cpp:336-338 | "00000.00124" reads as (-5, 124) |
| Examples.ReadNegativeFraction | test/long_arithmetic/big_float_test.cpp:340-342 | "-0.00124" reads as (-5, -124) |
| Examples.ReadBelowAccuracy | test/long_arithmetic/big_float_test.cpp:344-346 | "-0.00124" at accuracy 2 truncates to zero, (0, 0) |
| Examples.ReadTruncated | test/long_arithmetic/big_float_test.cpp:348-350 | "-0.1241124" at accuracy 3 is cut to (-3, -124) |
| Examples.PrintFractions | test/long_arithmetic/big_float_test.cpp:336-350 | those values print as "124*e^(-5)", "-124*e^(-5)" and "-124*e^(-3)" |
| Examples.ReadTrailingZeros | test/long_arithmetic/big_float_test.cpp:352-354 | "20000.0" reads as (4, 2) |
| Examples.ReadWholeTrailingZeros | test/long_arithmetic/big_float_test.cpp:356-358 | "20000" reads as (4, 2) |
| Examples.PrintZeroAndScaled | test/long_arithmetic/big_float_test.cpp:344-358 | zero prints as "0*e^(0)" and (4, 2) as "2*e^(4)" |
| Examples.CompareFractions | test/long_arithmetic/big_float_test.cpp:24-40 | 0.312 against 0.32141: the strict operators |
| Examples.CompareFractionsInclusive | test/long_arithmetic/big_float_test.cpp:24-50 | 0.312 against 0.32141: `==`, `!=` and the non-strict operators |
| Examples.CompareNegativeWithPositive | test/long_arithmetic/big_float_test.cpp:52-78 | -452.41 against 0.415 |
| Examples.CompareNegatives | test/long_arithmetic/big_float_test.cpp:80-106 | -452.41 against -0.415 |
| Examples.CompareTestsMissTheDefect | test/long_arithmetic/big_float_test.cpp:19-107 | on every pair the comparison tests use, in both orders, `compareTo` as written already gives the numeric verdict, so those tests do not expose the defect at big_float.hpp:247-253 |
| Examples.AddMixedSigns | test/long_arithmetic/big_float_test.cpp:114-118 | 3124.3312 + -12.41551 = 3111.91569, in both orders |
| Examples.AddSmallFractions | test/long_arithmetic/big_float_test.cpp:120-124 | 0.312415 + 0.00000312 = 0.31241812, in both orders |
| Examples.AddWholeNumbers | test/long_arithmetic/big_float_test.cpp:126-130 | 2041 + 4145000 = 4147041, in both orders |
| Examples.AddToTrailingZero | test/long_arithmetic/big_float_test.cpp:132-136 | 5 + 15 = 20, held as (1, 2), in both orders |
| Examples.AddFarApart | test/long_arithmetic/big_float_test.cpp:138-142 | 4120000 + 0.00100312 = 4120000.00100312, in both orders |
| Examples.IncrementScaled | test/long_arithmetic/big_float_test.cpp:144-145 | `++` on 4120000 gives 4120001 |
| Examples.IncrementAgain | test/long_arithmetic/big_float_test.cpp:147-148 | `++` on 4120001 gives 4120002 |
| Examples.SubtractMixedSigns | test/long_arithmetic/big_float_test.cpp:156-160 | 3124.3312 - -12.41551 = 3136.74671, and the swapped difference is its negation |
| Examples.SubtractSmallFractions | test/long_arithmetic/big_float_test.cpp:162-166 | 0.312415 - 0.00000312 = 0.31241188, and the swap negates it |
| Examples.SubtractWholeNumbers | test/long_arithmetic/big_float_test.cpp:168-172 | 2041 - 4145000 = -4142959, and the swap negates it |
| Examples.SubtractToTrailingZero | test/long_arithmetic/big_float_test.cpp:174-178 | 5 - 15 = -10, held as (1, -1), and the swap negates it |
| Examples.SubtractFarApart | test/long_arithmetic/big_float_test.cpp:180-184 | 4120000 - 0.00100312 = 4119999.99899688, and the swap negates it |
| Examples.DecrementScaled | test/long_arithmetic/big_float_test.cpp:186-187 | `--` on 4120000 gives 4119999 |
| Examples.DecrementAgain | test/long_arithmetic/big_float_test.cpp:189-190 | `--` on 4119999 gives 4119998 |
| Examples.MultiplyMixedSigns | test/long_arithmetic/big_float_test.cpp:198-208 | 3124.3312 * -12.41551 = -38790.165256912, in both orders |
| Examples.MultiplyByMinusOne | test/long_arithmetic/big_float_test.cpp:210-213 | -12.41551 * -1 = 12.41551, and 3124.3312 * 12.41551 = 38790.165256912 in both orders |
| Examples.MultiplySmallFractions | test/long_arithmetic/big_float_test.cpp:215-219 | 0.312415 * 0.00000312 = 0.0000009747348, in both orders |
| Examples.InverseOfFive | test/long_arithmetic/big_float_test.cpp:227-229 | the inverse of 5 is 0.2 |
| Examples.InverseOfThree | test/long_arithmetic/big_float_test.cpp:232-234 | the inverse of 3 at accuracy 5 is 0.33333 |
| Examples.InverseOfFour | test/long_arithmetic/big_float_test.cpp:259-261 | the inverse of 4 at accuracy 5 is 0.25 |
| Examples.InverseOfThirteen | test/long_arithmetic/big_float_test.cpp:258-262 | the inverse of 13 at accuracy 5 is 0.07692 |
| Examples.DivideThirteenByFour | test/long_arithmetic/big_float_test.cpp:258-261 | 13 / 4 = 3.25 |
| Examples.DivideFourByThirteen | test/long_arithmetic/big_float_test.cpp:258-262 | 4 / 13 = 0.30768 |
| Examples.DivideBySelf | test/long_arithmetic/big_float_test.cpp:263 | 13 / 13 = 1 |
| Examples.DivideFourBySelf | test/long_arithmetic/big_float_test.cpp:264 | 4 / 4 = 1 |
| Examples.DivideByZero | include/nnoops/long_arithmetic/big_float.hpp:267-268 | dividing 4 by zero fails, because `inverse` throws on a zero mantissa |
| Examples.InverseOfFiveAtSix | test/long_arithmetic/big_float_test.cpp:267-271 | the inverse of 5 at accuracy 6 is 0.2 |
| Examples.InverseOf121 | test/long_arithmetic/big_float_test.cpp:267-271 | the inverse of 121 at accuracy 6 is 0.008264 |
| Examples.Divide121ByFive | test/long_arithmetic/big_float_test.cpp:267-270 | 121 / 5 = 24.2 |
| Examples.DivideFiveBy121 | test/long_arithmetic/big_float_test.cpp:267-271 | 5 / 121 = 0.04132 |

## Left out

- The big-integer engine (`BigInteger<SIZE, BASE_T>`) is not part of this model. The mantissa is an unbounded Dafny `int`, so the fixed width `SIZE` and its overflow are not modelled. Its division is modelled as truncation toward zero, its `setSign` as magnitude-preserving, and its text conversion (`BigIntegerT(str, DEC)`, `toPrettyString`) as decimal digits with an optional leading '-'.
- The exponent and the accuracy are unbounded integers rather than `int64_t`. So the model covers neither exponent wrap-around, nor the `uint64_t` cast in `getAccuracy` (:264), nor `abs(INT64_MIN)` in `setAccuracy` (:259-262).
- The integer-width overloads of the integer constructor (:65-71) collapse to one constructor over `int`.
- The engine's sign flag and any negative zero it may keep are not modelled: a zero mantissa has no sign.
- The `THROW_ARITH_ERROR` of `inverse` (:267-268) becomes the result `Err(DivisionByZero)`. The string constructor's failure on malformed text becomes `Err(MalformedNumber)`, with the text that fails assumed to be anything but a signed digit string.
- Representation.FromInt: its own contract states only the accuracy; its meaning is stated by `Representation.FromIntExact`.
- Formatting.PrettyString: its own contract states only its length and closing ')'; its meaning is stated by `Formatting.PrettyStringDecidesEq` and the printing examples.
- Move construction and move assignment (:33-50) are the same as the copies in value and are not modelled separately. Templates, the destructor and the unit-test framework are left out.
- Objects.BigFloatVar.DivAssign: `/=` calls `division(*this, b, *this)` (:131), which computes `multiplication(*this, divisor.inverse(), *this)` (:232). There the destination aliases the dividend, which the comment at :213-214 forbids. In `multiplication` the exponent assignment (:218) reads the dividend's exponent before writing it, so only the engine call `multiplication(a.mantissa, b.mantissa, result.mantissa)` (:219) runs with output == input. The model treats all operands as values, and so assumes that engine call is alias-safe. (A divisor aliasing `*this` is harmless: then `dividend == divisor` holds and the result is `BigFloat(1)`.)
- Representation.Strip: the guard `m != 0` is added; the code as written is `Representation.StripAsWritten` (see Findings). So `Representation.StripZeros`, `Representation.Normal`, `Representation.Normalize` and everything that normalises return the canonical zero (0, 0) where the source loops forever, for instance `Additive.Addition` on 5.0 - 5.0 and `Representation.FromString` on "0.0".
- Comparison.Comparison: the operators `<`, `>`, `<=`, `>=` are modelled on the corrected `compareTo`. The code's own verdict is `Comparison.ComparisonAsWritten` (see Findings).
- Comparison.Less: `<` uses the corrected `compareTo`, so it can differ from the code when the left operand has the larger exponent.
- Comparison.Greater: `>` uses the corrected `compareTo`, so it can differ from the code when the left operand has the larger exponent.
- Comparison.LessEq: `<=` uses the corrected `compareTo`, so it can differ from the code when the left operand has the larger exponent.
- Comparison.GreaterEq: `>=` uses the corrected `compareTo`, so it can differ from the code when the left operand has the larger exponent.
- Multiplicative.Reciprocal: `/`, `/=` and `division` are modelled on the corrected `inverse`. The code's own result is `Multiplicative.ReciprocalAsWritten` (see Findings).
- Multiplicative.Division: divides through the corrected `inverse`, so for a divisor with a positive exponent it gives the intended quotient rather than the code's overscaled one.
- Multiplicative.Quotient: `a / b` goes through `Multiplicative.Division`, with the same difference for divisors with a positive exponent.
- Objects.BigFloatVar.DivAssign: `/=` goes through `Multiplicative.Division`, with the same difference for divisors with a positive exponent.
- The inverse tests at accuracies 19 and 15 (test/long_arithmetic/big_float_test.cpp:236-249) are not restated as lemmas. They are covered by `Multiplicative.ReciprocalDigits`, which fixes every digit.

## Findings

| source | as written | input that shows it | evidently intended | confidence | as-written member | corrected member |
|---|---|---|---|---|---|---|
| include/nnoops/long_arithmetic/big_float.hpp:313-316 | the zero-stripping loop of `normalize` tests only `r == 0`, and dividing a zero mantissa by ten always leaves remainder 0 | any value whose mantissa is zero when normalised: `BigFloat("0.0")`, or `BigFloat("5.0") - BigFloat("5.0")` | stop stripping at a zero mantissa, so that it reaches the `mantissa == 0` case at :324-326 | not executed | Representation.StripAsWrittenHangsOnZero | Representation.Strip |
| include/nnoops/long_arithmetic/big_float.hpp:247-253 | in the second branch of `compareTo`, the alignment loop's guard `val.exponent < b.exponent` is false on entry, so unaligned mantissas are compared | `BigFloat("1") < BigFloat("0.5")` holds, since 1 is compared against 5; the defect is latent in the comparison tests, whose pairs the code still orders correctly (`Examples.CompareTestsMissTheDefect`) | bring this value down to b's exponent (guard `val.exponent > b.exponent`, as in `addition` at :196) | not executed | Comparison.ComparisonAsWrittenMisorders | Comparison.Comparison |
| include/nnoops/long_arithmetic/big_float.hpp:276-278 | `inverse` multiplies x by 10^exponent although the result already starts at exponent -exponent, so a positive exponent is applied twice | `BigFloat("20000.0").inverse()`, which is (4, 2), comes out as 0.5 instead of 0.00005 | start the long division from x = 10, as for non-positive exponents | not executed | Multiplicative.ReciprocalAsWrittenOverscales | Multiplicative.ReciprocalDigits |

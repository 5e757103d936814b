# BigInt in Dafny

A model of the core of the BigInt library, an arbitrary-precision signed integer
type for C++. The library's files mix two revisions of the class. This model
keeps them apart as two representations, and it gives each one an abstraction
function to a Dafny `int`.

- **The decimal-string revision.** `value` is a string of decimal digits, most
  significant first, and `sign` is `'+'` or `'-'` (`DecimalBigInt.ToInt`). This
  revision holds the arithmetic:
  - addition with a digit carry and subtraction with a borrow;
  - Karatsuba multiplication with a native `long long` fast path;
  - `pow` by square and multiply, integer Newton `sqrt`;
  - Euclid's `gcd`, and `lcm`;
  - the shifts as repeated doubling and halving;
  - `to_string` and the range-checked `to_int`, `to_long` and `to_long_long`;
  - the compound assignments and `++`/`--`.
- **The limb-vector revision.** `magnitude` is a vector of 64-bit limbs, least
  significant first, and `is_negative` is a flag (`LimbBigInt.ToInt`). It has
  constructors, unary `+`/`-`, assignment, the relational operators with their
  `int64_t` and string overloads, and the vector helpers. The experimental
  `BigInt64` belongs here too. It splits a decimal BigInt into base-2^64 digits
  by repeated `%` and `/` by 2^64.

Values are datatypes. The objects whose fields the source updates in place are
classes:
- `DecimalVar.BigIntVar`, `LimbVar.LimbBigIntVar` and `BigInt64.BigInt64Var`;
- their methods carry `modifies` and specify the new contents of the fields.

Loops of the source are `while` loops with invariants. That covers the carry and
borrow loops, the pow, sqrt and gcd loops, the shift loops, the BigInt64
decomposition and the limb stripping loop.

Each arithmetic method is specified against integer arithmetic on the
abstraction, with C++ semantics where they differ from Dafny's:
- `/` truncates toward zero, and `%` takes the dividend's sign (`TruncDiv`, `TruncMod`);
- the process exits of the decimal revision are `Result` failures;
- its thrown exceptions are `Result` failures too.

Where the code and its comments or tests disagree, the code is modelled as
written (members named `…AsWritten`), a lemma exhibits the disagreement, and the
intended definition, used by the rest of the model, is proved correct (see
"## Findings").

## Model

| member | source | states |
|---|---|---|
| DecimalDigits.ToDecimal | src/BigInt.cpp:37 | std::to_string of a non-negative number yields a canonical digit string (no leading zero) whose value is that number |
| DecimalDigits.IsValidNumber | include/functions/utility.hpp:21-27 | true exactly when every character is in '0'..'9'; the empty string is accepted |
| DecimalDigits.StripLeadingZeroes | include/functions/utility.hpp:36-46 | the result has no leading '0' unless it is "0"; an all-zero or empty input gives "0"; otherwise the result is the suffix starting at the first non-'0'; on digit strings the value is kept; an input without a leading zero is returned unchanged, so stripping is idempotent |
| DecimalDigits.AddLeadingZeroes | include/functions/utility.hpp:55-57 | the length grows by exactly num_zeroes, the new characters are '0' and precede the original text, and the value of a digit string is unchanged |
| DecimalDigits.AddTrailingZeroes | include/functions/utility.hpp:66-68 | the original text is followed by num_zeroes characters and the value of a digit string is multiplied by 10^num_zeroes |
| DecimalDigits.GetLargerAndSmaller | include/functions/utility.hpp:79-96 | both outputs have the length of the longer operand; `larger` is one operand and `smaller` the other padded with leading zeroes; `larger` is never below the other by length-then-lexicographic order, and ties go to num2 |
| DecimalDigits.LargerAndSmallerByValue | include/functions/utility.hpp:79-96 | on canonical operands `larger` holds the numeric maximum and the padded `smaller` the numeric minimum |
| DecimalDigits.IsPowerOf10 | include/functions/utility.hpp:104-112 | true exactly when the text is '1' followed only by '0's (an empty string reads '\0' and gives false) |
| DecimalDigits.NumOfPowerOf10String | include/functions/utility.hpp:104-112 | "1" followed by k zeroes is canonical and denotes 10^k |
| DecimalDigits.IsPowerOf10Exactly | include/functions/utility.hpp:104-112 | on canonical text, is_power_of_10 holds exactly when the value is a power of ten |
| DecimalDigits.LexLessIsNumLess | src/BigInt.cpp:166-167 | for canonical digit strings of equal length, string `<` is numeric `<` |
| DecimalDigits.CanonicalShorterIsSmaller | src/BigInt.cpp:168-169 | for canonical digit strings, the shorter one denotes the smaller number |
| DecimalDigits.CanonicalInjective | src/BigInt.cpp:155-157 | canonical digit strings with equal values are equal, so field equality is value equality |
| DecimalBigInt.FromInt | src/BigInt.cpp:36-44 | the reference conversion from an integer: canonical and denoting that integer |
| DecimalBigInt.Default | src/BigInt.cpp:26-29 | BigInt() is "0" with sign '+', canonical, denoting 0 |
| DecimalBigInt.FromLongLong | src/BigInt.cpp:36-44 | BigInt(long long) is canonical and denotes num for every long long, LLONG_MIN included |
| DecimalBigInt.FromString | src/BigInt.cpp:46-68 | succeeds exactly on an optional '+'/'-' followed by digits (empty magnitude allowed); the invalid case is the "Invalid input" exit, as an error carrying the input; the sign is '-' exactly after a leading '-'; the rest of the text is stored verbatim |
| DecimalBigInt.FromStringOfStdToString | src/BigInt.cpp:36-68 | parsing std::to_string(n) gives exactly BigInt(n) |
| DecimalBigInt.StringConstructorKeepsForm | src/BigInt.cpp:46-68 | "-0" gives a negative zero and "007" keeps its zeros; both are non-canonical, and "007" denotes 7 though it is not `==` to "7" |
| DecimalBigInt.Plus | src/BigInt.cpp:105-107 | unary + returns an operand with the same value |
| DecimalBigInt.Neg | src/BigInt.cpp:109-121 | unary - keeps `value`, negates the integer, preserves canonical form, and gives '+' for a '-' operand and for "0" |
| DecimalBigInt.NegInvolutive | src/BigInt.cpp:109-121 | -(-x) == x on canonical values |
| DecimalBigInt.NegOfNegativeZero | src/BigInt.cpp:109-121 | -x of the negative zero "-0" is the positive zero, so -(-x) == x fails there |
| DecimalBigInt.CanonicalUnique | src/BigInt.cpp:155-157 | canonical values denoting the same integer are field-for-field equal |
| DecimalBigInt.SignOfCanonical | src/BigInt.cpp:174-175 | on a canonical value the sign is '-' exactly when the value is negative, so opposite signs decide `<` correctly |
| DecimalBigInt.DigitOrderMeaning | src/BigInt.cpp:165-169 | for canonical digit strings, comparing the lengths and then the strings is numeric `<` |
| DecimalBigInt.Eq | src/BigInt.cpp:155-157 | `==` holds exactly for equal fields, and on canonical operands exactly for equal integers |
| DecimalBigInt.Ne | src/BigInt.cpp:159-161 | `!=` holds exactly for different fields, and on canonical operands exactly for different integers |
| DecimalBigInt.Less | src/BigInt.cpp:163-176 | on canonical operands `<` is the integer order, both directions, with the negative case reached through `-a > -b` |
| DecimalBigInt.Greater | src/BigInt.cpp:178-180 | on canonical operands `>` is integer `>` |
| DecimalBigInt.LessEq | src/BigInt.cpp:182-184 | on canonical operands `<=` is integer `<=` |
| DecimalBigInt.GreaterEq | src/BigInt.cpp:186-188 | on canonical operands `>=` is integer `>=` |
| DecimalBigInt.SortedListRelations | src/BigInt.cpp:155-188 | a strictly increasing list of canonical values satisfies all six relations pairwise, as test/test.cpp:47-80 checks |
| DecimalBigInt.EqLong | src/BigInt.cpp:190-192 | compares against BigInt(num); on canonical x, `x == num` holds exactly when x denotes num |
| DecimalBigInt.NeLong | src/BigInt.cpp:194-196 | on canonical x, `x != num` holds exactly when x does not denote num |
| DecimalBigInt.LessLong | src/BigInt.cpp:198-200 | on canonical x, `x < num` is the integer `<` |
| DecimalBigInt.GreaterLong | src/BigInt.cpp:202-204 | on canonical x, `x > num` is the integer `>` |
| DecimalBigInt.LessEqLong | src/BigInt.cpp:206-208 | on canonical x, `x <= num` is the integer `<=` |
| DecimalBigInt.GreaterEqLong | src/BigInt.cpp:210-212 | on canonical x, `x >= num` is the integer `>=` |
| DecimalBigInt.NonCanonicalComparisons | src/BigInt.cpp:155-204 | on text the constructor keeps, the long long comparisons follow the text: "007" denotes 7 but is not `== 7` and is `> 10` by length, and "-0" is `< 0` |
| DecimalBigInt.EqStr | src/BigInt.cpp:214-216 | `x == str` fails as the string constructor does on invalid text, otherwise is `==` against BigInt(str) |
| DecimalBigInt.NeStr | src/BigInt.cpp:218-220 | `x != str`: the constructor's error, otherwise `!=` against BigInt(str) |
| DecimalBigInt.LessStr | src/BigInt.cpp:222-224 | `x < str`: the constructor's error, otherwise `<` against BigInt(str) |
| DecimalBigInt.GreaterStr | src/BigInt.cpp:226-228 | `x > str`: the constructor's error, otherwise `>` against BigInt(str) |
| DecimalBigInt.LessEqStr | src/BigInt.cpp:230-232 | `x <= str`: the constructor's error, otherwise `<=` against BigInt(str) |
| DecimalBigInt.GreaterEqStr | src/BigInt.cpp:234-236 | `x >= str`: the constructor's error, otherwise `>=` against BigInt(str) |
| DecimalBigInt.StringRelationsMeaning | src/BigInt.cpp:214-236 | comparing a canonical x with the decimal text of n succeeds and gives the integer relation |
| DecimalBigInt.Abs | include/functions/math.hpp:25-27 | abs keeps the magnitude text and denotes its number for every well-formed input; the sign is `'+'` unless the text is empty; on canonical input the result is canonical and is the absolute value |
| DecimalBigInt.AbsMeaning | include/functions/math.hpp:25-27 | abs(x) == -x for negative x, abs(x) == x otherwise, and the result is never negative |
| DecimalConversion.ToString | include/functions/conversion.hpp:17-20 | to_string is `value`, prefixed with "-" exactly when the sign is '-' |
| DecimalConversion.ToStringOfLongLong | include/functions/conversion.hpp:17-20 | BigInt(n).to_string() == std::to_string(n) for every long long n |
| DecimalConversion.FromStringOfToString | include/functions/conversion.hpp:17-20 | the string constructor rebuilds every well-formed BigInt from its to_string text |
| DecimalConversion.DigitPrefix | include/functions/conversion.hpp:31-59 | the longest leading run of digits that stoi/stol/stoll reads: all digits, a prefix, and followed by a non-digit or the end |
| DecimalConversion.StringToInteger | include/functions/conversion.hpp:31-59 | stoi/stol/stoll: a success lies in the target range; a failure is invalid_argument (no digits) or out_of_range |
| DecimalConversion.StringToIntegerOfToString | include/functions/conversion.hpp:31-59 | on to_string text the conversion gives the value when it fits, out_of_range when it does not, and invalid_argument on an empty magnitude |
| DecimalConversion.ToInt32 | include/functions/conversion.hpp:31-33 | to_int succeeds exactly when the value fits an int, returns the value, and otherwise raises out_of_range (invalid_argument on an empty magnitude) |
| DecimalConversion.ToLong | include/functions/conversion.hpp:44-46 | to_long, the same with the 64-bit long range |
| DecimalConversion.ToLongLong | include/functions/conversion.hpp:57-59 | to_long_long, the same with the long long range |
| DecimalConversion.ConversionRoundTrips | include/functions/conversion.hpp:31-59 | BigInt(n).to_int() == n for int n, and likewise for long and long long, as test/functions/conversion.test.cpp:22-53 checks |
| DecimalConversion.ToInt32OutOfRange | include/functions/conversion.hpp:31-33 | a canonical value outside the int range makes to_int raise out_of_range |
| DecimalArithmetic.AddColumn | include/operators/binary_arithmetic.hpp:52-54 | one column of the carry loop: the new digit is a digit, the carry stays 0 or 1, and the running value equation is kept |
| DecimalArithmetic.AddDigits | include/operators/binary_arithmetic.hpp:47-57 | the carry loop yields only digits and the value of the sum of the two magnitudes; the result is as long as the operands or one longer, and then led by the carry '1' |
| DecimalArithmetic.BorrowValue | include/operators/binary_arithmetic.hpp:113-123 | lowering the nearest non-zero digit and turning the zeros after it into '9' lowers the value in front of the column by exactly one |
| DecimalArithmetic.SubColumn | include/operators/binary_arithmetic.hpp:110-126 | after a borrow the column difference is a digit and the running difference equation of the borrow loop is kept |
| DecimalArithmetic.Borrow | include/operators/binary_arithmetic.hpp:113-123 | the borrow loops keep every digit from the column on, and the digits in front of it lose exactly one unit of value |
| DecimalArithmetic.SubtractColumn | include/operators/binary_arithmetic.hpp:110-126 | one column of the borrow loop: the partly borrowed `larger` still dominates `smaller` and the value equation is kept |
| DecimalArithmetic.SubtractDigits | include/operators/binary_arithmetic.hpp:106-127 | the borrow loop yields only digits, as many as `larger` has, and the value larger − smaller |
| DecimalArithmetic.SumIsCanonical | include/operators/binary_arithmetic.hpp:51-57 | a digit sum no smaller than a canonical operand, possibly led by the final carry, has no leading zero |
| DecimalArithmetic.Add | include/operators/binary_arithmetic.hpp:30-64 | operator+ on canonical operands, through the mixed-sign reductions to operator- at lines 32-41, is canonical and denotes the integer sum; a zero sum is '+' |
| DecimalArithmetic.Sub | include/operators/binary_arithmetic.hpp:73-135 | operator- on canonical operands, through the mixed-sign reductions to operator+, the sign rule at lines 89-102 and the stripping of lines 128-132, is canonical and denotes the integer difference |
| DecimalArithmetic.SubSelfIsZero | include/operators/binary_arithmetic.hpp:128-132 | a − a is the canonical positive zero BigInt() |
| DecimalArithmetic.FastPathGuardAsWritten | include/operators/binary_arithmetic.hpp:154 | the written guard holds exactly when both signed values are at most FLOOR_SQRT_LONG_LONG_MAX |
| DecimalArithmetic.FastPathGuard | include/operators/binary_arithmetic.hpp:154 | the corrected guard holds exactly when both magnitudes are at most FLOOR_SQRT_LONG_LONG_MAX |
| DecimalArithmetic.FastPathFits | include/operators/binary_arithmetic.hpp:154-155 | under the corrected guard stoll reads both magnitudes and their product fits a long long |
| DecimalArithmetic.FastPathGuardAsWrittenAdmitsHugeNegative | include/operators/binary_arithmetic.hpp:154-155 | −10^20 passes the written guard, fails the corrected one, and stoll of its magnitude is out_of_range |
| DecimalArithmetic.NativeProduct | include/operators/binary_arithmetic.hpp:155 | the fast path gives the canonical '+' product of the two magnitudes |
| DecimalArithmetic.FromDigits | include/operators/binary_arithmetic.hpp:165-175 | a half built from a substring and stripped of leading zeroes is canonical, '+', and denotes the substring's value |
| DecimalArithmetic.AppendZeros | include/operators/binary_arithmetic.hpp:182-187 | add_trailing_zeroes then strip_leading_zeroes on a partial product scales it by 10^k and stays canonical |
| DecimalArithmetic.SplitDigits | include/operators/binary_arithmetic.hpp:161-170 | a digit string is its high part times 10^c plus its low part, c = ceil(len/2) being the length of the low part |
| DecimalArithmetic.KaratsubaShrinks | include/operators/binary_arithmetic.hpp:156-180 | off the fast path the larger operand has at least five digits and every recursive product has a smaller sum of operands, so the recursion terminates |
| DecimalArithmetic.KaratsubaIdentity | include/operators/binary_arithmetic.hpp:177-189 | (h1·p + l1)(h2·p + l2) = h1h2·p² + ((h1+l1)(h2+l2) − h1h2 − l1l2)·p + l1l2 |
| DecimalArithmetic.KaratsubaRecombines | include/operators/binary_arithmetic.hpp:177-189 | high·10^(2c) + mid·10^c + low equals |a|·|b| for the halves of lines 164-175 |
| DecimalArithmetic.SignedProduct | include/operators/binary_arithmetic.hpp:192-195 | the product of two non-zero signed magnitudes is positive exactly when the signs agree |
| DecimalArithmetic.SetProductSign | include/operators/binary_arithmetic.hpp:192-195 | giving the magnitude product '+' for equal signs and '-' otherwise yields the canonical signed product |
| DecimalArithmetic.Mul | include/operators/binary_arithmetic.hpp:145-198 | operator* on canonical operands, through the zero and one shortcuts, the fast path and Karatsuba's method, is canonical and denotes the integer product |
| DecimalArithmetic.TrivialProducts | include/operators/binary_arithmetic.hpp:146-151 | a zero operand gives 0, and an operand equal to 1 gives the other |
| DecimalArithmetic.SplitOperands | include/operators/binary_arithmetic.hpp:161-175 | the four halves are canonical '+' values denoting the high and low substrings of `larger` and `smaller` |
| DecimalArithmetic.Recombine | include/operators/binary_arithmetic.hpp:182-189 | the shifted partial products sum to high·10^(2c) + mid·10^c + low, canonically |
| DecimalArithmetic.Karatsuba | include/operators/binary_arithmetic.hpp:156-190 | the Karatsuba branch gives the canonical '+' product of the two magnitudes |
| DecimalArithmetic.AddLong | include/operators/binary_arithmetic.hpp:206-208 | x + num with a long long is the integer sum |
| DecimalArithmetic.SubLong | include/operators/binary_arithmetic.hpp:216-218 | x − num with a long long is the integer difference |
| DecimalArithmetic.MulLong | include/operators/binary_arithmetic.hpp:226-228 | x * num with a long long is the integer product |
| DecimalArithmetic.AddStr | include/operators/binary_arithmetic.hpp:236-238 | x + str fails exactly when the string constructor rejects str, with its error; otherwise it is the sum with BigInt(str) |
| DecimalArithmetic.SubStr | include/operators/binary_arithmetic.hpp:246-248 | x − str: the constructor's error, otherwise the difference with BigInt(str) |
| DecimalArithmetic.MulStr | include/operators/binary_arithmetic.hpp:256-258 | x * str: the constructor's error, otherwise the product with BigInt(str) |
| DecimalDivision.TruncDivisionHolds | include/BigInt.hpp:39-40 | the C++ quotient and remainder satisfy a == b·q + r with |r| < |b| and r taking a's sign |
| DecimalDivision.TruncDivisionUnique | include/BigInt.hpp:39-40 | any pair with those properties is the C++ quotient and remainder |
| DecimalDivision.TruncRemainderUnique | include/BigInt.hpp:40 | a remainder with the truncating properties is the C++ remainder |
| DecimalDivision.TruncDivOfNatural | include/BigInt.hpp:39-40 | on a non-negative dividend and positive divisor, C++ division is floor division |
| DecimalDivision.Div | include/BigInt.hpp:39 | `/` fails exactly on a zero divisor; otherwise it is canonical and its quotient leaves a remainder with the truncating properties |
| DecimalDivision.Mod | include/BigInt.hpp:40 | `%` fails exactly on a zero divisor; otherwise it is canonical, small, takes the dividend's sign, and differs from the dividend by a multiple of the divisor |
| DecimalDivision.DivModIdentity | include/BigInt.hpp:39-40 | a == (a / b)·b + a % b, the quotient being truncated toward zero |
| DecimalDivision.DivModOfNatural | include/BigInt.hpp:39-40 | a non-negative dividend and positive divisor give a non-negative floor quotient and remainder |
| DecimalDivision.DivLong | include/BigInt.hpp:44 | `/` by a long long fails exactly on 0, otherwise gives the truncated quotient |
| DecimalDivision.ModLong | include/BigInt.hpp:45 | `%` by a long long fails exactly on 0, otherwise gives the truncated remainder |
| DecimalDivision.DivStr | include/BigInt.hpp:49 | `/` by a string: the constructor's error on invalid text, division by zero on a zero value, otherwise the truncated quotient |
| DecimalDivision.ModStr | include/BigInt.hpp:50 | `%` by a string: the constructor's error, division by zero, otherwise the truncated remainder |
| DecimalPow.BigPow10 | include/functions/math.hpp:37-39 | big_pow10(e) is "1" followed by e zeroes, canonical and '+', and denotes 10^e |
| DecimalPow.IntPowSquare | include/functions/math.hpp:64 | squaring the base doubles the exponent |
| DecimalPow.PowStep | include/functions/math.hpp:61-66 | one round of the loop keeps result^exp · result_odd unchanged |
| DecimalPow.Pow | include/functions/math.hpp:48-69 | pow fails exactly on a zero base with exp <= 0, with "Cannot divide by zero" or "Zero cannot be raised to zero"; a negative exp gives base when |base| == 1 and 0 otherwise; exp >= 0 gives base^exp |
| DecimalPow.PowLong | include/functions/math.hpp:78-80 | pow(long long, int) has the same cases on the converted base: it fails exactly for base 0 with exp <= 0, with the same two logic_error messages; otherwise the same results for negative and non-negative exponents |
| DecimalPow.PowStr | include/functions/math.hpp:89-92 | pow(string, int): the constructor's error on invalid text; otherwise the same failure condition and logic_error messages, and the same results for negative and non-negative exponents, on the parsed base |
| DecimalShift.ShiftLeft | include/operators/bitwise.hpp:23-39 | `<<` by a negative amount throws "Expected non-negative integer"; otherwise it is x·2^num with the sign of x, and a shift by 0 returns x |
| DecimalShift.ShiftRight | include/operators/bitwise.hpp:48-69 | `>>` by a negative amount throws; otherwise, for any well-formed x (leading zeros allowed), it is x / 2^num truncated toward zero; a shift by 1 or more is canonical and a zero result is BigInt(); a shift by 0 returns x unchanged |
| DecimalShift.HalveStep | include/operators/bitwise.hpp:58 | halving the truncated quotient by 2^i gives the truncated quotient by 2^(i+1) |
| DecimalShift.QuotientStaysZero | include/operators/bitwise.hpp:60-63 | once the quotient is 0, every further halving stays 0, so the early return is x / 2^num |
| DecimalShift.QuotientKeepsSign | include/operators/bitwise.hpp:66 | a non-zero truncated quotient has the dividend's sign, so restoring the original sign is right |
| DecimalShift.ShiftRightUndoesShiftLeft | include/operators/bitwise.hpp:23-69 | (x·2^k) >> k gives back x |
| DecimalSqrt.FloorSqrt | include/functions/math.hpp:95-99 | the reference integer square root s, with s·s <= n < (s+1)·(s+1) |
| DecimalSqrt.FloorSqrtUnique | include/functions/math.hpp:95-99 | those bounds single out the integer square root |
| DecimalSqrt.StepFacts | include/functions/math.hpp:126 | one step (n / x + x) / 2 never lands below the root, falls strictly from above it, rises at most one from the root, and falls by at least two from three or more above it |
| DecimalSqrt.RoundDecreases | include/functions/math.hpp:124-127 | a round that does not stop keeps the loop state and lowers the termination measure, so the loop ends |
| DecimalSqrt.StopNearRoot | include/functions/math.hpp:124 | when two successive estimates differ by at most one, the current one is the root or one above it |
| DecimalSqrt.NewtonNearRoot | include/functions/math.hpp:116-129 | the estimate the loop returns, from any reachable state, is the root or one above it |
| DecimalSqrt.SqrtAsWritten | include/functions/math.hpp:107-129 | sqrt as written: the small-input answers for 0, 1..3, 4..8 and 9..15, and otherwise the Newton estimate from 10^(digits/2 - 1), always within one above floor(√n) |
| DecimalSqrt.SqrtAsWrittenOf48 | include/functions/math.hpp:116-129 | sqrt(48) as written is 7, while floor(√48) is 6 |
| DecimalSqrt.NewtonOf48 | include/functions/math.hpp:124-127 | from the estimate 1 the loop on 48 passes 24, 13, 8 and stops at 7 |
| DecimalSqrt.NewtonRound | include/functions/math.hpp:125-126 | one round computes (num / prev + prev) / 2 exactly |
| DecimalSqrt.Sqrt | include/functions/math.hpp:102-130 | sqrt throws "Cannot compute square root of a negative integer" exactly on a negative input, and otherwise returns the as-written estimate, which lies in [floor(√n), floor(√n) + 1] |
| DecimalSqrt.NewtonAdvance | include/functions/math.hpp:125-126 | one loop pass keeps the loop state, keeps the estimate the loop will return, and lowers the measure |
| DecimalSqrt.NewtonStart | include/functions/math.hpp:116-122 | before the loop sqrt_prev is -1 and sqrt_current is 10^(digits/2 - 1) |
| DecimalSqrt.NewtonLoop | include/functions/math.hpp:116-129 | the loop returns the Newton estimate SqrtAsWritten describes |
| DecimalSqrt.SqrtFloor | include/functions/math.hpp:102-130 | the corrected sqrt fails exactly on a negative input and otherwise returns floor(√n) |
| DecimalSqrt.EstimateCases | include/functions/math.hpp:129 | an estimate within one above the root is the root, or one more exactly when its square exceeds n |
| DecimalGcd.GcdDivides | include/functions/math.hpp:140-158 | Euclid's gcd divides both operands |
| DecimalGcd.GcdGreatest | include/functions/math.hpp:140-158 | every common divisor divides the gcd |
| DecimalGcd.GcdCommutes | include/functions/math.hpp:140-158 | gcd is symmetric |
| DecimalGcd.GcdZero | include/functions/math.hpp:145-148 | gcd(a, 0) = a and gcd(0, b) = b; the gcd is zero only for two zeros |
| DecimalGcd.GcdIsGreatest | include/functions/math.hpp:140-158 | no common divisor exceeds the gcd when one operand is non-zero |
| DecimalGcd.ReferenceGcdAgrees | include/functions/math.hpp:140-158 | the recursive gcd of test/functions/math.cpp:281-283, on signed values and C++ `%`, is Euclid's gcd of the absolute values |
| DecimalGcd.Gcd | include/functions/math.hpp:140-158 | gcd of well-formed operands: a zero divisor reaching `%` (b a non-canonical zero such as "000" while neither text is "0") gives the division-by-zero error exactly then; otherwise Euclid's gcd of the absolute values; b == "0" gives abs(a), a == "0" gives abs(b); canonical operands never fail and give a canonical result |
| DecimalGcd.GcdBigIntLong | include/functions/math.hpp:221-223 | gcd(BigInt, long long) on any well-formed BigInt never fails, is the gcd of the absolute values, and is canonical when the BigInt is |
| DecimalGcd.GcdLongBigInt | include/functions/math.hpp:241-243 | gcd(long long, BigInt): the division-by-zero error exactly when gcd meets a zero divisor, otherwise the gcd of the absolute values; canonical BigInt operands never fail and give a canonical result |
| DecimalGcd.GcdBigIntStr | include/functions/math.hpp:231-233 | gcd(BigInt, string): the constructor's error on invalid text; on valid text the division-by-zero error exactly when gcd meets a zero divisor, otherwise the gcd of the absolute values; canonical operands give a canonical result |
| DecimalGcd.GcdStrBigInt | include/functions/math.hpp:251-253 | gcd(string, BigInt): the same with the string first |
| DecimalGcd.GcdDividesByZeroCases | include/functions/math.hpp:145-152 | gcd(5, "000") passes both zero tests and reaches `%` with a zero divisor; gcd(14, "007") and gcd("000", 5) do not |
| DecimalGcd.LcmIsCommonMultiple | include/functions/math.hpp:262-267 | a number whose product with gcd(a, b) is a·b is a multiple of both a and b |
| DecimalGcd.GcdDividesProduct | include/functions/math.hpp:266 | |a·b| is an exact multiple of gcd(a, b), so the division in lcm leaves no remainder |
| DecimalGcd.Lcm | include/functions/math.hpp:262-267 | lcm is 0 when either operand is 0; otherwise it is positive and lcm · gcd == |a·b| |
| DecimalGcd.LcmBigIntLong | include/functions/math.hpp:275-277 | lcm(BigInt, long long), with the same three properties |
| DecimalGcd.LcmLongBigInt | include/functions/math.hpp:295-297 | lcm(long long, BigInt), with the same three properties |
| DecimalGcd.LcmBigIntStr | include/functions/math.hpp:285-287 | lcm(BigInt, string): the constructor's error on invalid text; otherwise canonical, 0 when either operand is 0, and else positive with lcm · gcd equal to the absolute value of num1 · num2 |
| DecimalGcd.LcmStrBigInt | include/functions/math.hpp:305-307 | lcm(string, BigInt): the same properties with the string first |
| DecimalVar.BigIntVar.constructor | src/BigInt.cpp:26-29 | a fresh object holds "0" with sign '+' |
| DecimalVar.BigIntVar.Copy | src/BigInt.cpp:31-34 | the copy holds the same `value` and `sign` |
| DecimalVar.BigIntVar.FromLong | src/BigInt.cpp:36-44 | the object holds BigInt(num), which denotes num |
| DecimalVar.BigIntVar.FromText | src/BigInt.cpp:46-68 | rejected text is the "Invalid input" exit, as a failure; otherwise a fresh object holds the parsed fields |
| DecimalVar.BigIntVar.Assign | src/BigInt.cpp:76-81 | operator= copies both fields and returns the new value |
| DecimalVar.BigIntVar.AssignLong | src/BigInt.cpp:83-89 | operator=(long long) stores BigInt(num), which denotes num |
| DecimalVar.BigIntVar.AssignStr | src/BigInt.cpp:91-97 | operator=(string) stores BigInt(num); rejected text fails and leaves the object as it was |
| DecimalVar.BigIntVar.AddAssign | include/operators/arithmetic_assignment.hpp:21-25 | `+=` leaves the receiver at old + num, canonical, and returns it |
| DecimalVar.BigIntVar.SubAssign | include/operators/arithmetic_assignment.hpp:33-37 | `-=` leaves the receiver at old − num |
| DecimalVar.BigIntVar.MulAssign | include/operators/arithmetic_assignment.hpp:45-49 | `*=` leaves the receiver at old · num |
| DecimalVar.BigIntVar.DivAssign | include/operators/arithmetic_assignment.hpp:57-61 | `/=` fails on a zero divisor without touching the receiver, otherwise leaves it at the truncated quotient |
| DecimalVar.BigIntVar.ModAssign | include/operators/arithmetic_assignment.hpp:69-73 | `%=` fails on a zero divisor without touching the receiver, otherwise leaves it at the truncated remainder |
| DecimalVar.BigIntVar.AddAssignLong | include/operators/arithmetic_assignment.hpp:81-85 | `+= long long` is `+=` with BigInt(num): old + num |
| DecimalVar.BigIntVar.SubAssignLong | include/operators/arithmetic_assignment.hpp:93-97 | `-= long long`: old − num |
| DecimalVar.BigIntVar.MulAssignLong | include/operators/arithmetic_assignment.hpp:105-109 | `*= long long`: old · num |
| DecimalVar.BigIntVar.DivAssignLong | include/operators/arithmetic_assignment.hpp:117-121 | `/= long long`: fails exactly on 0, otherwise the truncated quotient |
| DecimalVar.BigIntVar.ModAssignLong | include/operators/arithmetic_assignment.hpp:129-133 | `%= long long`: fails exactly on 0, otherwise the truncated remainder |
| DecimalVar.BigIntVar.AddAssignStr | include/operators/arithmetic_assignment.hpp:141-145 | `+= string`: the constructor's error with the receiver unchanged, otherwise old + BigInt(num) |
| DecimalVar.BigIntVar.SubAssignStr | include/operators/arithmetic_assignment.hpp:153-157 | `-= string`: the constructor's error, otherwise old − BigInt(num) |
| DecimalVar.BigIntVar.MulAssignStr | include/operators/arithmetic_assignment.hpp:165-169 | `*= string`: the constructor's error, otherwise old · BigInt(num) |
| DecimalVar.BigIntVar.DivAssignStr | include/operators/arithmetic_assignment.hpp:177-181 | `/= string`: the constructor's error or division by zero with the receiver unchanged, otherwise the truncated quotient |
| DecimalVar.BigIntVar.ModAssignStr | include/operators/arithmetic_assignment.hpp:189-193 | `%= string`: the constructor's error or division by zero, otherwise the truncated remainder |
| DecimalVar.BigIntVar.PreIncrement | include/operators/increment_decrement.hpp:23-27 | ++x leaves the receiver at old + 1 and returns the new value |
| DecimalVar.BigIntVar.PreDecrement | include/operators/increment_decrement.hpp:36-40 | --x leaves the receiver at old − 1 and returns the new value |
| DecimalVar.BigIntVar.PostIncrement | include/operators/increment_decrement.hpp:49-54 | x++ returns the old value and leaves the receiver at old + 1 |
| DecimalVar.BigIntVar.PostDecrement | include/operators/increment_decrement.hpp:63-68 | x-- returns the old value and leaves the receiver at old − 1 |
| DecimalVar.IncrementThenDecrement | include/operators/increment_decrement.hpp:23-40 | ++x followed by --x restores the very same fields |
| LimbBigInt.NormalSign | include/operators/relational.hpp:40-57 | on a normalised BigInt, `is_negative` holds exactly when the value is negative, and the value is zero exactly for the single zero limb with a '+' sign |
| LimbBigInt.NormalUnique | include/operators/relational.hpp:20-22 | two normalised BigInts with the same value have the same limbs and sign |
| LimbBigInt.SingleLimb | include/operators/relational.hpp:95-101 | a normalised BigInt whose size is below 2^64 has one limb, holding that size |
| LimbBigInt.OneLimbValue | include/operators/relational.hpp:95-101 | a one-limb magnitude denotes that limb |
| LimbBigInt.Default | include/constructors/constructors.hpp:19-22 | BigInt() is normalised and denotes 0 |
| LimbBigInt.FromInt64 | include/constructors/constructors.hpp:41-52 | BigInt(long long) is normalised, has one limb and denotes num |
| LimbBigInt.FromString | include/constructors/constructors.hpp:60-90 | invalid text fails with invalid_argument "Expected an integer, got '…'"; valid text leaves the magnitude {0}, negative exactly when the text starts with '-' |
| LimbBigInt.UnsignedStringIsZero | include/constructors/constructors.hpp:60-90 | valid text without a leading '-' builds the default zero |
| LimbBigInt.Plus | include/operators/unary_arithmetic.hpp:22-24 | unary + gives an identical copy with the same value |
| LimbBigInt.NegAsWritten | include/operators/unary_arithmetic.hpp:33-43 | unary - as written keeps the limbs |
| LimbBigInt.Neg | include/operators/unary_arithmetic.hpp:33-43 | unary - as intended keeps the limbs, denotes the negated value, never gives a negative zero and keeps a BigInt normalised |
| LimbBigInt.NegInvolutive | include/operators/unary_arithmetic.hpp:33-43 | -(-x) is x for normalised x |
| LimbBigInt.NegAsWrittenOnNegative | include/operators/unary_arithmetic.hpp:33-43 | on a negative operand the written - agrees with the intended one |
| LimbBigInt.NegAsWrittenKeepsSingleLimbSign | include/operators/unary_arithmetic.hpp:39 | the written - leaves 1234567890 unchanged, where -1234567890 is intended |
| LimbBigInt.Eq | include/operators/relational.hpp:20-22 | == holds exactly for equal fields, and on normalised values exactly for equal integers |
| LimbBigInt.Ne | include/operators/relational.hpp:30-32 | != is the negation of ==, and on normalised values integer inequality |
| LimbBigInt.MagLess | include/operators/relational.hpp:50-56 | the limb loop of < on equal lengths holds exactly when the first magnitude is numerically smaller |
| LimbBigInt.TopLimbOrder | include/operators/relational.hpp:52-53 | when the top limbs differ, the smaller top limb belongs to the smaller magnitude |
| LimbBigInt.EqualTopLimb | include/operators/relational.hpp:51-52 | equal top limbs leave the order to the limbs below |
| LimbBigInt.LessAsWritten | include/operators/relational.hpp:40-57 | as written, equal signs answer `is_negative` whatever the magnitudes, and a non-negative left operand against a negative one answers by magnitude, not by sign |
| LimbBigInt.LessAsWrittenWrongOnEqualSigns | include/operators/relational.hpp:42 | as written, 1 < 2 is false and -1 < -1 is true |
| LimbBigInt.LessAsWrittenNegativeBelowZero | include/operators/relational.hpp:42-45 | as written, -5 < 0 is false after one call on the negations, where the intended < is true |
| LimbBigInt.LessAsWrittenDiverges | include/operators/relational.hpp:42-45 | as written, -(2^64+1) < 2^64+1 recurses on the same operands for every fuel bound |
| LimbBigInt.Less | include/operators/relational.hpp:40-57 | < with the sign test corrected to `!=`: on normalised values it is the integer order, both directions |
| LimbBigInt.Greater | include/operators/relational.hpp:65-67 | on normalised values, > is integer > |
| LimbBigInt.LessEq | include/operators/relational.hpp:75-77 | on normalised values, <= is integer <= |
| LimbBigInt.GreaterEq | include/operators/relational.hpp:85-87 | on normalised values, >= is integer >= |
| LimbBigInt.SortedListRelations | include/operators/relational.hpp:20-87 | in a strictly increasing list, each of the six relations between two entries holds exactly when it holds between their positions |
| LimbBigInt.EqInt64 | include/operators/relational.hpp:95-101 | on a normalised BigInt, == int64_t is integer equality |
| LimbBigInt.EqInt64Meaning | include/operators/relational.hpp:95-101 | the field test "same sign, one limb, limb == llabs(num)" holds exactly when the values are equal |
| LimbBigInt.EqInt64Left | include/operators/relational.hpp:109-111 | on a normalised BigInt, int64_t == BigInt is integer equality |
| LimbBigInt.NeInt64 | include/operators/relational.hpp:119-121 | on a normalised BigInt, != int64_t is integer inequality |
| LimbBigInt.NeInt64Left | include/operators/relational.hpp:129-131 | on a normalised BigInt, int64_t != BigInt is integer inequality |
| LimbBigInt.LessInt64 | include/operators/relational.hpp:139-150 | on a normalised BigInt, < int64_t is integer < |
| LimbBigInt.GreaterInt64 | include/operators/relational.hpp:168-170 | on a normalised BigInt, > int64_t is integer > |
| LimbBigInt.OneLimbBelow | include/operators/relational.hpp:148-149 | a non-negative normalised BigInt is below a non-negative num exactly when it has one limb and that limb is below num |
| LimbBigInt.LessInt64Left | include/operators/relational.hpp:158-160 | on a normalised BigInt, int64_t < BigInt is integer < |
| LimbBigInt.GreaterInt64Left | include/operators/relational.hpp:178-179 | on a normalised BigInt, int64_t > BigInt is integer > |
| LimbBigInt.LessEqInt64 | include/operators/relational.hpp:188-189 | on a normalised BigInt, <= int64_t is integer <= |
| LimbBigInt.LessEqInt64Left | include/operators/relational.hpp:198-199 | on a normalised BigInt, int64_t <= BigInt is integer <= |
| LimbBigInt.GreaterEqInt64 | include/operators/relational.hpp:208-209 | on a normalised BigInt, >= int64_t is integer >= |
| LimbBigInt.GreaterEqInt64Left | include/operators/relational.hpp:218-219 | on a normalised BigInt, int64_t >= BigInt is integer >= |
| LimbBigInt.NegativeZeroRelations | include/constructors/constructors.hpp:60-90 | the negative zero a '-' string builds equals no normalised BigInt, is above every negative one and below every other one |
| LimbBigInt.NegativeZeroComparisons | include/operators/relational.hpp:139-199 | BigInt("-7") is the negative zero: it denotes 0, yet `0 <= x` is false and `x < "5"` is true |
| LimbBigInt.StringOperandRelations | include/operators/relational.hpp:228-339 | against a string, == and the two orders mean comparison with 0 (unsigned text) or with the negative zero (text starting with '-') |
| LimbBigInt.EqStr | include/operators/relational.hpp:228-229 | invalid text fails with invalid_argument; otherwise, on a normalised x, x == num holds exactly when num has no '-' and x is 0 |
| LimbBigInt.EqStrLeft | include/operators/relational.hpp:238-239 | the same for num == x |
| LimbBigInt.NeStr | include/operators/relational.hpp:248-249 | invalid text fails; otherwise, on a normalised x, x != num holds exactly when num has a '-' or x is not 0 |
| LimbBigInt.NeStrLeft | include/operators/relational.hpp:258-259 | the same for num != x |
| LimbBigInt.LessStr | include/operators/relational.hpp:268-269 | invalid text fails; otherwise, on a normalised x, x < num holds exactly when x is negative |
| LimbBigInt.LessStrLeft | include/operators/relational.hpp:278-279 | invalid text fails; otherwise, on a normalised x, num < x means x > 0 for unsigned text and x >= 0 for '-' text |
| LimbBigInt.GreaterStr | include/operators/relational.hpp:288-289 | invalid text fails; otherwise, on a normalised x, x > num means x > 0 for unsigned text and x >= 0 for '-' text |
| LimbBigInt.GreaterStrLeft | include/operators/relational.hpp:298-299 | invalid text fails; otherwise, on a normalised x, num > x holds exactly when x is negative |
| LimbBigInt.LessEqStr | include/operators/relational.hpp:308-309 | invalid text fails; otherwise, on a normalised x, x <= num means x <= 0 for unsigned text and x < 0 for '-' text |
| LimbBigInt.LessEqStrLeft | include/operators/relational.hpp:318-319 | invalid text fails; otherwise, on a normalised x, num <= x holds exactly when x >= 0 |
| LimbBigInt.GreaterEqStr | include/operators/relational.hpp:328-329 | invalid text fails; otherwise, on a normalised x, x >= num holds exactly when x >= 0 |
| LimbBigInt.GreaterEqStrLeft | include/operators/relational.hpp:338-339 | invalid text fails; otherwise, on a normalised x, num >= x means x <= 0 for unsigned text and x < 0 for '-' text |
| LimbVar.LimbBigIntVar.constructor | include/constructors/constructors.hpp:19-22 | a fresh object holds one zero limb, non-negative, denoting 0 |
| LimbVar.LimbBigIntVar.Copy | include/constructors/constructors.hpp:30-33 | the copy holds the same limbs and sign and compares equal |
| LimbVar.LimbBigIntVar.FromInt64 | include/constructors/constructors.hpp:41-52 | the object holds the single limb llabs(num), is normalised and denotes num |
| LimbVar.LimbBigIntVar.FromText | include/constructors/constructors.hpp:60-90 | invalid text is the invalid_argument failure; valid text gives a fresh object with magnitude {0}, negative exactly for a leading '-' |
| LimbVar.LimbBigIntVar.Assign | include/operators/assignment.hpp:19-24 | both fields are copied, the object returned and compared equal to num |
| LimbVar.LimbBigIntVar.AssignInt64 | include/operators/assignment.hpp:32-37 | the object becomes BigInt(num), denotes num and compares equal to num |
| LimbVar.LimbBigIntVar.AssignStr | include/operators/assignment.hpp:45-51 | the object takes the fields of BigInt(num); invalid text fails and leaves the object unchanged |
| Limbs.LimbValAppend | include/functions/utility.hpp:123-127 | the value of a concatenation is the low part plus the high part scaled by 2^(64 times the low part's length) |
| Limbs.AddLeadingZeroLimbs | include/functions/utility.hpp:123-127 | num_zeroes zero limbs go in front of num, so the value is multiplied by 2^(64 num_zeroes) |
| Limbs.AddTrailingZeroLimbs | include/functions/utility.hpp:136-139 | num_zeroes zero limbs are pushed at the most significant end, and the value is unchanged |
| Limbs.StripTrailingZeroLimbs | include/functions/utility.hpp:147-151 | the pop loop leaves exactly Stripped(num) |
| Limbs.StrippedShape | include/functions/utility.hpp:147-151 | the result is a prefix of num, keeps at least one limb of a non-empty vector, has no zero limb on top unless it is the lone limb, and only zero limbs were removed |
| Limbs.StrippedValue | include/functions/utility.hpp:147-151 | stripping keeps the value |
| Limbs.StrippedIdempotent | include/functions/utility.hpp:147-151 | stripping twice is stripping once |
| Limbs.NormalInjective | include/functions/utility.hpp:147-151 | two stripped non-empty vectors with equal values are equal |
| Limbs.GetLargerAndSmallerLimbs | include/functions/utility.hpp:162-178 | the longer vector is `larger` (num2 on a tie, values not compared); the other is padded with zero limbs to the same length and keeps its value |
| BigInt64.Digits64Value | include/BigInt64/constructors/constructors.cpp:32-36 | the base-2^64 digits of n denote n |
| BigInt64.Digits64Shape | include/BigInt64/constructors/constructors.cpp:32-36 | the digits are empty exactly for 0, and otherwise end in a non-zero limb |
| BigInt64.DigitsOfLimbVal | include/BigInt64/constructors/constructors.cpp:32-36 | every limb vector without a zero limb on top is the digits of its own value |
| BigInt64.ZeroRepresentations | include/BigInt64/constructors/constructors.cpp:5-10 | the loop gives zero no limbs, while the default constructor stores one zero limb; both denote 0 |
| BigInt64.BaseTextValue | include/BigInt64/constructors/constructors.cpp:30 | "18446744073709551616" is a canonical decimal whose value is 2^64 |
| BigInt64.Base | include/BigInt64/constructors/constructors.cpp:30 | BigInt("18446744073709551616") is canonical and denotes 2^64 |
| BigInt64.SplitLowestDigit | include/BigInt64/constructors/constructors.cpp:33-35 | num % base is the lowest base-2^64 digit and num / base holds the remaining digits, and is smaller than num |
| BigInt64.DecomposeAsWritten | include/BigInt64/constructors/constructors.cpp:32-36 | as written, the loop succeeds exactly when every base-2^64 digit is below 2^63, and then yields those digits; otherwise to_long_long's out_of_range escapes |
| BigInt64.DecomposeAsWrittenFailsAt2To63 | include/BigInt64/constructors/constructors.cpp:33 | 2^63 has the single digit 2^63, which to_long_long rejects |
| BigInt64.Decompose | include/BigInt64/constructors/constructors.cpp:32-36 | the loop with an unsigned remainder yields the base-2^64 digits of a positive number, no limbs otherwise, denoting the number, with no zero limb on top |
| BigInt64.DecomposeRoundTrip | include/BigInt64/constructors/constructors.cpp:32-36 | decomposing the number a normalised limb vector denotes gives that vector back |
| BigInt64.Unsigned | include/BigInt64/constructors/constructors.cpp:15-27 | a leading '-' or '+' is removed, and any other text is kept |
| BigInt64.BigInt64Var.constructor | include/BigInt64/constructors/constructors.cpp:5-10 | a fresh object holds one zero limb, positive and not negative |
| BigInt64.BigInt64Var.FromText | include/BigInt64/constructors/constructors.cpp:12-37 | the sign flags come from the first character; invalid digits after it fail as BigInt(std::string) does; otherwise numArr is the decomposition of the number |
| Utils.IsValidNumber | include/utils.hpp:13-19 | the loop returns true exactly when every character is in '0'..'9' |
| Utils.SignIsRejected | include/utils.hpp:13-19 | the empty string is accepted and a leading '+' or '-' is rejected |

## Left out

- Stream and terminal I/O is not modelled: `include/operators/io_stream.hpp`, the stream operators of `src/BigInt.cpp`, `notify_invalid_input` and `exit`. An invalid string in the decimal revision is instead an `InvalidInput` failure carrying the offending text.
- `include/functions/random.hpp` is not modelled, because it depends on generator state.
- `is_probable_prime` (`include/functions/math.hpp:170-213`) is not modelled. It uses a random engine and calls `calculate_vars`, which is not part of this model. As a result, neither is the `continue` at `include/functions/math.hpp:207`, which restarts the inner loop rather than the round.
- The bodies of `/` and `%` are not part of this model. `DecimalDivision.Div` and `DecimalDivision.Mod` are specified by contract only: truncating division, a remainder with the dividend's sign, and an error on a zero divisor. The reference body is the truncated integer quotient. `sqrt`, `gcd`, `lcm`, `>>`, `/=` and `%=` use this contract.
- `include/operators/bitwise_assignment.hpp` is not modelled, and neither are the BigInt and string shift overloads, `|`, `&`, `^` or `~`. Their bodies are not part of this model.
- DecimalArithmetic.Add, DecimalArithmetic.Sub and DecimalArithmetic.Mul require canonical operands: no leading zeros, and zero is `'+'`. The string constructor keeps text verbatim, and on such operands the source's loops compute something other than the integer result (for instance on "007" − "8", or on "-0"). The members built on them require the same of their BigInt operands: DecimalArithmetic.AddLong, DecimalArithmetic.SubLong, DecimalArithmetic.MulLong, DecimalArithmetic.AddStr, DecimalArithmetic.SubStr, DecimalArithmetic.MulStr, DecimalPow.Pow, DecimalPow.PowStr, DecimalShift.ShiftLeft, DecimalGcd.Lcm, DecimalGcd.LcmBigIntLong, DecimalGcd.LcmLongBigInt, DecimalGcd.LcmBigIntStr, DecimalGcd.LcmStrBigInt, and the DecimalVar.BigIntVar updates AddAssign, SubAssign, MulAssign, AddAssignLong, SubAssignLong, MulAssignLong, AddAssignStr, SubAssignStr, MulAssignStr, PreIncrement, PreDecrement, PostIncrement and PostDecrement. The string overloads (`…Str`) require `CanonicalOperand` of their text.
- DecimalSqrt.Sqrt and DecimalSqrt.SqrtFloor require a canonical operand. On other text the source's answer comes from `<`, which compares lengths and then strings, and from the length of `to_string`, not from the number. sqrt(BigInt("04")) returns 3, because "04" < "16" as strings (include/functions/math.hpp:109-114). sqrt(BigInt("0000")) returns 1: the Newton loop starts at 10 and stops at 1. sqrt(BigInt("-0")) throws the negative-input error, because "-0" < 0 by its sign.
- DecimalArithmetic.Mul uses the corrected magnitude guard `DecimalArithmetic.FastPathGuard` and states the integer product. So do the members built on it: DecimalArithmetic.MulLong, DecimalArithmetic.MulStr, DecimalPow.Pow, DecimalPow.PowLong, DecimalPow.PowStr, DecimalShift.ShiftLeft, DecimalGcd.Lcm with its four overloads, and DecimalVar.BigIntVar.MulAssign, MulAssignLong and MulAssignStr. The source's signed guard lets a negative operand of any size onto the native path. There `stoll` throws out_of_range on -10^20 · 2, and the `long long` product overflows on -3037000500 · -3037000500. `<<` on a negative x reaches the same path once the magnitude of its running value is 2^63 or more. The model does not capture these throws and overflows.
- BigInt64.BigInt64Var.FromText uses the corrected `BigInt64.Decompose`. For "9223372036854775808" and every number with a base-2^64 digit of 2^63 or more, the source throws out_of_range from `to_long_long` (BigInt64.DecomposeAsWritten).
- LimbBigInt.Greater, LimbBigInt.LessEq, LimbBigInt.GreaterEq, LimbBigInt.SortedListRelations and the string relations LimbBigInt.LessStr … LimbBigInt.GreaterEqStrLeft go through the corrected `LimbBigInt.Less`. As written, `x < "5"` is false for every negative x, because the BigInt that "5" builds is the zero {0}: the sign test sends the call to the negations, which then have equal signs. The intended answer is true (LimbBigInt.LessAsWrittenNegativeBelowZero). Operands of opposite signs with several limbs, as in LimbBigInt.LessAsWrittenDiverges, make the written `<` recurse without end (LimbBigInt.LessAsWritten).
- DecimalGcd.Gcd: when a non-canonical operand goes through the Euclid loop, only the result's number and well-formedness are stated, not its digit text. gcd(14, "007") is stated to be 7; the source returns the text "007" there.
- DecimalGcd.Lcm is proved to be a non-negative common multiple with gcd · lcm == |a · b|. That it is the least common multiple is not proved.
- DecimalPow.Pow keeps the written answer `base` for a negative exponent when |base| is 1. For (-1)^-2 that is -1, whereas 1 / (-1)^2 is 1; the model does not correct it.
- DecimalSqrt.Sqrt states what the source returns: the Newton estimate, which is floor(√n) or one more. The two test files expect different last digits for the same large input (…645 and …646). The model checks neither constant.
- LimbBigInt.LessAsWritten cuts the recursion after `fuel` calls and returns `None`. As written, the recursion can fail to terminate (LimbBigInt.LessAsWrittenDiverges).
- LimbBigInt.LessInt64 uses the intended negation `Neg` on its negative left operand. There the written negation agrees with it (LimbBigInt.NegAsWrittenOnNegative).
- LimbBigInt.FromInt64, LimbBigInt.EqInt64 and the other `int64_t` operations require `IsInt64Operand`, which excludes `LLONG_MIN`: `llabs(LLONG_MIN)` and `-LLONG_MIN` overflow in C++. LimbVar.LimbBigIntVar.AssignInt64 has the same requirement.
- LimbBigInt.FromInt64 models only the branch of `include/constructors/constructors.hpp:41-52` taken where `long long` is 64 bits wide. The other branch is dead on such platforms.
- The tests of the limb string constructor expect hexadecimal input and different error messages. The model follows the code: it accepts decimal digits only, with the message "Expected an integer, got '…'".
- `BigInt64`: the destructor and the heap allocation behind `numArr` are not modelled, and `numArr` is a sequence field.
- BigInt64.BigInt64Var.FromText requires `CanonicalOperand` on the unsigned text, because it divides the decimal BigInt that text builds.
- `ceil(larger.size() / 2.0)` in Karatsuba is the integer `(len + 1) / 2`. The native `stoll` products of the fast path are exact integer products under the magnitude guard.
- `include/BigInt.hpp` and `include/BigInt64/BigInt64.hpp` are declarations only. They give the field names and the `/` and `%` signatures.

## Findings

| source | as written | input that shows it | evidently intended | confidence | as-written member | corrected member |
|---|---|---|---|---|---|---|
| include/operators/binary_arithmetic.hpp:154 | the fast path is guarded by a signed `<=` on each operand | -100000000000000000000 times itself passes the guard, and `stoll` of its magnitude is out of range | guard on the magnitudes | not executed | DecimalArithmetic.FastPathGuardAsWritten, DecimalArithmetic.FastPathGuardAsWrittenAdmitsHugeNegative | DecimalArithmetic.FastPathGuard, DecimalArithmetic.FastPathFits |
| include/functions/math.hpp:116-129 | the Newton loop stops when two estimates differ by at most one and returns the later one, which may be one above the root | sqrt(48) is 7 | the integer square root floor(√n) | not executed | DecimalSqrt.SqrtAsWritten, DecimalSqrt.SqrtAsWrittenOf48 | DecimalSqrt.SqrtFloor |
| include/operators/relational.hpp:42 | `is_negative == num.is_negative` under the comment "Signs are opposite" | 1 < 2 is false, -1 < -1 is true, and -(2^64+1) < 2^64+1 recurses without end | `!=`: opposite signs decide by the sign | not executed | LimbBigInt.LessAsWritten, LimbBigInt.LessAsWrittenWrongOnEqualSigns, LimbBigInt.LessAsWrittenDiverges | LimbBigInt.Less, LimbBigInt.MagLess |
| include/operators/unary_arithmetic.hpp:39 | `and` in the guard of the sign flip | -1234567890 comes out as 1234567890 | `or`: flip unless the magnitude is the single zero limb | not executed | LimbBigInt.NegAsWritten, LimbBigInt.NegAsWrittenKeepsSingleLimbSign | LimbBigInt.Neg, LimbBigInt.NegInvolutive |
| include/BigInt64/constructors/constructors.cpp:33 | each remainder goes through `to_long_long` | "9223372036854775808" (2^63) has the single limb 2^63, which `to_long_long` rejects | take the remainder as an unsigned 64-bit limb | not executed | BigInt64.DecomposeAsWritten, BigInt64.DecomposeAsWrittenFailsAt2To63 | BigInt64.Decompose, BigInt64.DecomposeRoundTrip |

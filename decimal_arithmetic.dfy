/**
 * include/operators/binary_arithmetic.hpp for the decimal-string revision: signed
 * addition with a digit carry, subtraction with a borrow, Karatsuba multiplication
 * with a native fast path, and the long long and string overloads.
 */
module DecimalArithmetic {
  import opened Wrappers
  import opened DecimalDigits
  import opened DecimalBigInt
  import opened DecimalConversion

  const FLOOR_SQRT_LONG_LONG_MAX: int := 3037000499

  // ---------------------------------------------------------------------------
  // Digit loops
  // ---------------------------------------------------------------------------

  lemma NumPrefixSnoc(s: string, i: nat)
    requires AllDigits(s) && i < |s|
    ensures Num(s[..i + 1]) == 10 * Num(s[..i]) + DigitValue(s[i])
  {
    assert s[..i + 1] == s[..i] + [s[i]];
    NumSnoc(s[..i], s[i]);
  }

  lemma ScaleStep(x: int, d: int, p: int)
    ensures x * (10 * p) + d * p == (10 * x + d) * p
  {
  }

  lemma CarryStep(a: int, b: int, dl: int, ds: int, carry: int, p: int, rest: int)
    requires 0 <= dl + ds + carry
    ensures (10 * a + dl + (10 * b + ds) + carry) * p + rest
         == (a + b + (dl + ds + carry) / 10) * (10 * p) + ((dl + ds + carry) % 10 * p + rest)
  {
    var sum := dl + ds + carry;
    assert sum == 10 * (sum / 10) + sum % 10;
    ScaleStep(a + b + sum / 10, sum % 10, p);
  }

  /** One column of the carry loop, at position i - 1, keeps the loop's value equation. */
  method AddColumn(larger: string, smaller: string, i: nat, carry: int, r: string) returns (carry': int, r': string)
    requires AllDigits(larger) && AllDigits(smaller) && |larger| == |smaller| && 0 < i <= |larger|
    requires carry == 0 || carry == 1
    requires AllDigits(r)
    ensures carry' == 0 || carry' == 1
    ensures AllDigits(r') && |r'| == |r| + 1
    ensures (Num(larger[..i]) + Num(smaller[..i]) + carry) * Pow10(|r|) + Num(r)
         == (Num(larger[..i - 1]) + Num(smaller[..i - 1]) + carry') * Pow10(|r'|) + Num(r')
  {
    var k := i - 1;
    assert k + 1 == i;
    var sum := DigitValue(larger[k]) + DigitValue(smaller[k]) + carry;
    var digit := DigitChar(sum % 10);
    NumPrefixSnoc(larger, k);
    NumPrefixSnoc(smaller, k);
    NumPrepend(digit, r);
    r' := [digit] + r;
    carry' := sum / 10;
    var p := Pow10(|r|);
    assert Pow10(|r'|) == 10 * p;
    ColumnValue(Num(larger[..i]), Num(smaller[..i]), Num(larger[..k]), Num(smaller[..k]),
      DigitValue(larger[k]), DigitValue(smaller[k]), carry, carry', p, Pow10(|r'|), Num(r), Num(r'));
  }

  /** The value equation of one column, over plain integers. */
  lemma ColumnValue(ai: int, bi: int, a: int, b: int, dl: int, ds: int, carry: int, carry': int,
                    p: int, p': int, rest: int, rest': int)
    requires 0 <= dl + ds + carry
    requires ai == 10 * a + dl && bi == 10 * b + ds && p' == 10 * p
    requires carry' == (dl + ds + carry) / 10 && rest' == (dl + ds + carry) % 10 * p + rest
    ensures (ai + bi + carry) * p + rest == (a + b + carry') * p' + rest'
  {
    CarryStep(a, b, dl, ds, carry, p, rest);
  }

  /**
   * The carry loop of same-sign `+`: digits are added from the right into
   * `result.value`, and a final carry is prepended.
   */
  method AddDigits(larger: string, smaller: string) returns (r: string)
    requires AllDigits(larger) && AllDigits(smaller) && |larger| == |smaller|
    ensures AllDigits(r) && Num(r) == Num(larger) + Num(smaller)
    ensures |larger| <= |r| <= |larger| + 1
    ensures |r| == |larger| + 1 ==> r[0] == '1'
  {
    r := "";
    var carry := 0;
    var i := |larger|;
    assert larger[..i] == larger && smaller[..i] == smaller;
    while i > 0
      invariant 0 <= i <= |larger|
      invariant carry == 0 || carry == 1
      invariant AllDigits(r) && |r| == |larger| - i
      invariant (Num(larger[..i]) + Num(smaller[..i]) + carry) * Pow10(|r|) + Num(r) == Num(larger) + Num(smaller)
    {
      carry, r := AddColumn(larger, smaller, i, carry, r);
      i := i - 1;
    }
    assert larger[..0] == [] && smaller[..0] == [];
    if carry != 0 {
      NumPrepend(DigitChar(carry), r);
      r := [DigitChar(carry)] + r;
    }
  }

  lemma BorrowArith(a: int, d: int, p: int)
    ensures (10 * a + d - 1) * p + p == (10 * a + d) * p
  {
  }

  /** The value of a digit string `prefix`, one digit c, then m zeros or m nines. */
  lemma BorrowParts(prefix: string, c: char, c': char, m: nat)
    requires AllDigits(prefix) && IsDigit(c) && IsDigit(c') && DigitValue(c') + 1 == DigitValue(c)
    ensures AllDigits(prefix + [c] + Zeros(m)) && AllDigits(prefix + [c'] + Nines(m))
    ensures Num(prefix + [c'] + Nines(m)) + 1 == Num(prefix + [c] + Zeros(m))
  {
    NumSnoc(prefix, c);
    NumSnoc(prefix, c');
    NumAppend(prefix + [c], Zeros(m));
    NumAppend(prefix + [c'], Nines(m));
    NumZeros(m);
    NumNines(m);
    BorrowArith(Num(prefix), DigitValue(c), Pow10(m));
  }

  /** The borrow of same-sign `-` lowers the value of the digits before position i by one. */
  lemma BorrowValue(before: string, l: string, p: nat, i: nat)
    requires AllDigits(before) && p < i <= |before| == |l|
    requires before[p] != '0' && forall k :: p < k < i ==> before[k] == '0'
    requires l[..p] == before[..p] && l[p] == (before[p] as int - 1) as char
    requires (forall k :: p < k < i ==> l[k] == '9') && l[i..] == before[i..]
    ensures AllDigits(l) && Num(l[..i]) + 1 == Num(before[..i])
  {
    var m := i - p - 1;
    assert AllDigits(l) by {
      forall k | 0 <= k < |l| ensures IsDigit(l[k]) {
        if k < p { assert l[k] == l[..p][k] == before[..p][k]; }
        else if i <= k { assert l[k] == l[i..][k - i] == before[i..][k - i]; }
      }
    }
    assert before[..i] == before[..p] + [before[p]] + Zeros(m);
    assert l[..i] == before[..p] + [l[p]] + Nines(m);
    BorrowParts(before[..p], before[p], l[p], m);
  }

  lemma BorrowStep(a: int, b: int, dl: int, ds: int, borrow: int, p: int, rest: int)
    ensures (10 * a + dl - (10 * b + ds)) * p + rest
         == (a - borrow - b) * (10 * p) + ((dl - ds + 10 * borrow) * p + rest)
  {
    ScaleStep(a - borrow - b, dl - ds + 10 * borrow, p);
  }

  /** One column of the borrow loop keeps the loop's value equation and its ordering. */
  lemma SubColumn(before: string, l: string, smaller: string, i: nat, r: string, borrow: int)
    requires AllDigits(before) && AllDigits(l) && AllDigits(smaller) && AllDigits(r)
    requires i < |before| == |l| == |smaller|
    requires Num(smaller[..i + 1]) <= Num(before[..i + 1])
    requires borrow == if DigitValue(before[i]) < DigitValue(smaller[i]) then 1 else 0
    requires Num(l[..i]) + borrow == Num(before[..i])
    ensures var difference := DigitValue(before[i]) - DigitValue(smaller[i]) + 10 * borrow;
      var r' := [DigitChar(difference)] + r;
      0 <= difference < 10 && AllDigits(r') && Num(smaller[..i]) <= Num(l[..i]) &&
      (Num(before[..i + 1]) - Num(smaller[..i + 1])) * Pow10(|r|) + Num(r)
      == (Num(l[..i]) - Num(smaller[..i])) * Pow10(|r'|) + Num(r')
  {
    var difference := DigitValue(before[i]) - DigitValue(smaller[i]) + 10 * borrow;
    var digit := DigitChar(difference);
    NumPrefixSnoc(before, i);
    NumPrefixSnoc(smaller, i);
    NumPrepend(digit, r);
    BorrowStep(Num(before[..i]), Num(smaller[..i]), DigitValue(before[i]), DigitValue(smaller[i]), borrow, Pow10(|r|), Num(r));
  }

  /**
   * The borrow of same-sign `-`: the nearest non-zero digit left of position i is
   * lowered by one and the zeros between it and position i become '9'.
   */
  method Borrow(l: string, i: nat) returns (l': string)
    requires AllDigits(l) && i <= |l| && Num(l[..i]) > 0
    ensures AllDigits(l') && |l'| == |l| && l'[i..] == l[i..]
    ensures Num(l'[..i]) + 1 == Num(l[..i])
  {
    NonZeroHasNonZeroDigit(l[..i]);
    var j := i - 1;
    while j >= 0 && l[j] == '0'
      invariant -1 <= j < i
      invariant forall k :: j < k < i ==> l[k] == '0'
      invariant exists k :: 0 <= k <= j && l[..i][k] != '0'
    {
      j := j - 1;
    }
    var p := j;
    l' := l[p := (l[p] as int - 1) as char];
    j := p + 1;
    while j != i
      invariant p < j <= i && |l'| == |l|
      invariant l'[..p] == l[..p] && l'[p] == (l[p] as int - 1) as char
      invariant (forall k :: p < k < j ==> l'[k] == '9') && l'[j..] == l[j..]
    {
      l' := l'[j := '9'];
      j := j + 1;
    }
    BorrowValue(l, l', p, i);
  }

  /**
   * One column of same-sign `-`: the digit at position i - 1 of the (already
   * borrowed-from) larger operand minus that of the smaller one, borrowing when negative.
   */
  method SubtractColumn(l: string, smaller: string, i: nat, r: string) returns (l': string, r': string)
    requires AllDigits(l) && AllDigits(smaller) && AllDigits(r)
    requires 0 < i <= |l| == |smaller|
    requires Num(smaller[..i]) <= Num(l[..i])
    ensures AllDigits(l') && AllDigits(r') && |l'| == |l| && |r'| == |r| + 1
    ensures Num(smaller[..i - 1]) <= Num(l'[..i - 1])
    ensures (Num(l[..i]) - Num(smaller[..i])) * Pow10(|r|) + Num(r)
         == (Num(l'[..i - 1]) - Num(smaller[..i - 1])) * Pow10(|r'|) + Num(r')
  {
    var k := i - 1;
    assert k + 1 == i;
    var difference := DigitValue(l[k]) - DigitValue(smaller[k]);
    var borrow := 0;
    l' := l;
    if difference < 0 {
      NumPrefixSnoc(l, k);
      NumPrefixSnoc(smaller, k);
      l' := Borrow(l, k);
      assert l'[k] == l[k] by { assert l'[k] == l'[k..][0] == l[k..][0]; }
      difference := difference + 10;
      borrow := 1;
    }
    SubColumn(l, l', smaller, k, r, borrow);
    r' := [DigitChar(difference)] + r;
  }

  /**
   * The borrow loop of same-sign `-`: for each digit from the right, a negative
   * difference borrows from the nearest higher non-zero digit of (a copy of)
   * `larger`, turning the zeros in between into '9'.
   */
  method SubtractDigits(larger: string, smaller: string) returns (r: string)
    requires AllDigits(larger) && AllDigits(smaller) && |larger| == |smaller|
    requires Num(smaller) <= Num(larger)
    ensures AllDigits(r) && |r| == |larger| && Num(r) == Num(larger) - Num(smaller)
  {
    var l := larger;
    r := "";
    var i := |l|;
    assert l[..i] == larger && smaller[..i] == smaller;
    while i > 0
      invariant 0 <= i <= |l| == |larger|
      invariant AllDigits(l) && AllDigits(r) && |r| == |l| - i
      invariant Num(smaller[..i]) <= Num(l[..i])
      invariant (Num(l[..i]) - Num(smaller[..i])) * Pow10(|r|) + Num(r) == Num(larger) - Num(smaller)
    {
      l, r := SubtractColumn(l, smaller, i, r);
      i := i - 1;
    }
    assert l[..0] == [] && smaller[..0] == [];
  }

  lemma NonZeroHasNonZeroDigit(s: string)
    requires AllDigits(s) && Num(s) > 0
    ensures exists k :: 0 <= k < |s| && s[k] != '0'
  {
    if forall k :: 0 <= k < |s| ==> s[k] == '0' {
      assert s == Zeros(|s|);
      NumZeros(|s|);
    }
  }

  // ---------------------------------------------------------------------------
  // Signed addition and subtraction
  // ---------------------------------------------------------------------------

  /** A digit sum of r digits (or one more, led by the carry '1') has no leading zero. */
  lemma SumIsCanonical(larger: string, v: string)
    requires IsCanonical(larger) && AllDigits(v) && Num(larger) <= Num(v)
    requires |larger| <= |v| <= |larger| + 1 && (|v| == |larger| + 1 ==> v[0] == '1')
    ensures IsCanonical(v)
  {
    if |v| == |larger| && |v| >= 2 && v[0] == '0' {
      CanonicalBounds(larger);
      LeadingDigitBounds(v);
      assert false;
    }
  }

  /** A canonical string that is worth no more than another is no longer. */
  lemma CanonicalLengthOrder(a: string, b: string)
    requires IsCanonical(a) && IsCanonical(b) && Num(a) <= Num(b)
    ensures |a| <= |b|
  {
    if |b| < |a| {
      CanonicalShorterIsSmaller(b, a);
    }
  }

  /**
   * operator+: operands of opposite signs are handed to operator-; otherwise the
   * magnitudes are added digit by digit and the result takes the operands' sign
   * unless it is "0".
   */
  method Add(a: BigInt, b: BigInt) returns (r: BigInt)
    requires Canonical(a) && Canonical(b)
    ensures Canonical(r) && ToInt(r) == ToInt(a) + ToInt(b)
    decreases if a.sign != b.sign then 1 else 0
  {
    if a.sign == '+' && b.sign == '-' {
      var rhs := b.(sign := '+');
      r := Sub(a, rhs);
      return;
    } else if a.sign == '-' && b.sign == '+' {
      var lhs := a.(sign := '+');
      var difference := Sub(lhs, b);
      r := Neg(difference);
      return;
    }
    var (larger, smaller) := GetLargerAndSmaller(a.value, b.value);
    LargerAndSmallerByValue(a.value, b.value);
    var value := AddDigits(larger, smaller);
    SumIsCanonical(larger, value);
    CanonicalBounds(value);
    CanonicalBounds(a.value);
    var sign := if a.sign == '-' && value != "0" then '-' else '+';
    r := BigInt(value, sign);
  }

  /**
   * operator-: operands of opposite signs are handed to operator+; otherwise the
   * smaller magnitude is taken from the larger with borrows, leading zeros are
   * stripped and a zero result is made positive.
   */
  method Sub(a: BigInt, b: BigInt) returns (r: BigInt)
    requires Canonical(a) && Canonical(b)
    ensures Canonical(r) && ToInt(r) == ToInt(a) - ToInt(b)
    decreases if a.sign != b.sign then 1 else 0
  {
    if a.sign == '+' && b.sign == '-' {
      var rhs := b.(sign := '+');
      r := Add(a, rhs);
      return;
    } else if a.sign == '-' && b.sign == '+' {
      var lhs := a.(sign := '+');
      var sum := Add(lhs, b);
      r := Neg(sum);
      return;
    }
    AbsMeaning(a);
    AbsMeaning(b);
    var larger, smaller, negative;
    if Greater(Abs(a), Abs(b)) {
      larger, smaller := a.value, b.value;
      negative := a.sign == '-';
    } else {
      larger, smaller := b.value, a.value;
      negative := b.sign == '+';
    }
    CanonicalLengthOrder(smaller, larger);
    var padded := AddLeadingZeroes(smaller, |larger| - |smaller|);
    var digits := SubtractDigits(larger, padded);
    var value := StripLeadingZeroes(digits);
    CanonicalBounds(value);
    var sign := if negative && value != "0" then '-' else '+';
    r := BigInt(value, sign);
  }

  /** a - a is the canonical zero, whatever the sign of a. */
  lemma SubSelfIsZero(a: BigInt, r: BigInt)
    requires Canonical(a) && Canonical(r) && ToInt(r) == ToInt(a) - ToInt(a)
    ensures r == Default()
  {
    CanonicalUnique(r, Default());
  }

  // ---------------------------------------------------------------------------
  // Multiplication
  // ---------------------------------------------------------------------------

  /** The guard of the native fast path as written: a signed comparison of each operand. */
  function FastPathGuardAsWritten(a: BigInt, b: BigInt): (g: bool)
    requires Canonical(a) && Canonical(b)
    ensures g <==> ToInt(a) <= FLOOR_SQRT_LONG_LONG_MAX && ToInt(b) <= FLOOR_SQRT_LONG_LONG_MAX
  {
    LessEqLong(a, FLOOR_SQRT_LONG_LONG_MAX) && LessEqLong(b, FLOOR_SQRT_LONG_LONG_MAX)
  }

  /** The guard the fast path needs: both magnitudes at most FLOOR_SQRT_LONG_LONG_MAX. */
  function FastPathGuard(a: BigInt, b: BigInt): (g: bool)
    requires Canonical(a) && Canonical(b)
    ensures g <==> Num(a.value) <= FLOOR_SQRT_LONG_LONG_MAX && Num(b.value) <= FLOOR_SQRT_LONG_LONG_MAX
  {
    AbsMeaning(a);
    AbsMeaning(b);
    LessEqLong(Abs(a), FLOOR_SQRT_LONG_LONG_MAX) && LessEqLong(Abs(b), FLOOR_SQRT_LONG_LONG_MAX)
  }

  lemma MulMonotone(x: nat, y: nat, a: nat, b: nat)
    requires x <= a && y <= b
    ensures x * y <= a * b
  {
    MulLeftMonotone(x, a, y);
    MulLeftMonotone(y, b, a);
  }

  /** Two factors no larger than FLOOR_SQRT_LONG_LONG_MAX have a long long product. */
  lemma SmallProductFits(x: nat, y: nat)
    requires x <= FLOOR_SQRT_LONG_LONG_MAX && y <= FLOOR_SQRT_LONG_LONG_MAX
    ensures IsLongLong(x * y)
  {
    MulMonotone(x, y, FLOOR_SQRT_LONG_LONG_MAX, FLOOR_SQRT_LONG_LONG_MAX);
    assert FLOOR_SQRT_LONG_LONG_MAX * FLOOR_SQRT_LONG_LONG_MAX == 9223372030926249001;
    MulLeftMonotone(0, x, y);
  }

  /** Under the magnitude guard, stoll reads each magnitude and their product is a long long. */
  lemma FastPathFits(a: BigInt, b: BigInt)
    requires Canonical(a) && Canonical(b) && FastPathGuard(a, b)
    ensures StringToInteger(a.value, LLONG_MIN, LLONG_MAX) == Success(Num(a.value))
    ensures StringToInteger(b.value, LLONG_MIN, LLONG_MAX) == Success(Num(b.value))
    ensures IsLongLong(Num(a.value) * Num(b.value))
  {
    StringToIntegerOfToString(BigInt(a.value, '+'), LLONG_MIN, LLONG_MAX);
    StringToIntegerOfToString(BigInt(b.value, '+'), LLONG_MIN, LLONG_MAX);
    SmallProductFits(Num(a.value), Num(b.value));
  }

  /**
   * The signed guard lets a negative operand of any size through: for
   * -100000000000000000000 it holds, and stoll on its magnitude is out of range.
   */
  lemma FastPathGuardAsWrittenAdmitsHugeNegative()
    ensures var a := BigInt("1" + Zeros(20), '-');
      Canonical(a) && FastPathGuardAsWritten(a, a) && !FastPathGuard(a, a)
      && StringToInteger(a.value, LLONG_MIN, LLONG_MAX) == Failure(OutOfRange)
  {
    var a := BigInt("1" + Zeros(20), '-');
    NumOfPowerOf10String(20);
    assert Pow10(20) == 100000000000000000000 by {
      Pow10Add(10, 10);
      assert Pow10(10) == 10000000000 by {
        Pow10Add(5, 5);
      }
    }
    StringToIntegerOfToString(BigInt(a.value, '+'), LLONG_MIN, LLONG_MAX);
  }

  /** `x = larger.substr(..)` followed by strip_leading_zeroes(x.value). */
  method FromDigits(s: string) returns (x: BigInt)
    requires AllDigits(s)
    ensures Canonical(x) && x.sign == '+' && ToInt(x) == Num(x.value) == Num(s)
  {
    assert IsValidBigIntString(s);
    assert |s| > 0 ==> IsDigit(s[0]);
    x := FromString(s).value;
    var v := StripLeadingZeroes(x.value);
    x := x.(value := v);
    CanonicalBounds(v);
  }

  /** add_trailing_zeroes on a product's value, followed by strip_leading_zeroes. */
  method AppendZeros(x: BigInt, k: nat) returns (y: BigInt)
    requires Canonical(x)
    ensures Canonical(y) && ToInt(y) == ToInt(x) * Pow10(k)
  {
    var padded := AddTrailingZeroes(x.value, k);
    var v := StripLeadingZeroes(padded);
    ghost var m: int, p: int := Num(x.value), Pow10(k);
    assert Num(v) == m * p;
    CanonicalBounds(x.value);
    CanonicalBounds(v);
    if m != 0 {
      MulMonotone(1, 1, m, p);
    }
    NegateProduct(m, p);
    y := x.(value := v);
  }

  lemma NegateProduct(m: int, p: int)
    ensures (0 - m) * p == 0 - m * p
  {
  }

  /** A canonical BigInt that denotes a non-negative number has sign '+'. */
  lemma NonNegativeIsPositive(x: BigInt)
    requires Canonical(x) && ToInt(x) >= 0
    ensures x.sign == '+' && Num(x.value) == ToInt(x)
  {
    CanonicalBounds(x.value);
  }

  lemma Pow10Double(c: nat)
    ensures Pow10(2 * c) == Pow10(c) * Pow10(c)
  {
    Pow10Add(c, c);
  }

  /** A digit string split at position h: its high part scaled by 10^c, c = |s| - h, plus its low part. */
  lemma SplitDigits(s: string, h: nat, c: nat)
    requires AllDigits(s) && h <= |s| && c == |s| - h
    ensures AllDigits(s[..h]) && AllDigits(s[h..])
    ensures Num(s) == Num(s[..h]) * Pow10(c) + Num(s[h..])
  {
    assert s == s[..h] + s[h..];
    NumAppend(s[..h], s[h..]);
  }

  /** For n >= 4 digits, four times 10^ceil(n/2) is still at most 10^(n-1). */
  lemma HalvesAreSmall(n: nat)
    requires n >= 4
    ensures Pow10(n / 2) <= Pow10((n + 1) / 2) && 4 * Pow10((n + 1) / 2) <= Pow10(n - 1)
  {
    Pow10Monotone(n / 2, (n + 1) / 2);
    Pow10Monotone((n + 1) / 2 + 1, n - 1);
  }

  /**
   * When the fast path is not taken, the larger operand has at least five digits
   * and every recursive product of Karatsuba's method is on smaller operands.
   */
  lemma KaratsubaShrinks(larger: string, smaller: string, total: int)
    requires IsCanonical(larger) && AllDigits(smaller) && |smaller| == |larger|
    requires FLOOR_SQRT_LONG_LONG_MAX < Num(larger) <= total
    ensures var half := |larger| / 2;
      |larger| >= 5
      && Num(larger[..half]) + Num(smaller[..half]) < total
      && Num(larger[half..]) + Num(smaller[half..]) < total
      && Num(larger[..half]) + Num(larger[half..]) + (Num(smaller[..half]) + Num(smaller[half..])) < total
  {
    var n := |larger|;
    CanonicalBounds(larger);
    if n < 5 {
      Pow10Monotone(n, 4);
      assert false;
    }
    var half, halfCeil := n / 2, (n + 1) / 2;
    NumBoundAt(larger[..half], half);
    NumBoundAt(larger[half..], halfCeil);
    NumBoundAt(smaller[..half], half);
    NumBoundAt(smaller[half..], halfCeil);
    HalvesAreSmall(n);
    ShrinkArith(Num(larger[..half]), Num(larger[half..]), Num(smaller[..half]), Num(smaller[half..]),
      Pow10(half), Pow10(halfCeil), Pow10(n - 1), total);
  }

  lemma NumBoundAt(s: string, k: nat)
    requires AllDigits(s) && |s| == k
    ensures Num(s) < Pow10(k)
  {
    NumBound(s);
  }

  lemma ShrinkArith(h1: int, l1: int, h2: int, l2: int, ph: int, pc: int, big: int, total: int)
    requires 0 <= h1 < ph && 0 <= h2 < ph && 0 <= l1 < pc && 0 <= l2 < pc
    requires ph <= pc && 4 * pc <= big <= total
    ensures h1 + h2 < total && l1 + l2 < total && h1 + l1 + (h2 + l2) < total
  {
  }

  /** The larger times the smaller of two numbers is their product. */
  lemma MaxMinProduct(p: nat, q: nat)
    ensures Max(p, q) * (if p < q then p else q) == p * q
    ensures p * q >= 0
  {
    MulMonotone(0, 0, p, q);
  }

  lemma KaratsubaIdentity(h1: int, l1: int, h2: int, l2: int, p: int)
    ensures (h1 * p + l1) * (h2 * p + l2)
         == h1 * h2 * (p * p) + ((h1 + l1) * (h2 + l2) - h1 * h2 - l1 * l2) * p + l1 * l2
  {
    calc {
      (h1 * p + l1) * (h2 * p + l2);
      h1 * p * (h2 * p) + h1 * p * l2 + l1 * (h2 * p) + l1 * l2;
      h1 * h2 * (p * p) + (h1 * l2 + l1 * h2) * p + l1 * l2;
    }
  }

  /**
   * The recombination step of Karatsuba's method: with x = h1·p + l1 and
   * y = h2·p + l2, high·p² + mid·p + low is x·y, mid being (h1+l1)(h2+l2) − high − low.
   */
  lemma KaratsubaRecombines(x: int, y: int, h1: int, l1: int, h2: int, l2: int, p: int, pp: int,
                            high: int, sums: int, mid: int, low: int, s1: int, s2: int,
                            highScaled: int, midScaled: int, product: int)
    requires x == h1 * p + l1 && y == h2 * p + l2 && pp == p * p
    requires high == h1 * h2 && low == l1 * l2 && s1 == h1 + l1 && s2 == h2 + l2 && sums == s1 * s2
    requires mid == sums - high - low
    requires highScaled == high * pp && midScaled == mid * p
    requires product == highScaled + midScaled + low
    ensures product == x * y
  {
    KaratsubaIdentity(h1, l1, h2, l2, p);
  }

  /** The product of two signed magnitudes, both non-zero. */
  lemma SignedProduct(x: nat, y: nat, negX: bool, negY: bool)
    requires x > 0 && y > 0
    ensures x * y > 0
    ensures (if negX then 0 - x else x) * (if negY then 0 - y else y) == if negX == negY then x * y else 0 - x * y
  {
    MulMonotone(1, 1, x, y);
  }

  /** The fast path `stoll(this->value) * stoll(num.value)`, under the magnitude guard. */
  method NativeProduct(a: BigInt, b: BigInt) returns (product: BigInt)
    requires Canonical(a) && Canonical(b) && FastPathGuard(a, b)
    ensures Canonical(product) && product.sign == '+' && ToInt(product) == Num(a.value) * Num(b.value)
  {
    FastPathFits(a, b);
    var x := StringToInteger(a.value, LLONG_MIN, LLONG_MAX).value;
    var y := StringToInteger(b.value, LLONG_MIN, LLONG_MAX).value;
    MulMonotone(0, 0, x, y);
    product := FromLongLong(x * y);
    CanonicalBounds(product.value);
  }

  /** The last step of operator*: '+' when the operand signs agree, '-' otherwise. */
  method SetProductSign(product: BigInt, a: BigInt, b: BigInt) returns (r: BigInt)
    requires Canonical(a) && Canonical(b) && Num(a.value) > 0 && Num(b.value) > 0
    requires Canonical(product) && product.sign == '+' && ToInt(product) == Num(a.value) * Num(b.value)
    ensures Canonical(r) && ToInt(r) == ToInt(a) * ToInt(b)
  {
    SignedProduct(Num(a.value), Num(b.value), a.sign == '-', b.sign == '-');
    CanonicalBounds(product.value);
    r := product.(sign := if a.sign == b.sign then '+' else '-');
  }

  /**
   * operator*: a zero operand gives 0 and an operand equal to 1 gives the other;
   * small magnitudes are multiplied natively, larger ones by Karatsuba's method;
   * the product is negative exactly when the operand signs differ.
   */
  method Mul(a: BigInt, b: BigInt) returns (r: BigInt)
    requires Canonical(a) && Canonical(b)
    ensures Canonical(r) && ToInt(r) == ToInt(a) * ToInt(b)
    decreases Num(a.value) + Num(b.value), 1
  {
    TrivialProducts(ToInt(a), ToInt(b));
    if EqLong(a, 0) || EqLong(b, 0) {
      return FromLongLong(0);
    }
    if EqLong(a, 1) {
      return b;
    }
    if EqLong(b, 1) {
      return a;
    }
    var product;
    if FastPathGuard(a, b) {
      product := NativeProduct(a, b);
    } else {
      product := Karatsuba(a, b);
    }
    r := SetProductSign(product, a, b);
  }

  lemma TrivialProducts(x: int, y: int)
    ensures x == 0 || y == 0 ==> x * y == 0
    ensures x == 1 ==> x * y == y
    ensures y == 1 ==> x * y == x
  {
  }

  /** The four halves of Karatsuba's method, each made canonical by strip_leading_zeroes. */
  method SplitOperands(larger: string, smaller: string, half: nat) returns (high1: BigInt, low1: BigInt, high2: BigInt, low2: BigInt)
    requires AllDigits(larger) && AllDigits(smaller) && half <= |larger| == |smaller|
    ensures Canonical(high1) && high1.sign == '+' && ToInt(high1) == Num(high1.value) == Num(larger[..half])
    ensures Canonical(low1) && low1.sign == '+' && ToInt(low1) == Num(low1.value) == Num(larger[half..])
    ensures Canonical(high2) && high2.sign == '+' && ToInt(high2) == Num(high2.value) == Num(smaller[..half])
    ensures Canonical(low2) && low2.sign == '+' && ToInt(low2) == Num(low2.value) == Num(smaller[half..])
  {
    high1 := FromDigits(larger[..half]);
    low1 := FromDigits(larger[half..]);
    high2 := FromDigits(smaller[..half]);
    low2 := FromDigits(smaller[half..]);
  }

  /** The last lines of Karatsuba's method: the partial products shifted into place and summed. */
  method Recombine(prodHigh: BigInt, prodMid: BigInt, prodLow: BigInt, halfCeil: nat) returns (product: BigInt)
    requires Canonical(prodHigh) && Canonical(prodMid) && Canonical(prodLow)
    ensures Canonical(product)
    ensures ToInt(product) == ToInt(prodHigh) * Pow10(2 * halfCeil) + ToInt(prodMid) * Pow10(halfCeil) + ToInt(prodLow)
  {
    var highScaled := AppendZeros(prodHigh, 2 * halfCeil);
    var midScaled := AppendZeros(prodMid, halfCeil);
    var lowValue := StripLeadingZeroes(prodLow.value);
    var lowStripped := prodLow.(value := lowValue);
    var upper := Add(highScaled, midScaled);
    product := Add(upper, lowStripped);
  }

  /** The Karatsuba branch of operator*, on the magnitudes of its operands. */
  method Karatsuba(a: BigInt, b: BigInt) returns (product: BigInt)
    requires Canonical(a) && Canonical(b)
    requires FLOOR_SQRT_LONG_LONG_MAX < Num(a.value) || FLOOR_SQRT_LONG_LONG_MAX < Num(b.value)
    ensures Canonical(product) && product.sign == '+' && ToInt(product) == Num(a.value) * Num(b.value)
    decreases Num(a.value) + Num(b.value), 0
  {
    var (larger, smaller) := GetLargerAndSmaller(a.value, b.value);
    LargerAndSmallerByValue(a.value, b.value);
    KaratsubaShrinks(larger, smaller, Num(a.value) + Num(b.value));
    var half := |larger| / 2;
    var halfCeil := (|larger| + 1) / 2;
    var high1, low1, high2, low2 := SplitOperands(larger, smaller, half);

    var prodHigh := Mul(high1, high2);
    var prodLow := Mul(low1, low2);
    var sum1 := Add(high1, low1);
    var sum2 := Add(high2, low2);
    NonNegativeIsPositive(sum1);
    NonNegativeIsPositive(sum2);
    var prodSums := Mul(sum1, sum2);
    var partial := Sub(prodSums, prodHigh);
    var prodMid := Sub(partial, prodLow);
    product := Recombine(prodHigh, prodMid, prodLow, halfCeil);

    SplitDigits(larger, half, halfCeil);
    SplitDigits(smaller, half, halfCeil);
    Pow10Double(halfCeil);
    KaratsubaRecombines(Num(larger), Num(smaller), ToInt(high1), ToInt(low1), ToInt(high2), ToInt(low2),
      Pow10(halfCeil), Pow10(2 * halfCeil), ToInt(prodHigh), ToInt(prodSums), ToInt(prodMid), ToInt(prodLow),
      ToInt(sum1), ToInt(sum2), ToInt(prodHigh) * Pow10(2 * halfCeil), ToInt(prodMid) * Pow10(halfCeil), ToInt(product));
    MaxMinProduct(Num(a.value), Num(b.value));
    NonNegativeIsPositive(product);
  }

  // ---------------------------------------------------------------------------
  // Overloads with a long long or a string on the right
  // ---------------------------------------------------------------------------

  /** A string operand the arithmetic accepts: one the string constructor turns into a canonical value. */
  predicate CanonicalOperand(num: string)
  {
    FromString(num).Success? ==> Canonical(FromString(num).value)
  }

  method AddLong(a: BigInt, num: int) returns (r: BigInt)
    requires Canonical(a) && IsLongLong(num)
    ensures Canonical(r) && ToInt(r) == ToInt(a) + num
  {
    r := Add(a, FromLongLong(num));
  }

  method SubLong(a: BigInt, num: int) returns (r: BigInt)
    requires Canonical(a) && IsLongLong(num)
    ensures Canonical(r) && ToInt(r) == ToInt(a) - num
  {
    r := Sub(a, FromLongLong(num));
  }

  method MulLong(a: BigInt, num: int) returns (r: BigInt)
    requires Canonical(a) && IsLongLong(num)
    ensures Canonical(r) && ToInt(r) == ToInt(a) * num
  {
    r := Mul(a, FromLongLong(num));
  }

  /** `*this + BigInt(num)`: invalid text takes the string constructor's error path. */
  method AddStr(a: BigInt, num: string) returns (r: Result<BigInt>)
    requires Canonical(a) && CanonicalOperand(num)
    ensures r.Failure? <==> !IsValidBigIntString(num)
    ensures r.Failure? ==> r.error == InvalidInput(num)
    ensures r.Success? ==> Canonical(r.value) && ToInt(r.value) == ToInt(a) + ToInt(FromString(num).value)
  {
    var parsed := FromString(num);
    if parsed.Failure? {
      return Failure(parsed.error);
    }
    var sum := Add(a, parsed.value);
    r := Success(sum);
  }

  method SubStr(a: BigInt, num: string) returns (r: Result<BigInt>)
    requires Canonical(a) && CanonicalOperand(num)
    ensures r.Failure? <==> !IsValidBigIntString(num)
    ensures r.Failure? ==> r.error == InvalidInput(num)
    ensures r.Success? ==> Canonical(r.value) && ToInt(r.value) == ToInt(a) - ToInt(FromString(num).value)
  {
    var parsed := FromString(num);
    if parsed.Failure? {
      return Failure(parsed.error);
    }
    var difference := Sub(a, parsed.value);
    r := Success(difference);
  }

  method MulStr(a: BigInt, num: string) returns (r: Result<BigInt>)
    requires Canonical(a) && CanonicalOperand(num)
    ensures r.Failure? <==> !IsValidBigIntString(num)
    ensures r.Failure? ==> r.error == InvalidInput(num)
    ensures r.Success? ==> Canonical(r.value) && ToInt(r.value) == ToInt(a) * ToInt(FromString(num).value)
  {
    var parsed := FromString(num);
    if parsed.Failure? {
      return Failure(parsed.error);
    }
    var product := Mul(a, parsed.value);
    r := Success(product);
  }
}

/**
 * gcd and lcm of include/functions/math.hpp for the decimal-string revision:
 * Euclid's remainder loop on the absolute values, lcm as |a * b| / gcd(a, b),
 * and their long long and string overloads.
 */
module DecimalGcd {
  import opened Wrappers
  import opened DecimalDigits
  import opened DecimalBigInt
  import opened DecimalArithmetic
  import opened DecimalDivision

  // ---------------------------------------------------------------------------
  // Divisibility and Euclid's algorithm on naturals
  // ---------------------------------------------------------------------------

  /** d divides n; only 0 is a multiple of 0. */
  predicate Divides(d: nat, n: int)
  {
    if d == 0 then n == 0 else n % d == 0
  }

  /** Euclid's algorithm, the reference for gcd. */
  function EuclidGcd(a: nat, b: nat): nat
    decreases b
  {
    if b == 0 then a else EuclidGcd(b, a % b)
  }

  lemma Distribute(d: int, i: int, j: int, k: int)
    ensures d * i + k * (d * j) == d * (i + k * j)
  {
  }

  /** A combination x + k * y of two multiples of d is a multiple of d. */
  lemma DividesCombination(d: nat, x: int, y: int, k: int)
    requires Divides(d, x) && Divides(d, y)
    ensures Divides(d, x + k * y)
  {
    if d > 0 {
      var i, j := x / d, y / d;
      assert x == d * i + x % d && y == d * j + y % d;
      Distribute(d, i, j, k);
      MultipleMod(d, i + k * j);
    }
  }

  /** gcd(a, b) divides both a and b. */
  lemma {:induction false} GcdDivides(a: nat, b: nat)
    ensures Divides(EuclidGcd(a, b), a) && Divides(EuclidGcd(a, b), b)
    decreases b
  {
    if b > 0 {
      GcdDivides(b, a % b);
      assert a == a % b + (a / b) * b;
      DividesCombination(EuclidGcd(a, b), a % b, b, a / b);
    }
  }

  /** Every common divisor of a and b divides gcd(a, b). */
  lemma {:induction false} GcdGreatest(a: nat, b: nat, d: nat)
    requires Divides(d, a) && Divides(d, b)
    ensures Divides(d, EuclidGcd(a, b))
    decreases b
  {
    if b > 0 {
      assert a % b == a + (0 - a / b) * b;
      DividesCombination(d, a, b, 0 - a / b);
      GcdGreatest(b, a % b, d);
    }
  }

  /** A positive multiple of a positive d is at least d. */
  lemma MultipleAtLeast(d: nat, n: nat)
    requires d > 0 && n > 0 && n % d == 0
    ensures d <= n
  {
    assert n == d * (n / d);
    if n / d < 1 {
      NaturalQuotient(n, d);
    } else {
      ProductGrows(d, n / d);
    }
  }

  /** Two naturals dividing each other are equal. */
  lemma DividesAntisymmetric(x: nat, y: nat)
    requires Divides(x, y) && Divides(y, x)
    ensures x == y
  {
    if x > 0 && y > 0 {
      MultipleAtLeast(x, y);
      MultipleAtLeast(y, x);
    }
  }

  /** gcd is symmetric. */
  lemma GcdCommutes(a: nat, b: nat)
    ensures EuclidGcd(a, b) == EuclidGcd(b, a)
  {
    GcdDivides(a, b);
    GcdDivides(b, a);
    GcdGreatest(a, b, EuclidGcd(b, a));
    GcdGreatest(b, a, EuclidGcd(a, b));
    DividesAntisymmetric(EuclidGcd(a, b), EuclidGcd(b, a));
  }

  /** gcd(a, 0) == a and gcd(0, b) == b; gcd is zero only for two zeros. */
  lemma GcdZero(a: nat, b: nat)
    ensures EuclidGcd(a, 0) == a && EuclidGcd(0, b) == b
    ensures EuclidGcd(a, b) == 0 <==> a == 0 && b == 0
  {
    GcdDivides(a, b);
    if a == 0 && b == 0 {
      assert EuclidGcd(a, b) == 0;
    }
  }

  /** gcd(a, b) is the greatest of the common divisors of a and b, when one of them is positive. */
  lemma GcdIsGreatest(a: nat, b: nat, d: nat)
    requires a > 0 || b > 0
    requires d > 0 && Divides(d, a) && Divides(d, b)
    ensures d <= EuclidGcd(a, b)
  {
    GcdGreatest(a, b, d);
    GcdZero(a, b);
    MultipleAtLeast(d, EuclidGcd(a, b));
  }

  /** The recursive gcd of the test suite, on signed operands and C++ `%`. */
  function ReferenceGcd(a: int, b: int): nat
    decreases IntAbs(a)
  {
    if a == 0 then IntAbs(b)
    else
      TruncDivisionHolds(b, a);
      ReferenceGcd(TruncMod(b, a), a)
  }

  /** The test suite's gcd agrees with Euclid's algorithm on the absolute values. */
  lemma {:induction false} ReferenceGcdAgrees(a: int, b: int)
    ensures ReferenceGcd(a, b) == EuclidGcd(IntAbs(a), IntAbs(b))
    decreases IntAbs(a)
  {
    GcdZero(IntAbs(a), IntAbs(b));
    if a != 0 {
      TruncDivisionHolds(b, a);
      ReferenceGcdAgrees(TruncMod(b, a), a);
      assert IntAbs(TruncMod(b, a)) == IntAbs(b) % IntAbs(a);
      GcdCommutes(IntAbs(a), IntAbs(b));
      GcdCommutes(IntAbs(b) % IntAbs(a), IntAbs(a));
    }
  }

  // ---------------------------------------------------------------------------
  // gcd on BigInt
  // ---------------------------------------------------------------------------

  /**
   * True when gcd reaches `%` with a zero divisor: neither absolute value is the
   * zero "0" that `== 0` recognises, yet num2's digits denote zero ("000", "").
   */
  predicate GcdDividesByZero(num1: BigInt, num2: BigInt)
    requires WellFormed(num1) && WellFormed(num2)
  {
    num1.value != "0" && num2.value != "0" && Num(num2.value) == 0
  }

  /**
   * gcd: on the absolute values, a zero operand gives the other one; otherwise the
   * remainder loop runs until the remainder is zero. The base cases test `== 0`,
   * which compares the fields, so a zero spelt otherwise than "0" goes on to `%`.
   */
  method Gcd(num1: BigInt, num2: BigInt) returns (r: Result<BigInt>)
    requires WellFormed(num1) && WellFormed(num2)
    ensures r.Failure? <==> GcdDividesByZero(num1, num2)
    ensures r.Failure? ==> r.error == DivisionByZero
    ensures r.Success? ==> WellFormed(r.value) && ToInt(r.value) == EuclidGcd(IntAbs(ToInt(num1)), IntAbs(ToInt(num2)))
    ensures num2.value == "0" ==> r == Success(Abs(num1))
    ensures num2.value != "0" && num1.value == "0" ==> r == Success(Abs(num2))
    ensures Canonical(num1) && Canonical(num2) ==> r.Success? && Canonical(r.value)
  {
    if Canonical(num2) {
      CanonicalBounds(num2.value);
    }
    var absNum1 := Abs(num1);
    var absNum2 := Abs(num2);
    ghost var goal := EuclidGcd(IntAbs(ToInt(num1)), IntAbs(ToInt(num2)));
    assert FromLongLong(0) == Default() by { CanonicalUnique(FromLongLong(0), Default()); }
    if EqLong(absNum2, 0) {
      GcdZero(ToInt(absNum1), 0);
      return Success(absNum1);
    }
    if EqLong(absNum1, 0) {
      GcdZero(0, ToInt(absNum2));
      return Success(absNum2);
    }
    var remainder := absNum2;
    while NeLong(remainder, 0)
      invariant WellFormed(absNum1) && WellFormed(absNum2) && remainder == absNum2
      invariant ToInt(absNum1) >= 0 && ToInt(absNum2) >= 0
      invariant EuclidGcd(ToInt(absNum1), ToInt(absNum2)) == goal
      invariant GcdDividesByZero(num1, num2) <==> ToInt(absNum2) == 0 && absNum2 != Default()
      invariant Canonical(num1) && Canonical(num2) ==> Canonical(absNum1) && Canonical(absNum2)
      decreases ToInt(remainder)
    {
      var m := Mod(absNum1, absNum2);
      if m.Failure? {
        return Failure(m.error);
      }
      DivModOfNatural(absNum1, absNum2);
      remainder := m.value;
      if ToInt(remainder) == 0 {
        CanonicalUnique(remainder, Default());
      }
      absNum1 := absNum2;
      absNum2 := remainder;
    }
    return Success(absNum1);
  }

  /** gcd(5, "000") reaches `%` with a zero divisor; gcd(14, "007") and gcd("000", 5) do not. */
  lemma GcdDividesByZeroCases()
    ensures GcdDividesByZero(FromLongLong(5), BigInt("000", '+'))
    ensures !GcdDividesByZero(FromLongLong(14), BigInt("007", '+'))
    ensures !GcdDividesByZero(BigInt("000", '+'), FromLongLong(5))
  {
    assert "000" == "00" + ['0'] && "00" == "0" + ['0'];
    assert "007" == "00" + ['7'];
    NumOfDigit('0');
    NumOfDigit('7');
    NumSnoc("00", '0');
    NumSnoc("0", '0');
    NumSnoc("00", '7');
    assert FromLongLong(5).value == "5" by { CanonicalBounds(FromLongLong(5).value); }
  }

  /** gcd(BigInt, long long): BigInt(num2) is canonical, so `%` never sees a zero divisor. */
  method GcdBigIntLong(num1: BigInt, num2: int) returns (r: BigInt)
    requires WellFormed(num1) && IsLongLong(num2)
    ensures WellFormed(r) && ToInt(r) == EuclidGcd(IntAbs(ToInt(num1)), IntAbs(num2))
    ensures Canonical(num1) ==> Canonical(r)
  {
    var y := FromLongLong(num2);
    CanonicalBounds(y.value);
    var g := Gcd(num1, y);
    r := g.value;
  }

  /** gcd(long long, BigInt). */
  method GcdLongBigInt(num1: int, num2: BigInt) returns (r: Result<BigInt>)
    requires IsLongLong(num1) && WellFormed(num2)
    ensures r.Failure? <==> GcdDividesByZero(FromLongLong(num1), num2)
    ensures r.Failure? ==> r.error == DivisionByZero
    ensures r.Success? ==> WellFormed(r.value) && ToInt(r.value) == EuclidGcd(IntAbs(num1), IntAbs(ToInt(num2)))
    ensures Canonical(num2) ==> r.Success? && Canonical(r.value)
  {
    r := Gcd(FromLongLong(num1), num2);
  }

  /** gcd(BigInt, string): invalid text takes the string constructor's error path. */
  method GcdBigIntStr(num1: BigInt, num2: string) returns (r: Result<BigInt>)
    requires WellFormed(num1)
    ensures !IsValidBigIntString(num2) ==> r == Failure(InvalidInput(num2))
    ensures IsValidBigIntString(num2) ==>
      (r.Failure? <==> GcdDividesByZero(num1, FromString(num2).value))
      && (r.Failure? ==> r.error == DivisionByZero)
    ensures r.Success? ==> IsValidBigIntString(num2) && WellFormed(r.value)
    ensures r.Success? ==> ToInt(r.value) == EuclidGcd(IntAbs(ToInt(num1)), IntAbs(ToInt(FromString(num2).value)))
    ensures Canonical(num1) && CanonicalOperand(num2) && IsValidBigIntString(num2) ==> r.Success? && Canonical(r.value)
  {
    var parsed := FromString(num2);
    if parsed.Failure? {
      return Failure(parsed.error);
    }
    r := Gcd(num1, parsed.value);
  }

  /** gcd(string, BigInt). */
  method GcdStrBigInt(num1: string, num2: BigInt) returns (r: Result<BigInt>)
    requires WellFormed(num2)
    ensures !IsValidBigIntString(num1) ==> r == Failure(InvalidInput(num1))
    ensures IsValidBigIntString(num1) ==>
      (r.Failure? <==> GcdDividesByZero(FromString(num1).value, num2))
      && (r.Failure? ==> r.error == DivisionByZero)
    ensures r.Success? ==> IsValidBigIntString(num1) && WellFormed(r.value)
    ensures r.Success? ==> ToInt(r.value) == EuclidGcd(IntAbs(ToInt(FromString(num1).value)), IntAbs(ToInt(num2)))
    ensures CanonicalOperand(num1) && IsValidBigIntString(num1) && Canonical(num2) ==> r.Success? && Canonical(r.value)
  {
    var parsed := FromString(num1);
    if parsed.Failure? {
      return Failure(parsed.error);
    }
    r := Gcd(parsed.value, num2);
  }

  // ---------------------------------------------------------------------------
  // lcm
  // ---------------------------------------------------------------------------

  lemma CancelFactor(g: nat, x: int, y: int)
    requires g > 0 && x * g == y * g
    ensures x == y
  {
    assert (x - y) * g == 0;
  }

  /** When y is a multiple of g, the number m with m * g == x * y is a multiple of x. */
  lemma CofactorMultiple(x: nat, y: nat, g: nat, m: int)
    requires x > 0 && g > 0 && y % g == 0 && m * g == x * y
    ensures m % x == 0
  {
    var j := y / g;
    assert y == g * j;
    MulAssoc(x, j, g);
    assert g * j == j * g;
    CancelFactor(g, m, x * j);
    MultipleMod(x, j);
  }

  /** A number m with m * gcd(a, b) == a * b is a common multiple of a and b. */
  lemma LcmIsCommonMultiple(a: nat, b: nat, m: int)
    requires a > 0 && b > 0 && m * EuclidGcd(a, b) == a * b
    ensures Divides(a, m) && Divides(b, m)
  {
    var g := EuclidGcd(a, b);
    GcdDivides(a, b);
    GcdZero(a, b);
    CofactorMultiple(a, b, g, m);
    assert b * a == a * b;
    CofactorMultiple(b, a, g, m);
  }

  /** A multiple of g times anything is a multiple of g. */
  lemma FactorMultiple(g: nat, a: nat, b: nat)
    requires g > 0 && a % g == 0
    ensures (a * b) % g == 0
  {
    var i := a / g;
    assert a == g * i + a % g;
    MulAssoc(g, i, b);
    MultipleMod(g, i * b);
  }

  /** |a * b| is an exact multiple of gcd(a, b): the division in lcm leaves no remainder. */
  lemma GcdDividesProduct(a: nat, b: nat)
    requires a > 0 || b > 0
    ensures EuclidGcd(a, b) > 0 && (a * b) % EuclidGcd(a, b) == 0
    ensures (a * b) / EuclidGcd(a, b) * EuclidGcd(a, b) == a * b
  {
    var g := EuclidGcd(a, b);
    GcdDivides(a, b);
    GcdZero(a, b);
    assert a % g == 0;
    FactorMultiple(g, a, b);
    ExactQuotient(a * b, g);
  }

  /** Dividing an exact multiple and multiplying back gives the multiple. */
  lemma ExactQuotient(p: int, g: int)
    requires g > 0 && p % g == 0
    ensures (p / g) * g == p
  {
    assert p == g * (p / g) + p % g;
  }

  /**
   * lcm: 0 when either operand is 0; otherwise |num1 * num2| / gcd(num1, num2), the
   * positive number whose product with the gcd is |num1 * num2|.
   */
  method Lcm(num1: BigInt, num2: BigInt) returns (r: BigInt)
    requires Canonical(num1) && Canonical(num2)
    ensures Canonical(r)
    ensures ToInt(num1) == 0 || ToInt(num2) == 0 ==> ToInt(r) == 0
    ensures ToInt(num1) != 0 && ToInt(num2) != 0 ==> ToInt(r) > 0
    ensures ToInt(num1) != 0 && ToInt(num2) != 0 ==> ToInt(r) * EuclidGcd(IntAbs(ToInt(num1)), IntAbs(ToInt(num2))) == IntAbs(ToInt(num1) * ToInt(num2))
  {
    if EqLong(num1, 0) || EqLong(num2, 0) {
      return FromLongLong(0);
    }
    var product := Mul(num1, num2);
    var gcd := Gcd(num1, num2);
    var g := gcd.value;
    var magnitude := Abs(product);
    ghost var a, b := IntAbs(ToInt(num1)), IntAbs(ToInt(num2));
    AbsProduct(ToInt(num1), ToInt(num2));
    GcdDividesProduct(a, b);
    DivModOfNatural(magnitude, g);
    r := Div(magnitude, g).value;
    LcmPositive(a, b, ToInt(r), ToInt(g));
  }

  lemma LcmPositive(a: nat, b: nat, l: int, g: int)
    requires a > 0 && b > 0 && g > 0 && l * g == a * b
    ensures l > 0
  {
  }

  /** lcm(BigInt, long long). */
  method LcmBigIntLong(num1: BigInt, num2: int) returns (r: BigInt)
    requires Canonical(num1) && IsLongLong(num2)
    ensures Canonical(r)
    ensures ToInt(num1) == 0 || num2 == 0 ==> ToInt(r) == 0
    ensures ToInt(num1) != 0 && num2 != 0 ==> ToInt(r) > 0
    ensures ToInt(num1) != 0 && num2 != 0 ==> ToInt(r) * EuclidGcd(IntAbs(ToInt(num1)), IntAbs(num2)) == IntAbs(ToInt(num1) * num2)
  {
    r := Lcm(num1, FromLongLong(num2));
  }

  /** lcm(long long, BigInt). */
  method LcmLongBigInt(num1: int, num2: BigInt) returns (r: BigInt)
    requires IsLongLong(num1) && Canonical(num2)
    ensures Canonical(r)
    ensures num1 == 0 || ToInt(num2) == 0 ==> ToInt(r) == 0
    ensures num1 != 0 && ToInt(num2) != 0 ==> ToInt(r) > 0
    ensures num1 != 0 && ToInt(num2) != 0 ==> ToInt(r) * EuclidGcd(IntAbs(num1), IntAbs(ToInt(num2))) == IntAbs(num1 * ToInt(num2))
  {
    r := Lcm(FromLongLong(num1), num2);
  }

  /** lcm(BigInt, string). */
  method LcmBigIntStr(num1: BigInt, num2: string) returns (r: Result<BigInt>)
    requires Canonical(num1) && CanonicalOperand(num2)
    ensures r.Failure? <==> !IsValidBigIntString(num2)
    ensures r.Failure? ==> r.error == InvalidInput(num2)
    ensures r.Success? ==> Canonical(r.value)
    ensures r.Success? && (ToInt(num1) == 0 || ToInt(FromString(num2).value) == 0) ==> ToInt(r.value) == 0
    ensures r.Success? && ToInt(num1) != 0 && ToInt(FromString(num2).value) != 0 ==>
      var b := ToInt(FromString(num2).value);
      ToInt(r.value) > 0 && ToInt(r.value) * EuclidGcd(IntAbs(ToInt(num1)), IntAbs(b)) == IntAbs(ToInt(num1) * b)
  {
    var parsed := FromString(num2);
    if parsed.Failure? {
      return Failure(parsed.error);
    }
    var l := Lcm(num1, parsed.value);
    r := Success(l);
  }

  /** lcm(string, BigInt). */
  method LcmStrBigInt(num1: string, num2: BigInt) returns (r: Result<BigInt>)
    requires CanonicalOperand(num1) && Canonical(num2)
    ensures r.Failure? <==> !IsValidBigIntString(num1)
    ensures r.Failure? ==> r.error == InvalidInput(num1)
    ensures r.Success? ==> Canonical(r.value)
    ensures r.Success? && (ToInt(FromString(num1).value) == 0 || ToInt(num2) == 0) ==> ToInt(r.value) == 0
    ensures r.Success? && ToInt(FromString(num1).value) != 0 && ToInt(num2) != 0 ==>
      var a := ToInt(FromString(num1).value);
      ToInt(r.value) > 0 && ToInt(r.value) * EuclidGcd(IntAbs(a), IntAbs(ToInt(num2))) == IntAbs(a * ToInt(num2))
  {
    var parsed := FromString(num1);
    if parsed.Failure? {
      return Failure(parsed.error);
    }
    var l := Lcm(parsed.value, num2);
    r := Success(l);
  }
}

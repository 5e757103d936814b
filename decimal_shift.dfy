/**
 * `<<` and `>>` of include/operators/bitwise.hpp for the decimal-string revision:
 * a shift by k doubles or truncating-halves the number k times and then puts the
 * operand's sign back; a negative shift amount is an error.
 */
module DecimalShift {
  import opened Wrappers
  import opened DecimalDigits
  import opened DecimalBigInt
  import opened DecimalArithmetic
  import opened DecimalDivision

  function Pow2(k: nat): (p: nat)
    ensures p >= 1
  {
    if k == 0 then 1 else 2 * Pow2(k - 1)
  }

  lemma {:induction false} Pow2Monotone(i: nat, j: nat)
    requires i <= j
    ensures Pow2(i) <= Pow2(j)
    decreases j
  {
    if i < j {
      Pow2Monotone(i, j - 1);
    }
  }

  /** Dividing by p and then by c is dividing by p * c. */
  lemma DivDiv(n: nat, p: nat, c: nat)
    requires p > 0 && c > 0
    ensures (n / p) / c == n / (p * c)
  {
    var q1, r1 := n / p, n % p;
    var q2, r2 := q1 / c, q1 % c;
    assert n == p * q1 + r1;
    assert q1 == c * q2 + r2;
    assert p * q1 == (p * c) * q2 + p * r2;
    assert r2 <= c - 1;
    MulLeftMonotone(r2, c - 1, p);
    assert p * r2 + r1 < p * c;
    EuclidUnique(n, p * c, q2, p * r2 + r1);
  }

  /** One more truncating halving is truncating division by twice the divisor. */
  lemma HalveStep(x: int, p: nat)
    requires p > 0
    ensures TruncDiv(TruncDiv(x, p), 2) == TruncDiv(x, 2 * p)
  {
    DivDiv(IntAbs(x), p, 2);
    assert p * 2 == 2 * p;
  }

  /** Once the truncated quotient is zero, it stays zero for every larger divisor. */
  lemma QuotientStaysZero(x: int, p: nat, q: nat)
    requires 0 < p <= q && TruncDiv(x, p) == 0
    ensures TruncDiv(x, q) == 0
  {
    var n := IntAbs(x);
    SmallQuotient(n, p);
    EuclidUnique(n, q, 0, n);
  }

  /** A zero quotient means the dividend is below the divisor. */
  lemma SmallQuotient(n: nat, p: nat)
    requires p > 0 && n / p == 0
    ensures n < p
  {
    var r := n % p;
    assert n == p * (n / p) + r;
    assert p * (n / p) == 0;
  }

  /** A non-zero truncated quotient by a positive number has the dividend's sign. */
  lemma QuotientKeepsSign(x: int, p: nat)
    requires p > 0 && TruncDiv(x, p) != 0
    ensures TruncDiv(x, p) < 0 <==> x < 0
  {
    var q := IntAbs(x) / p;
    NaturalQuotient(IntAbs(x), p);
    assert TruncDiv(x, p) == if x < 0 then 0 - q else q;
  }

  /** A canonical non-zero truncated quotient of x carries the sign field of x. */
  lemma QuotientSign(x: BigInt, q: BigInt, p: nat)
    requires WellFormed(x) && Canonical(q) && p > 0
    requires ToInt(q) != 0 && ToInt(q) == TruncDiv(ToInt(x), p)
    ensures q.sign == x.sign
  {
    SignOfCanonical(q);
    QuotientKeepsSign(ToInt(x), p);
  }

  lemma DoubleStep(x: int, p: int)
    ensures x * p * 2 == x * (2 * p)
  {
  }

  /** Scaling by a positive factor keeps the sign. */
  lemma ScaledSign(x: int, p: nat)
    requires p >= 1
    ensures x * p < 0 <==> x < 0
  {
    NegateProducts(p, x);
    if x < 0 {
      MulLeftMonotone(1, p, 0 - x);
      assert (0 - x) * p == 0 - x * p;
    } else {
      MulLeftMonotone(0, x, p);
    }
  }

  /**
   * `<<`: x * 2^num with the sign of x; a negative num throws
   * invalid_argument("Expected non-negative integer").
   */
  method ShiftLeft(x: BigInt, num: int) returns (r: Result<BigInt>)
    requires Canonical(x) && IsInt(num)
    ensures r.Failure? <==> num < 0
    ensures r.Failure? ==> r.error == InvalidArgument("Expected non-negative integer")
    ensures r.Success? ==> Canonical(r.value) && ToInt(r.value) == ToInt(x) * Pow2(num)
    ensures r.Success? ==> r.value.sign == x.sign
    ensures num == 0 ==> r == Success(x)
  {
    var result := x;
    var originalSign := x.sign;
    if num < 0 {
      return Failure(InvalidArgument("Expected non-negative integer"));
    }
    var i := 0;
    while i < num
      invariant 0 <= i <= num && Canonical(result)
      invariant ToInt(result) == ToInt(x) * Pow2(i)
    {
      result := MulLong(result, 2);
      DoubleStep(ToInt(x), Pow2(i));
      i := i + 1;
    }
    SignOfCanonical(x);
    SignOfCanonical(result);
    ScaledSign(ToInt(x), Pow2(num));
    result := result.(sign := originalSign);
    if num == 0 {
      CanonicalUnique(result, x);
    }
    r := Success(result);
  }

  /**
   * `>>`: num truncating halvings; reaching zero returns `BigInt()`, otherwise the
   * sign of x is put back. The result is x / 2^num truncated toward zero.
   */
  method ShiftRight(x: BigInt, num: int) returns (r: Result<BigInt>)
    requires WellFormed(x) && IsInt(num)
    ensures r.Failure? <==> num < 0
    ensures r.Failure? ==> r.error == InvalidArgument("Expected non-negative integer")
    ensures r.Success? ==> WellFormed(r.value) && ToInt(r.value) == TruncDiv(ToInt(x), Pow2(num))
    ensures r.Success? && (num > 0 || Canonical(x)) ==> Canonical(r.value)
    ensures r.Success? && (num > 0 || Canonical(x)) && ToInt(r.value) == 0 ==> r.value == Default()
    ensures num == 0 ==> r == Success(x)
  {
    var result := x;
    var originalSign := x.sign;
    if num < 0 {
      return Failure(InvalidArgument("Expected non-negative integer"));
    }
    var i := 0;
    while i < num
      invariant 0 <= i <= num && WellFormed(result)
      invariant i == 0 ==> result == x
      invariant i > 0 ==> Canonical(result) && ToInt(result) != 0
      invariant ToInt(result) == TruncDiv(ToInt(x), Pow2(i))
    {
      HalveStep(ToInt(x), Pow2(i));
      result := DivLong(result, 2).value;
      i := i + 1;
      if EqLong(result, 0) {
        Pow2Monotone(i, num);
        QuotientStaysZero(ToInt(x), Pow2(i), Pow2(num));
        return Success(Default());
      }
    }
    if num > 0 {
      QuotientSign(x, result, Pow2(num));
    }
    result := result.(sign := originalSign);
    if ToInt(result) == 0 && Canonical(result) {
      CanonicalUnique(result, Default());
    }
    r := Success(result);
  }

  /** Shifting right undoes shifting left. */
  lemma ShiftRightUndoesShiftLeft(x: int, k: nat)
    ensures TruncDiv(x * Pow2(k), Pow2(k)) == x
  {
    var p := Pow2(k);
    var n := IntAbs(x);
    AbsProduct(x, p);
    assert IntAbs(x * p) == p * n + 0;
    EuclidUnique(IntAbs(x * p), p, n, 0);
    ScaledSign(x, p);
  }
}

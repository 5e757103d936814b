/**
 * include/functions/math.hpp for the decimal-string revision: big_pow10 and the
 * square-and-multiply pow with its long long and string overloads.
 */
module DecimalPow {
  import opened Wrappers
  import opened DecimalDigits
  import opened DecimalBigInt
  import opened DecimalArithmetic
  import opened DecimalDivision

  /** big_pow10: the BigInt built from the text "1" followed by exp zeros. */
  function BigPow10(exp: nat): (r: BigInt)
    ensures Canonical(r) && r.value == "1" + Zeros(exp) && r.sign == '+'
    ensures ToInt(r) == Pow10(exp)
  {
    NumOfPowerOf10String(exp);
    FromString("1" + Zeros(exp)).value
  }

  /** b raised to e, the reference for pow. */
  function IntPow(b: int, e: nat): int
  {
    if e == 0 then 1 else b * IntPow(b, e - 1)
  }

  lemma {:induction false} IntPowAdd(b: int, i: nat, j: nat)
    ensures IntPow(b, i + j) == IntPow(b, i) * IntPow(b, j)
  {
    if i > 0 {
      IntPowAdd(b, i - 1, j);
      assert IntPow(b, i + j) == b * IntPow(b, i - 1 + j);
      MulAssoc(b, IntPow(b, i - 1), IntPow(b, j));
    }
  }

  /** Squaring the base doubles the exponent. */
  lemma {:induction false} IntPowSquare(b: int, k: nat)
    ensures IntPow(b * b, k) == IntPow(b, 2 * k)
  {
    if k > 0 {
      IntPowSquare(b, k - 1);
      var m: nat := 2 * (k - 1);
      assert 2 * k == m + 2;
      assert IntPow(b, m + 2) == b * IntPow(b, m + 1);
      assert IntPow(b, m + 1) == b * IntPow(b, m);
      MulAssoc(b, b, IntPow(b, m));
    }
  }

  /** One round of the loop keeps result^exp * result_odd unchanged. */
  lemma PowStep(result: int, odd: int, e: nat, total: int)
    requires e > 1 && IntPow(result, e) * odd == total
    ensures IntPow(result * result, e / 2) * (if e % 2 == 1 then odd * result else odd) == total
  {
    IntPowSquare(result, e / 2);
    if e % 2 == 1 {
      assert e == 2 * (e / 2) + 1;
      assert IntPow(result, e) == result * IntPow(result, 2 * (e / 2));
      MulAssoc(IntPow(result, 2 * (e / 2)), odd, result);
      MulAssoc(result, IntPow(result, 2 * (e / 2)), odd);
    } else {
      assert e == 2 * (e / 2);
    }
  }

  /**
   * pow(BigInt, int). A negative exponent gives base when |base| == 1 and 0 otherwise,
   * and fails on a zero base; a zero exponent gives 1 and fails on a zero base; a
   * positive exponent gives base^exp.
   */
  method Pow(base: BigInt, exp: int) returns (r: Result<BigInt>)
    requires Canonical(base) && IsInt(exp)
    ensures r.Failure? <==> ToInt(base) == 0 && exp <= 0
    ensures r.Failure? ==> r.error == LogicError(if exp < 0 then "Cannot divide by zero" else "Zero cannot be raised to zero")
    ensures r.Success? ==> Canonical(r.value)
    ensures r.Success? && exp < 0 ==> ToInt(r.value) == if IntAbs(ToInt(base)) == 1 then ToInt(base) else 0
    ensures r.Success? && exp >= 0 ==> ToInt(r.value) == IntPow(ToInt(base), exp)
  {
    if exp < 0 {
      if EqLong(base, 0) {
        return Failure(LogicError("Cannot divide by zero"));
      }
      if EqLong(Abs(base), 1) {
        return Success(base);
      }
      return Success(FromLongLong(0));
    }
    if exp == 0 {
      if EqLong(base, 0) {
        return Failure(LogicError("Zero cannot be raised to zero"));
      }
      return Success(FromLongLong(1));
    }
    var result := base;
    var resultOdd := FromLongLong(1);
    var e: int := exp;
    while e > 1
      invariant 1 <= e && Canonical(result) && Canonical(resultOdd)
      invariant IntPow(ToInt(result), e) * ToInt(resultOdd) == IntPow(ToInt(base), exp)
    {
      PowStep(ToInt(result), ToInt(resultOdd), e, IntPow(ToInt(base), exp));
      if e % 2 == 1 {
        resultOdd := Mul(resultOdd, result);
      }
      result := Mul(result, result);
      e := e / 2;
    }
    assert IntPow(ToInt(result), 1) == ToInt(result);
    var product := Mul(result, resultOdd);
    r := Success(product);
  }

  /** pow(long long, int): the base goes through the long long constructor. */
  method PowLong(base: int, exp: int) returns (r: Result<BigInt>)
    requires IsLongLong(base) && IsInt(exp)
    ensures r.Failure? <==> base == 0 && exp <= 0
    ensures r.Failure? ==> r.error == LogicError(if exp < 0 then "Cannot divide by zero" else "Zero cannot be raised to zero")
    ensures r.Success? ==> Canonical(r.value)
    ensures r.Success? && exp < 0 ==> ToInt(r.value) == if IntAbs(base) == 1 then base else 0
    ensures r.Success? && exp >= 0 ==> ToInt(r.value) == IntPow(base, exp)
  {
    r := Pow(FromLongLong(base), exp);
  }

  /** pow(string, int): the base goes through the string constructor, whose failure ends the call. */
  method PowStr(base: string, exp: int) returns (r: Result<BigInt>)
    requires CanonicalOperand(base) && IsInt(exp)
    ensures !IsValidBigIntString(base) ==> r == Failure(InvalidInput(base))
    ensures IsValidBigIntString(base) ==> (r.Failure? <==> ToInt(FromString(base).value) == 0 && exp <= 0)
    ensures IsValidBigIntString(base) && r.Failure? ==>
      r.error == LogicError(if exp < 0 then "Cannot divide by zero" else "Zero cannot be raised to zero")
    ensures r.Success? ==> IsValidBigIntString(base) && Canonical(r.value)
    ensures r.Success? && exp < 0 ==>
      var b := ToInt(FromString(base).value);
      ToInt(r.value) == if IntAbs(b) == 1 then b else 0
    ensures r.Success? && exp >= 0 ==> ToInt(r.value) == IntPow(ToInt(FromString(base).value), exp)
  {
    var parsed := FromString(base);
    if parsed.Failure? {
      return Failure(parsed.error);
    }
    r := Pow(parsed.value, exp);
  }
}

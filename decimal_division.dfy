/**
 * `/` and `%` of the decimal-string revision, declared in include/BigInt.hpp.
 * Their bodies are not part of this model; they are given by the C++ contract
 * the rest of the library relies on: the quotient is truncated toward zero, the
 * remainder takes the sign of the dividend, and a zero divisor is an error.
 */
module DecimalDivision {
  import opened Wrappers
  import opened DecimalDigits
  import opened DecimalBigInt

  function IntAbs(n: int): nat { if n < 0 then -n else n }

  /** The quotient of C++ integer division: |a| / |b|, negated when the signs differ. */
  function TruncDiv(a: int, b: int): int
    requires b != 0
  {
    var q := IntAbs(a) / IntAbs(b);
    if (a < 0) == (b < 0) then q else -q
  }

  /** The remainder of C++ integer division: |a| % |b| with the sign of a. */
  function TruncMod(a: int, b: int): int
    requires b != 0
  {
    var r := IntAbs(a) % IntAbs(b);
    if a < 0 then -r else r
  }

  /** q and r are the truncated quotient and remainder of a by b. */
  predicate IsTruncDivision(a: int, b: int, q: int, r: int)
  {
    a == b * q + r && IntAbs(r) < IntAbs(b) && (r == 0 || (r < 0 <==> a < 0))
  }

  /** r is the truncated remainder of a by b: a - r is a multiple of b, and r is small with a's sign. */
  predicate IsTruncRemainder(a: int, b: int, r: int)
    requires b != 0
  {
    (a - r) % b == 0 && IntAbs(r) < IntAbs(b) && (r == 0 || (r < 0 <==> a < 0))
  }

  lemma NegateProducts(b: int, q: int)
    ensures b * (0 - q) == 0 - b * q && (0 - b) * q == 0 - b * q && (0 - b) * (0 - q) == b * q
  {
  }

  /** |a| == |b| * (|a| / |b|) + |a| % |b|, in the signed terms of TruncDiv and TruncMod. */
  lemma {:induction false} TruncDivisionHolds(a: int, b: int)
    requires b != 0
    ensures IsTruncDivision(a, b, TruncDiv(a, b), TruncMod(a, b))
  {
    var q := IntAbs(a) / IntAbs(b);
    var r := IntAbs(a) % IntAbs(b);
    assert IntAbs(a) == IntAbs(b) * q + r;
    NegateProducts(b, q);
  }

  /** A multiple of d that lies in [0, |d|) is zero. */
  lemma SmallMultiple(d: int, t: int)
    requires d != 0 && 0 <= d * t < IntAbs(d)
    ensures t == 0
  {
    if t != 0 {
      ProductGrows(d, t);
    }
  }

  lemma ProductGrows(d: int, t: int)
    requires t != 0
    ensures IntAbs(d * t) >= IntAbs(d)
  {
    AbsProduct(d, t);
    GrowsNat(IntAbs(d), IntAbs(t));
  }

  lemma GrowsNat(m: nat, k: nat)
    requires k >= 1
    ensures m * k >= m
  {
    assert m * k == m * (k - 1) + m;
  }

  lemma AbsProduct(d: int, t: int)
    ensures IntAbs(d * t) == IntAbs(d) * IntAbs(t)
  {
    NegateProducts(d, t);
    if d < 0 && t >= 0 {
      assert d * t <= 0;
    } else if d >= 0 && t < 0 {
      assert d * t <= 0;
    }
  }

  /** Two Euclidean divisions of one nat by one positive number agree. */
  lemma EuclidUnique(n: nat, d: nat, q: int, r: int)
    requires d > 0 && n == d * q + r && 0 <= r < d
    ensures q == n / d && r == n % d
  {
    var q0, r0 := n / d, n % d;
    assert n == d * q0 + r0;
    if r <= r0 {
      assert d * (q - q0) == r0 - r;
      SmallMultiple(d, q - q0);
    } else {
      assert d * (q0 - q) == r - r0;
      SmallMultiple(d, q0 - q);
    }
  }

  /** A multiple of b leaves no remainder. */
  lemma MultipleMod(b: int, q: int)
    requires b != 0
    ensures (b * q) % b == 0
  {
    var x := b * q;
    assert x == b * (x / b) + x % b;
    assert b * (q - x / b) == x % b;
    SmallMultiple(b, q - x / b);
  }

  /** The truncated quotient and remainder are the only pair with the truncating properties. */
  lemma TruncDivisionUnique(a: int, b: int, q: int, r: int)
    requires b != 0 && IsTruncDivision(a, b, q, r)
    ensures q == TruncDiv(a, b) && r == TruncMod(a, b)
  {
    NegateProducts(b, q);
    var q' := if (a < 0) == (b < 0) then q else 0 - q;
    assert IntAbs(a) == IntAbs(b) * q' + IntAbs(r);
    EuclidUnique(IntAbs(a), IntAbs(b), q', IntAbs(r));
  }

  /** A remainder with the truncating properties is the one of TruncMod, with quotient (a - r) / b. */
  lemma TruncRemainderUnique(a: int, b: int, r: int)
    requires b != 0 && IsTruncRemainder(a, b, r)
    ensures r == TruncMod(a, b) && IsTruncDivision(a, b, (a - r) / b, r)
  {
    assert a - r == b * ((a - r) / b) + (a - r) % b;
    TruncDivisionUnique(a, b, (a - r) / b, r);
  }

  /** On a non-negative dividend and a positive divisor, C++ division is Dafny's. */
  lemma TruncDivOfNatural(a: int, b: int)
    requires a >= 0 && b > 0
    ensures TruncDiv(a, b) == a / b && TruncMod(a, b) == a % b
  {
  }

  /**
   * `/`: the truncated quotient; a zero divisor is reported as DivisionByZero.
   * The quotient is characterised by its remainder a - b * q, not computed.
   */
  function Div(a: BigInt, b: BigInt): (q: Result<BigInt>)
    requires WellFormed(a) && WellFormed(b)
    ensures q.Failure? <==> ToInt(b) == 0
    ensures q.Failure? ==> q.error == DivisionByZero
    ensures q.Success? ==> Canonical(q.value)
    ensures q.Success? ==> IsTruncDivision(ToInt(a), ToInt(b), ToInt(q.value), ToInt(a) - ToInt(b) * ToInt(q.value))
  {
    if ToInt(b) == 0 then Failure(DivisionByZero)
    else
      TruncDivisionHolds(ToInt(a), ToInt(b));
      Success(FromInt(TruncDiv(ToInt(a), ToInt(b))))
  }

  /** `%`: the remainder that takes the dividend's sign; a zero divisor is DivisionByZero. */
  function Mod(a: BigInt, b: BigInt): (m: Result<BigInt>)
    requires WellFormed(a) && WellFormed(b)
    ensures m.Failure? <==> ToInt(b) == 0
    ensures m.Failure? ==> m.error == DivisionByZero
    ensures m.Success? ==> Canonical(m.value) && IsTruncRemainder(ToInt(a), ToInt(b), ToInt(m.value))
  {
    if ToInt(b) == 0 then Failure(DivisionByZero)
    else
      var r := TruncMod(ToInt(a), ToInt(b));
      TruncDivisionHolds(ToInt(a), ToInt(b));
      assert ToInt(a) - r == ToInt(b) * TruncDiv(ToInt(a), ToInt(b));
      MultipleMod(ToInt(b), TruncDiv(ToInt(a), ToInt(b)));
      Success(FromInt(r))
  }

  /** a == (a / b) * b + a % b, with the C++ quotient and remainder. */
  lemma DivModIdentity(a: BigInt, b: BigInt)
    requires WellFormed(a) && WellFormed(b) && ToInt(b) != 0
    ensures ToInt(a) == ToInt(b) * ToInt(Div(a, b).value) + ToInt(Mod(a, b).value)
    ensures ToInt(Div(a, b).value) == TruncDiv(ToInt(a), ToInt(b))
    ensures ToInt(Mod(a, b).value) == TruncMod(ToInt(a), ToInt(b))
  {
    var q := ToInt(Div(a, b).value);
    TruncDivisionUnique(ToInt(a), ToInt(b), q, ToInt(a) - ToInt(b) * q);
    TruncRemainderUnique(ToInt(a), ToInt(b), ToInt(Mod(a, b).value));
  }

  /** A non-negative dividend and a positive divisor give Dafny's quotient and remainder. */
  lemma DivModOfNatural(a: BigInt, b: BigInt)
    requires WellFormed(a) && WellFormed(b) && ToInt(a) >= 0 && ToInt(b) > 0
    ensures ToInt(Div(a, b).value) == ToInt(a) / ToInt(b) >= 0
    ensures ToInt(Mod(a, b).value) == ToInt(a) % ToInt(b)
  {
    DivModIdentity(a, b);
    TruncDivOfNatural(ToInt(a), ToInt(b));
    NaturalQuotient(ToInt(a), ToInt(b));
  }

  lemma NaturalQuotient(a: int, b: int)
    requires a >= 0 && b > 0
    ensures a / b >= 0
  {
    assert a == b * (a / b) + a % b;
  }

  /** `/` with a long long divisor converts it with the long long constructor first. */
  function DivLong(a: BigInt, num: int): (q: Result<BigInt>)
    requires WellFormed(a) && IsLongLong(num)
    ensures q.Failure? <==> num == 0
    ensures q.Success? ==> Canonical(q.value) && ToInt(q.value) == TruncDiv(ToInt(a), num)
  {
    var q := Div(a, FromLongLong(num));
    if q.Success? then DivModIdentity(a, FromLongLong(num)); q else q
  }

  /** `%` with a long long divisor. */
  function ModLong(a: BigInt, num: int): (m: Result<BigInt>)
    requires WellFormed(a) && IsLongLong(num)
    ensures m.Failure? <==> num == 0
    ensures m.Success? ==> Canonical(m.value) && ToInt(m.value) == TruncMod(ToInt(a), num)
  {
    var m := Mod(a, FromLongLong(num));
    if m.Success? then DivModIdentity(a, FromLongLong(num)); m else m
  }

  /** `/` with a string divisor: the string constructor's error, or division by the parsed value. */
  function DivStr(a: BigInt, num: string): (q: Result<BigInt>)
    requires WellFormed(a)
    ensures !IsValidBigIntString(num) ==> q == Failure(InvalidInput(num))
    ensures IsValidBigIntString(num) && ToInt(FromString(num).value) == 0 ==> q == Failure(DivisionByZero)
    ensures q.Success? ==> IsValidBigIntString(num) && Canonical(q.value)
    ensures q.Success? ==> ToInt(q.value) == TruncDiv(ToInt(a), ToInt(FromString(num).value))
  {
    var parsed := FromString(num);
    if parsed.Failure? then Failure(InvalidInput(num))
    else
      var q := Div(a, parsed.value);
      if q.Success? then DivModIdentity(a, parsed.value); q else q
  }

  /** `%` with a string divisor. */
  function ModStr(a: BigInt, num: string): (m: Result<BigInt>)
    requires WellFormed(a)
    ensures !IsValidBigIntString(num) ==> m == Failure(InvalidInput(num))
    ensures IsValidBigIntString(num) && ToInt(FromString(num).value) == 0 ==> m == Failure(DivisionByZero)
    ensures m.Success? ==> IsValidBigIntString(num) && Canonical(m.value)
    ensures m.Success? ==> ToInt(m.value) == TruncMod(ToInt(a), ToInt(FromString(num).value))
  {
    var parsed := FromString(num);
    if parsed.Failure? then Failure(InvalidInput(num))
    else
      var m := Mod(a, parsed.value);
      if m.Success? then DivModIdentity(a, parsed.value); m else m
  }
}

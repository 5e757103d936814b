/**
 * The limb-vector revision of BigInt as a value: `magnitude` (64-bit limbs, least
 * significant first) and `is_negative`. Its constructors, unary + and -
 * (include/operators/unary_arithmetic.hpp) and the relational operators with
 * their int64_t and string overloads (include/operators/relational.hpp).
 */
module LimbBigInt {
  import opened Wrappers
  import opened Limbs
  import DecimalDigits
  import D = DecimalBigInt

  datatype BigInt = BigInt(magnitude: seq<Limb>, isNegative: bool)

  /** Every constructor leaves at least one limb; unary - reads magnitude[0]. */
  predicate WellFormed(x: BigInt) { |x.magnitude| >= 1 }

  /** Normalised (no zero limb on top) and no negative zero. */
  predicate Normal(x: BigInt)
  {
    WellFormed(x) && NoTrailingZero(x.magnitude) && (x.magnitude == [0] ==> !x.isNegative)
  }

  function ToInt(x: BigInt): int
  {
    if x.isNegative then 0 - LimbVal(x.magnitude) else LimbVal(x.magnitude)
  }

  /** An int64_t operand whose llabs and negation are defined. */
  predicate IsInt64Operand(num: int) { IsLongLong(num) && num != LLONG_MIN }

  function IntAbs(n: int): nat { if n < 0 then -n else n }

  lemma {:induction false} NormalSign(x: BigInt)
    requires Normal(x)
    ensures x.isNegative <==> ToInt(x) < 0
    ensures ToInt(x) == 0 <==> x == BigInt([0], false)
  {
    if |x.magnitude| >= 2 {
      LimbValLower(x.magnitude);
    } else {
      assert LimbVal(x.magnitude) == x.magnitude[0] + BASE * LimbVal([]);
      assert x.magnitude == [x.magnitude[0]];
    }
  }

  /** Normal BigInts denoting the same integer are the same. */
  lemma NormalUnique(a: BigInt, b: BigInt)
    requires Normal(a) && Normal(b) && ToInt(a) == ToInt(b)
    ensures a == b
  {
    NormalSign(a);
    NormalSign(b);
    if ToInt(a) != 0 {
      NormalInjective(a.magnitude, b.magnitude);
    }
  }

  /** A normal BigInt whose value is below 2^64 in size has one limb holding that size. */
  lemma SingleLimb(x: BigInt)
    requires Normal(x) && IntAbs(ToInt(x)) < BASE
    ensures |x.magnitude| == 1 && x.magnitude[0] == IntAbs(ToInt(x))
  {
    if |x.magnitude| >= 2 {
      Pow64Monotone(1, |x.magnitude| - 1);
      LimbValLower(x.magnitude);
    } else {
      assert LimbVal(x.magnitude) == x.magnitude[0] + BASE * LimbVal([]);
    }
  }

  /** With one limb, the value is that limb. */
  lemma OneLimbValue(x: BigInt)
    requires |x.magnitude| == 1
    ensures LimbVal(x.magnitude) == x.magnitude[0]
  {
    assert LimbVal(x.magnitude) == x.magnitude[0] + BASE * LimbVal([]);
  }

  // ---------------------------------------------------------------------------
  // Constructors (include/constructors/constructors.hpp)
  // ---------------------------------------------------------------------------

  /** BigInt(): one zero limb, non-negative. */
  function Default(): (r: BigInt)
    ensures Normal(r) && ToInt(r) == 0
  {
    BigInt([0], false)
  }

  /** BigInt(long long) with 64-bit limbs: the single limb llabs(num), negative iff num < 0. */
  function FromInt64(num: int): (r: BigInt)
    requires IsInt64Operand(num)
    ensures Normal(r) && ToInt(r) == num && |r.magnitude| == 1
  {
    var r := BigInt([IntAbs(num)], num < 0);
    assert LimbVal(r.magnitude) == IntAbs(num) + BASE * LimbVal([]);
    r
  }

  function InvalidIntegerMessage(num: string): string
  {
    "Expected an integer, got '" + num + "'"
  }

  /**
   * BigInt(std::string): the digits are validated but not converted, so the
   * magnitude is always {0}; a leading '-' makes it negative (a negative zero).
   */
  function FromString(num: string): (r: Result<BigInt>)
    ensures r.Success? <==> D.IsValidBigIntString(num)
    ensures r.Failure? ==> r.error == InvalidArgument(InvalidIntegerMessage(num))
    ensures r.Success? ==> r.value.magnitude == [0] && ToInt(r.value) == 0
    ensures r.Success? ==> (r.value.isNegative <==> |num| > 0 && num[0] == '-')
  {
    if |num| > 0 && (num[0] == '+' || num[0] == '-') then
      if DecimalDigits.IsValidNumber(num[1..]) then Success(BigInt([0], num[0] == '-'))
      else
        assert !DecimalDigits.AllDigits(num) by { assert !DecimalDigits.IsDigit(num[0]); }
        Failure(InvalidArgument(InvalidIntegerMessage(num)))
    else if DecimalDigits.IsValidNumber(num) then Success(BigInt([0], false))
    else Failure(InvalidArgument(InvalidIntegerMessage(num)))
  }

  /** A valid string without a leading '-' builds the default zero. */
  lemma UnsignedStringIsZero(num: string)
    requires D.IsValidBigIntString(num) && !(|num| > 0 && num[0] == '-')
    ensures FromString(num).value == Default()
  {
  }

  // ---------------------------------------------------------------------------
  // Unary + and - (include/operators/unary_arithmetic.hpp)
  // ---------------------------------------------------------------------------

  /** Unary +: an identical copy. */
  function Plus(x: BigInt): (r: BigInt)
    ensures r == x && ToInt(r) == ToInt(x)
  {
    x
  }

  /**
   * Unary - as written: the sign flips only when the magnitude has more than one limb
   * and a non-zero lowest limb; otherwise the result is non-negative.
   */
  function NegAsWritten(x: BigInt): (r: BigInt)
    requires WellFormed(x)
    ensures r.magnitude == x.magnitude
  {
    var temp := BigInt(x.magnitude, false);
    if |x.magnitude| != 1 && x.magnitude[0] != 0 then temp.(isNegative := !x.isNegative) else temp
  }

  /** Unary - as intended: the sign flips unless the magnitude is the single zero limb. */
  function Neg(x: BigInt): (r: BigInt)
    requires WellFormed(x)
    ensures r.magnitude == x.magnitude && ToInt(r) == 0 - ToInt(x)
    ensures x.magnitude == [0] ==> !r.isNegative
    ensures x.isNegative ==> !r.isNegative
    ensures Normal(x) ==> Normal(r)
  {
    var temp := BigInt(x.magnitude, false);
    if |x.magnitude| != 1 || x.magnitude[0] != 0 then
      temp.(isNegative := !x.isNegative)
    else
      assert x.magnitude == [x.magnitude[0]];
      ZeroValue();
      temp
  }

  lemma ZeroValue()
    ensures LimbVal([0]) == 0
  {
    assert LimbVal([0]) == 0 + BASE * LimbVal([]);
  }

  /** -(-x) == x on normal values. */
  lemma NegInvolutive(x: BigInt)
    requires Normal(x)
    ensures Neg(Neg(x)) == x
  {
    NormalUnique(Neg(Neg(x)), x);
  }

  /** On a negative operand the written negation is the intended one. */
  lemma NegAsWrittenOnNegative(x: BigInt)
    requires WellFormed(x) && x.isNegative
    ensures NegAsWritten(x) == Neg(x)
  {
  }

  /** The unary test: -1234567890 comes out as +1234567890 from the written negation. */
  lemma NegAsWrittenKeepsSingleLimbSign()
    ensures NegAsWritten(FromInt64(1234567890)) == FromInt64(1234567890)
    ensures ToInt(NegAsWritten(FromInt64(1234567890))) != 0 - 1234567890
    ensures Neg(FromInt64(1234567890)) == FromInt64(-1234567890)
  {
    NormalUnique(Neg(FromInt64(1234567890)), FromInt64(-1234567890));
  }

  // ---------------------------------------------------------------------------
  // == and !=
  // ---------------------------------------------------------------------------

  /** ==: equal signs and equal limb vectors. */
  function Eq(a: BigInt, b: BigInt): (r: bool)
    ensures r <==> a == b
    ensures Normal(a) && Normal(b) ==> (r <==> ToInt(a) == ToInt(b))
  {
    if Normal(a) && Normal(b) && ToInt(a) == ToInt(b) then NormalUnique(a, b); true
    else a.isNegative == b.isNegative && a.magnitude == b.magnitude
  }

  function Ne(a: BigInt, b: BigInt): (r: bool)
    ensures r <==> a != b
    ensures Normal(a) && Normal(b) ==> (r <==> ToInt(a) != ToInt(b))
  {
    !Eq(a, b)
  }

  // ---------------------------------------------------------------------------
  // <
  // ---------------------------------------------------------------------------

  /** The limb loop of <: compare from the most significant limb down; equal vectors give false. */
  function MagLess(a: seq<Limb>, b: seq<Limb>): (r: bool)
    requires |a| == |b|
    ensures r <==> LimbVal(a) < LimbVal(b)
    decreases |a|
  {
    if a == [] then false
    else if a[|a| - 1] != b[|b| - 1] then
      TopLimbOrder(a, b);
      a[|a| - 1] < b[|b| - 1]
    else
      EqualTopLimb(a, b);
      MagLess(a[..|a| - 1], b[..|b| - 1])
  }

  /** Of two vectors of one length whose top limbs differ, the one with the smaller top limb is smaller. */
  lemma TopLimbOrder(a: seq<Limb>, b: seq<Limb>)
    requires |a| == |b| > 0 && a[|a| - 1] != b[|b| - 1]
    ensures a[|a| - 1] < b[|b| - 1] <==> LimbVal(a) < LimbVal(b)
  {
    var n := |a| - 1;
    LimbValSnoc(a);
    LimbValSnoc(b);
    LimbValBound(a[..n]);
    LimbValBound(b[..n]);
    if a[n] < b[n] {
      TopLimbDecides(LimbVal(a[..n]), a[n], LimbVal(b[..n]), b[n], Pow64(n));
    } else {
      TopLimbDecides(LimbVal(b[..n]), b[n], LimbVal(a[..n]), a[n], Pow64(n));
    }
  }

  /** Equal top limbs leave the order to the limbs below them. */
  lemma EqualTopLimb(a: seq<Limb>, b: seq<Limb>)
    requires |a| == |b| > 0 && a[|a| - 1] == b[|b| - 1]
    ensures LimbVal(a) < LimbVal(b) <==> LimbVal(a[..|a| - 1]) < LimbVal(b[..|b| - 1])
  {
    LimbValSnoc(a);
    LimbValSnoc(b);
  }

  lemma TopLimbDecides(low1: nat, top1: nat, low2: nat, top2: nat, p: nat)
    requires low1 < p && top1 < top2
    ensures low1 + p * top1 < low2 + p * top2
  {
    assert p * top2 >= p * (top1 + 1) by {
      MulNonNegMonotone(p, top1 + 1, top2);
    }
  }

  lemma MulNonNegMonotone(p: nat, x: nat, y: nat)
    requires x <= y
    ensures p * x <= p * y
  {
  }

  /**
   * < as written: line 42 tests equal signs where it means opposite signs. Equal
   * signs return is_negative; a negative left operand against a non-negative one
   * recurses on the (written) negations, which may never end, so the recursion is
   * cut after `fuel` calls (None); a non-negative left operand against a negative
   * one compares magnitudes.
   */
  function LessAsWritten(a: BigInt, b: BigInt, fuel: nat): (r: Option<bool>)
    requires WellFormed(a) && WellFormed(b)
    ensures a.isNegative == b.isNegative ==> r == Some(a.isNegative)
    ensures !a.isNegative && b.isNegative && Normal(a) && Normal(b) ==>
      r.Some? && (r.value <==> LimbVal(a.magnitude) < LimbVal(b.magnitude))
    decreases fuel
  {
    if a.isNegative == b.isNegative then Some(a.isNegative)
    else if a.isNegative then
      if fuel == 0 then None else LessAsWritten(NegAsWritten(b), NegAsWritten(a), fuel - 1)
    else if |a.magnitude| != |b.magnitude| then
      if Normal(a) && Normal(b) then
        LengthDecides(a.magnitude, b.magnitude);
        Some(|a.magnitude| < |b.magnitude|)
      else
        Some(|a.magnitude| < |b.magnitude|)
    else Some(MagLess(a.magnitude, b.magnitude))
  }

  /** As written, 1 < 2 is false and x < x holds for every negative x. */
  lemma LessAsWrittenWrongOnEqualSigns()
    ensures LessAsWritten(FromInt64(1), FromInt64(2), 0) == Some(false)
    ensures LessAsWritten(FromInt64(-1), FromInt64(-1), 0) == Some(true)
  {
  }

  /** As written, -5 < 0 is false (one recursive call), where the intended < says true. */
  lemma LessAsWrittenNegativeBelowZero()
    ensures LessAsWritten(FromInt64(-5), Default(), 1) == Some(false)
    ensures Less(FromInt64(-5), Default())
  {
    assert NegAsWritten(FromInt64(-5)) == FromInt64(5);
  }

  /** As written, -(2^64 + 1) < 2^64 + 1 calls itself with the same operands, without end. */
  lemma {:induction false} LessAsWrittenDiverges(fuel: nat)
    ensures LessAsWritten(BigInt([1, 1], true), BigInt([1, 1], false), fuel) == None
    decreases fuel
  {
    var a, b := BigInt([1, 1], true), BigInt([1, 1], false);
    assert NegAsWritten(b) == a && NegAsWritten(a) == b;
    if fuel > 0 {
      LessAsWrittenDiverges(fuel - 1);
    }
  }

  /**
   * < as intended: opposite signs decide by the sign; two negatives compare their
   * negations reversed; two non-negatives compare by limb count, then limb by limb.
   * On normal values this is the integer order.
   */
  function Less(a: BigInt, b: BigInt): (r: bool)
    requires WellFormed(a) && WellFormed(b)
    ensures Normal(a) && Normal(b) ==> (r <==> ToInt(a) < ToInt(b))
    decreases if a.isNegative then 1 else 0
  {
    if a.isNegative != b.isNegative then
      if Normal(a) && Normal(b) then
        NormalSign(a);
        NormalSign(b);
        a.isNegative
      else
        a.isNegative
    else if a.isNegative then Less(Neg(b), Neg(a))
    else if |a.magnitude| != |b.magnitude| then
      if Normal(a) && Normal(b) then
        LengthDecides(a.magnitude, b.magnitude);
        |a.magnitude| < |b.magnitude|
      else
        |a.magnitude| < |b.magnitude|
    else MagLess(a.magnitude, b.magnitude)
  }

  function Greater(a: BigInt, b: BigInt): (r: bool)
    requires WellFormed(a) && WellFormed(b)
    ensures Normal(a) && Normal(b) ==> (r <==> ToInt(a) > ToInt(b))
  {
    Less(b, a)
  }

  function LessEq(a: BigInt, b: BigInt): (r: bool)
    requires WellFormed(a) && WellFormed(b)
    ensures Normal(a) && Normal(b) ==> (r <==> ToInt(a) <= ToInt(b))
  {
    !Greater(a, b)
  }

  function GreaterEq(a: BigInt, b: BigInt): (r: bool)
    requires WellFormed(a) && WellFormed(b)
    ensures Normal(a) && Normal(b) ==> (r <==> ToInt(a) >= ToInt(b))
  {
    !Less(a, b)
  }

  /** A strictly increasing list satisfies all six relations pairwise, as the sorted-list test expects. */
  lemma SortedListRelations(xs: seq<BigInt>)
    requires forall i :: 0 <= i < |xs| ==> Normal(xs[i])
    requires forall i, j :: 0 <= i < j < |xs| ==> ToInt(xs[i]) < ToInt(xs[j])
    ensures forall i, j :: 0 <= i < |xs| && 0 <= j < |xs| ==>
      (Eq(xs[i], xs[j]) <==> i == j) && (Ne(xs[i], xs[j]) <==> i != j)
      && (Less(xs[i], xs[j]) <==> i < j) && (Greater(xs[i], xs[j]) <==> i > j)
      && (LessEq(xs[i], xs[j]) <==> i <= j) && (GreaterEq(xs[i], xs[j]) <==> i >= j)
  {
    forall i, j | 0 <= i < |xs| && 0 <= j < |xs|
      ensures (Eq(xs[i], xs[j]) <==> i == j) && (Ne(xs[i], xs[j]) <==> i != j)
      ensures (Less(xs[i], xs[j]) <==> i < j) && (Greater(xs[i], xs[j]) <==> i > j)
      ensures (LessEq(xs[i], xs[j]) <==> i <= j) && (GreaterEq(xs[i], xs[j]) <==> i >= j)
    {
    }
  }

  // ---------------------------------------------------------------------------
  // Relations with an int64_t
  // ---------------------------------------------------------------------------

  /** == int64_t: same sign, a single limb, and that limb is llabs(num). */
  function EqInt64(x: BigInt, num: int): (r: bool)
    requires WellFormed(x) && IsInt64Operand(num)
    ensures Normal(x) ==> (r <==> ToInt(x) == num)
  {
    if Normal(x) then EqInt64Meaning(x, num); SameAsInt64(x, num) else SameAsInt64(x, num)
  }

  /** The test of == int64_t: same sign, a single limb, and that limb is llabs(num). */
  predicate SameAsInt64(x: BigInt, num: int)
  {
    x.isNegative == (num < 0) && |x.magnitude| == 1 && x.magnitude[0] == IntAbs(num)
  }

  lemma EqInt64Meaning(x: BigInt, num: int)
    requires Normal(x) && IsInt64Operand(num)
    ensures SameAsInt64(x, num) <==> ToInt(x) == num
  {
    NormalSign(x);
    if ToInt(x) == num {
      SingleLimb(x);
    } else if |x.magnitude| == 1 {
      OneLimbValue(x);
    }
  }

  function EqInt64Left(lhs: int, rhs: BigInt): (r: bool)
    requires IsInt64Operand(lhs) && WellFormed(rhs)
    ensures Normal(rhs) ==> (r <==> lhs == ToInt(rhs))
  {
    EqInt64(rhs, lhs)
  }

  function NeInt64(x: BigInt, num: int): (r: bool)
    requires WellFormed(x) && IsInt64Operand(num)
    ensures Normal(x) ==> (r <==> ToInt(x) != num)
  {
    !EqInt64(x, num)
  }

  function NeInt64Left(lhs: int, rhs: BigInt): (r: bool)
    requires IsInt64Operand(lhs) && WellFormed(rhs)
    ensures Normal(rhs) ==> (r <==> lhs != ToInt(rhs))
  {
    !EqInt64(rhs, lhs)
  }

  /**
   * < int64_t: opposite signs decide by the sign; two negatives compare -x > -num;
   * two non-negatives need a single limb below num. Here the left operand of the
   * written unary - is negative, where it agrees with Neg (NegAsWrittenOnNegative).
   */
  function LessInt64(x: BigInt, num: int): (r: bool)
    requires WellFormed(x) && IsInt64Operand(num)
    ensures Normal(x) ==> (r <==> ToInt(x) < num)
    decreases if x.isNegative then 1 else 0, 0
  {
    var numIsNegative := num < 0;
    if x.isNegative != numIsNegative then
      if Normal(x) then NormalSign(x); x.isNegative else x.isNegative
    else if x.isNegative then GreaterInt64(Neg(x), 0 - num)
    else
      if Normal(x) then OneLimbBelow(x, num); |x.magnitude| == 1 && x.magnitude[0] < num
      else |x.magnitude| == 1 && x.magnitude[0] < num
  }

  /** > int64_t: neither < nor ==. */
  function GreaterInt64(x: BigInt, num: int): (r: bool)
    requires WellFormed(x) && IsInt64Operand(num)
    ensures Normal(x) ==> (r <==> ToInt(x) > num)
    decreases if x.isNegative then 1 else 0, 1
  {
    !(LessInt64(x, num) || EqInt64(x, num))
  }

  /** A non-negative normal x is below a number under 2^64 exactly when it is one limb below it. */
  lemma OneLimbBelow(x: BigInt, num: int)
    requires Normal(x) && !x.isNegative && 0 <= num < BASE
    ensures (|x.magnitude| == 1 && x.magnitude[0] < num) <==> ToInt(x) < num
  {
    if |x.magnitude| == 1 {
      OneLimbValue(x);
    } else {
      Pow64Monotone(1, |x.magnitude| - 1);
      LimbValLower(x.magnitude);
    }
  }

  function LessInt64Left(lhs: int, rhs: BigInt): (r: bool)
    requires IsInt64Operand(lhs) && WellFormed(rhs)
    ensures Normal(rhs) ==> (r <==> lhs < ToInt(rhs))
  {
    GreaterInt64(rhs, lhs)
  }

  function GreaterInt64Left(lhs: int, rhs: BigInt): (r: bool)
    requires IsInt64Operand(lhs) && WellFormed(rhs)
    ensures Normal(rhs) ==> (r <==> lhs > ToInt(rhs))
  {
    LessInt64(rhs, lhs)
  }

  function LessEqInt64(x: BigInt, num: int): (r: bool)
    requires WellFormed(x) && IsInt64Operand(num)
    ensures Normal(x) ==> (r <==> ToInt(x) <= num)
  {
    !GreaterInt64(x, num)
  }

  function LessEqInt64Left(lhs: int, rhs: BigInt): (r: bool)
    requires IsInt64Operand(lhs) && WellFormed(rhs)
    ensures Normal(rhs) ==> (r <==> lhs <= ToInt(rhs))
  {
    !LessInt64(rhs, lhs)
  }

  function GreaterEqInt64(x: BigInt, num: int): (r: bool)
    requires WellFormed(x) && IsInt64Operand(num)
    ensures Normal(x) ==> (r <==> ToInt(x) >= num)
  {
    !LessInt64(x, num)
  }

  function GreaterEqInt64Left(lhs: int, rhs: BigInt): (r: bool)
    requires IsInt64Operand(lhs) && WellFormed(rhs)
    ensures Normal(rhs) ==> (r <==> lhs >= ToInt(rhs))
  {
    !GreaterInt64(rhs, lhs)
  }

  // ---------------------------------------------------------------------------
  // Relations with a string: the string goes through BigInt(std::string), whose
  // magnitude is always {0}, so an unsigned string compares as zero.
  // ---------------------------------------------------------------------------

  /** True when num has no leading '-', so that BigInt(num) is the default zero. */
  predicate Unsigned(num: string) { !(|num| > 0 && num[0] == '-') }

  /**
   * The negative zero a '-' string builds sits between -1 and 0: a normal x is below
   * it exactly when x is negative, and above it exactly when x is not.
   */
  lemma NegativeZeroRelations(x: BigInt)
    requires Normal(x)
    ensures !Eq(x, BigInt([0], true)) && !Eq(BigInt([0], true), x)
    ensures Less(x, BigInt([0], true)) <==> ToInt(x) < 0
    ensures Less(BigInt([0], true), x) <==> ToInt(x) >= 0
  {
    NormalSign(x);
    assert Neg(BigInt([0], true)) == Default();
  }

  /**
   * BigInt("-7") is the negative zero: it denotes 0, yet `0 <= x` is false and
   * `x < "5"` is true, because the comparisons read its sign flag.
   */
  lemma NegativeZeroComparisons()
    ensures FromString("-7") == Success(BigInt([0], true)) && ToInt(BigInt([0], true)) == 0
    ensures !LessEqInt64Left(0, BigInt([0], true))
    ensures LessStr(BigInt([0], true), "5") == Success(true)
  {
    assert D.IsValidBigIntString("-7") by { assert "-7"[1..] == "7"; }
    assert D.IsValidBigIntString("5");
  }

  /** What a comparison with a string means: the value of BigInt(num) for an unsigned string, the negative zero otherwise. */
  lemma StringOperandRelations(x: BigInt, num: string)
    requires Normal(x) && D.IsValidBigIntString(num)
    ensures var y := FromString(num).value;
      (Eq(x, y) <==> Unsigned(num) && ToInt(x) == 0) && (Eq(y, x) <==> Unsigned(num) && ToInt(x) == 0)
      && (Less(x, y) <==> ToInt(x) < 0)
      && (Less(y, x) <==> if Unsigned(num) then 0 < ToInt(x) else 0 <= ToInt(x))
  {
    if !Unsigned(num) {
      NegativeZeroRelations(x);
    }
  }

  function EqStr(x: BigInt, num: string): (r: Result<bool>)
    ensures r.Failure? <==> !D.IsValidBigIntString(num)
    ensures r.Failure? ==> r.error == InvalidArgument(InvalidIntegerMessage(num))
    ensures r.Success? && Normal(x) ==> (r.value <==> Unsigned(num) && ToInt(x) == 0)
  {
    var p := FromString(num);
    if p.Failure? then Failure(p.error)
    else if Normal(x) then StringOperandRelations(x, num); Success(Eq(x, p.value))
    else Success(Eq(x, p.value))
  }

  function EqStrLeft(num: string, x: BigInt): (r: Result<bool>)
    ensures r.Failure? <==> !D.IsValidBigIntString(num)
    ensures r.Failure? ==> r.error == InvalidArgument(InvalidIntegerMessage(num))
    ensures r.Success? && Normal(x) ==> (r.value <==> Unsigned(num) && 0 == ToInt(x))
  {
    var p := FromString(num);
    if p.Failure? then Failure(p.error)
    else if Normal(x) then StringOperandRelations(x, num); Success(Eq(p.value, x))
    else Success(Eq(p.value, x))
  }

  function NeStr(x: BigInt, num: string): (r: Result<bool>)
    ensures r.Failure? <==> !D.IsValidBigIntString(num)
    ensures r.Failure? ==> r.error == InvalidArgument(InvalidIntegerMessage(num))
    ensures r.Success? && Normal(x) ==> (r.value <==> !Unsigned(num) || ToInt(x) != 0)
  {
    var p := FromString(num);
    if p.Failure? then Failure(p.error)
    else if Normal(x) then StringOperandRelations(x, num); Success(!Eq(x, p.value))
    else Success(!Eq(x, p.value))
  }

  function NeStrLeft(num: string, x: BigInt): (r: Result<bool>)
    ensures r.Failure? <==> !D.IsValidBigIntString(num)
    ensures r.Failure? ==> r.error == InvalidArgument(InvalidIntegerMessage(num))
    ensures r.Success? && Normal(x) ==> (r.value <==> !Unsigned(num) || 0 != ToInt(x))
  {
    var p := FromString(num);
    if p.Failure? then Failure(p.error)
    else if Normal(x) then StringOperandRelations(x, num); Success(Ne(p.value, x))
    else Success(Ne(p.value, x))
  }

  function LessStr(x: BigInt, num: string): (r: Result<bool>)
    requires WellFormed(x)
    ensures r.Failure? <==> !D.IsValidBigIntString(num)
    ensures r.Failure? ==> r.error == InvalidArgument(InvalidIntegerMessage(num))
    ensures r.Success? && Normal(x) ==> (r.value <==> ToInt(x) < 0)
  {
    var p := FromString(num);
    if p.Failure? then Failure(p.error)
    else if Normal(x) then StringOperandRelations(x, num); Success(Less(x, p.value))
    else Success(Less(x, p.value))
  }

  function LessStrLeft(num: string, x: BigInt): (r: Result<bool>)
    requires WellFormed(x)
    ensures r.Failure? <==> !D.IsValidBigIntString(num)
    ensures r.Failure? ==> r.error == InvalidArgument(InvalidIntegerMessage(num))
    ensures r.Success? && Normal(x) ==> (r.value <==> if Unsigned(num) then 0 < ToInt(x) else 0 <= ToInt(x))
  {
    var p := FromString(num);
    if p.Failure? then Failure(p.error)
    else if Normal(x) then StringOperandRelations(x, num); Success(Less(p.value, x))
    else Success(Less(p.value, x))
  }

  function GreaterStr(x: BigInt, num: string): (r: Result<bool>)
    requires WellFormed(x)
    ensures r.Failure? <==> !D.IsValidBigIntString(num)
    ensures r.Failure? ==> r.error == InvalidArgument(InvalidIntegerMessage(num))
    ensures r.Success? && Normal(x) ==> (r.value <==> if Unsigned(num) then ToInt(x) > 0 else ToInt(x) >= 0)
  {
    var p := FromString(num);
    if p.Failure? then Failure(p.error)
    else if Normal(x) then StringOperandRelations(x, num); Success(Greater(x, p.value))
    else Success(Greater(x, p.value))
  }

  function GreaterStrLeft(num: string, x: BigInt): (r: Result<bool>)
    requires WellFormed(x)
    ensures r.Failure? <==> !D.IsValidBigIntString(num)
    ensures r.Failure? ==> r.error == InvalidArgument(InvalidIntegerMessage(num))
    ensures r.Success? && Normal(x) ==> (r.value <==> 0 > ToInt(x))
  {
    var p := FromString(num);
    if p.Failure? then Failure(p.error)
    else if Normal(x) then StringOperandRelations(x, num); Success(Greater(p.value, x))
    else Success(Greater(p.value, x))
  }

  function LessEqStr(x: BigInt, num: string): (r: Result<bool>)
    requires WellFormed(x)
    ensures r.Failure? <==> !D.IsValidBigIntString(num)
    ensures r.Failure? ==> r.error == InvalidArgument(InvalidIntegerMessage(num))
    ensures r.Success? && Normal(x) ==> (r.value <==> if Unsigned(num) then ToInt(x) <= 0 else ToInt(x) < 0)
  {
    var p := FromString(num);
    if p.Failure? then Failure(p.error)
    else if Normal(x) then StringOperandRelations(x, num); Success(!Greater(x, p.value))
    else Success(!Greater(x, p.value))
  }

  function LessEqStrLeft(num: string, x: BigInt): (r: Result<bool>)
    requires WellFormed(x)
    ensures r.Failure? <==> !D.IsValidBigIntString(num)
    ensures r.Failure? ==> r.error == InvalidArgument(InvalidIntegerMessage(num))
    ensures r.Success? && Normal(x) ==> (r.value <==> 0 <= ToInt(x))
  {
    var p := FromString(num);
    if p.Failure? then Failure(p.error)
    else if Normal(x) then StringOperandRelations(x, num); Success(LessEq(p.value, x))
    else Success(LessEq(p.value, x))
  }

  function GreaterEqStr(x: BigInt, num: string): (r: Result<bool>)
    requires WellFormed(x)
    ensures r.Failure? <==> !D.IsValidBigIntString(num)
    ensures r.Failure? ==> r.error == InvalidArgument(InvalidIntegerMessage(num))
    ensures r.Success? && Normal(x) ==> (r.value <==> ToInt(x) >= 0)
  {
    var p := FromString(num);
    if p.Failure? then Failure(p.error)
    else if Normal(x) then StringOperandRelations(x, num); Success(!Less(x, p.value))
    else Success(!Less(x, p.value))
  }

  function GreaterEqStrLeft(num: string, x: BigInt): (r: Result<bool>)
    requires WellFormed(x)
    ensures r.Failure? <==> !D.IsValidBigIntString(num)
    ensures r.Failure? ==> r.error == InvalidArgument(InvalidIntegerMessage(num))
    ensures r.Success? && Normal(x) ==> (r.value <==> if Unsigned(num) then 0 >= ToInt(x) else 0 > ToInt(x))
  {
    var p := FromString(num);
    if p.Failure? then Failure(p.error)
    else if Normal(x) then StringOperandRelations(x, num); Success(GreaterEq(p.value, x))
    else Success(GreaterEq(p.value, x))
  }
}

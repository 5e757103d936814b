/**
 * The decimal-string revision of BigInt (src/BigInt.cpp): a magnitude `value`
 * held as decimal digits, most significant first, and a `sign` character.
 * This module holds the value-level constructors, unary operators, the
 * relational operators with all their overloads, and `abs`.
 */
module DecimalBigInt {
  import opened Wrappers
  import opened DecimalDigits

  datatype BigInt = BigInt(value: string, sign: char)

  /** What every constructor guarantees: a digit string and a '+' or '-' sign. */
  predicate WellFormed(x: BigInt) { AllDigits(x.value) && (x.sign == '+' || x.sign == '-') }

  /** The normal form the arithmetic produces: no leading zeros and a non-negative zero. */
  predicate Canonical(x: BigInt)
  {
    WellFormed(x) && IsCanonical(x.value) && (x.value == "0" ==> x.sign == '+')
  }

  /** The integer a BigInt denotes. */
  function ToInt(x: BigInt): int
    requires WellFormed(x)
  {
    if x.sign == '-' then 0 - Num(x.value) else Num(x.value)
  }

  /** The unique canonical BigInt denoting n. */
  function FromInt(n: int): (r: BigInt)
    ensures Canonical(r) && ToInt(r) == n
  {
    if n < 0 then BigInt(ToDecimal(-n), '-') else BigInt(ToDecimal(n), '+')
  }

  /** std::to_string on an integer: an optional '-' followed by the decimal of |n|. */
  function StdToString(n: int): string
  {
    if n < 0 then "-" + ToDecimal(-n) else ToDecimal(n)
  }

  /** The default constructor: value "0" with sign '+'. */
  function Default(): (r: BigInt)
    ensures Canonical(r) && ToInt(r) == 0
  {
    NumOfDigit('0');
    BigInt("0", '+')
  }

  /**
   * The long long constructor: the decimal text of num, with the '-' of a
   * negative num moved into `sign`. LLONG_MIN is handled, as std::to_string is exact.
   */
  function FromLongLong(num: int): (r: BigInt)
    requires IsLongLong(num)
    ensures Canonical(r) && ToInt(r) == num
  {
    var text := StdToString(num);
    if num < 0 then
      assert text[1..] == ToDecimal(-num);
      BigInt(text[1..], '-')
    else
      BigInt(text, '+')
  }

  /** True when the string constructor accepts num. */
  predicate IsValidBigIntString(num: string)
  {
    AllDigits(num) || (|num| > 0 && (num[0] == '+' || num[0] == '-') && AllDigits(num[1..]))
  }

  /**
   * The string constructor: an optional leading '+' or '-' is the sign, the rest is
   * stored as it is (leading zeros are kept). An empty std::string reads '\0' at
   * index 0, so it is taken as an unsigned (empty) magnitude. Invalid input makes the
   * source print a message and exit; here it is an error result.
   */
  function FromString(num: string): (r: Result<BigInt>)
    ensures r.Success? <==> IsValidBigIntString(num)
    ensures r.Failure? ==> r.error == InvalidInput(num)
    ensures r.Success? ==> WellFormed(r.value)
    ensures r.Success? ==> (r.value.sign == '-' <==> |num| > 0 && num[0] == '-')
    ensures r.Success? ==> r.value.value == if |num| > 0 && (num[0] == '+' || num[0] == '-') then num[1..] else num
  {
    if |num| > 0 && (num[0] == '+' || num[0] == '-') then
      var magnitude := num[1..];
      if IsValidNumber(magnitude) then Success(BigInt(magnitude, num[0]))
      else
        assert !AllDigits(num) by { assert !IsDigit(num[0]); }
        Failure(InvalidInput(num))
    else
      if IsValidNumber(num) then Success(BigInt(num, '+')) else Failure(InvalidInput(num))
  }

  /** Signed decimal text of n parses back to the BigInt the long long constructor makes. */
  lemma FromStringOfStdToString(n: int)
    requires IsLongLong(n)
    ensures FromString(StdToString(n)) == Success(FromLongLong(n))
  {
    var t := StdToString(n);
    if n < 0 {
      assert t[0] == '-' && t[1..] == ToDecimal(-n);
    } else {
      assert t == ToDecimal(n);
      assert t[0] != '+' && t[0] != '-' by { assert IsDigit(t[0]); }
    }
  }

  /** Leading zeros and "-0" survive the string constructor, so it can build non-canonical values. */
  lemma StringConstructorKeepsForm()
    ensures FromString("-0") == Success(BigInt("0", '-')) && !Canonical(BigInt("0", '-'))
    ensures FromString("007") == Success(BigInt("007", '+')) && !Canonical(BigInt("007", '+'))
    ensures ToInt(BigInt("007", '+')) == ToInt(BigInt("7", '+'))
  {
    assert FromString("-0").value.value == "-0"[1..];
    assert "-0"[1..] == "0";
    NumSnoc("00", '7');
    NumSnoc("0", '0');
    NumOfDigit('0');
    NumOfDigit('7');
    assert "007" == "00" + ['7'];
    assert "00" == "0" + ['0'];
  }

  // ---------------------------------------------------------------------------
  // Unary operators
  // ---------------------------------------------------------------------------

  /** Unary +: the operand itself. */
  function Plus(x: BigInt): (r: BigInt)
    ensures WellFormed(x) ==> WellFormed(r) && ToInt(r) == ToInt(x)
  {
    x
  }

  /**
   * Unary -: the same magnitude; the sign is flipped unless the magnitude is "0",
   * in which case the result takes the default '+' of a fresh BigInt.
   */
  function Neg(x: BigInt): (r: BigInt)
    ensures r.value == x.value
    ensures WellFormed(x) ==> WellFormed(r) && ToInt(r) == -ToInt(x)
    ensures Canonical(x) ==> Canonical(r)
    ensures x.sign != '+' ==> r.sign == '+'
  {
    var tempSign := if x.value != "0" then (if x.sign == '+' then '-' else '+') else '+';
    if x.value == "0" then
      NumOfDigit('0');
      BigInt(x.value, tempSign)
    else
      BigInt(x.value, tempSign)
  }

  /** Negation is an involution on canonical values. */
  lemma NegInvolutive(x: BigInt)
    requires Canonical(x)
    ensures Neg(Neg(x)) == x
  {
  }

  /** `-x` of the negative zero the string constructor can make is the positive zero. */
  lemma NegOfNegativeZero()
    ensures Neg(BigInt("0", '-')) == BigInt("0", '+')
    ensures Neg(Neg(BigInt("0", '-'))) != BigInt("0", '-')
  {
  }

  // ---------------------------------------------------------------------------
  // Relational operators (BigInt, BigInt)
  // ---------------------------------------------------------------------------

  /** The sign character of a canonical BigInt is '-' exactly when it denotes a negative number. */
  lemma SignOfCanonical(a: BigInt)
    requires Canonical(a)
    ensures a.sign == '-' <==> ToInt(a) < 0
  {
    CanonicalBounds(a.value);
  }

  /** Canonical BigInts denoting the same integer are the same. */
  lemma CanonicalUnique(a: BigInt, b: BigInt)
    requires Canonical(a) && Canonical(b) && ToInt(a) == ToInt(b)
    ensures a == b
  {
    CanonicalBounds(a.value);
    CanonicalBounds(b.value);
    CanonicalInjective(a.value, b.value);
  }

  /** Comparing canonical digit strings by length and then lexicographically is comparing their numbers. */
  lemma DigitOrderMeaning(x: string, y: string)
    requires IsCanonical(x) && IsCanonical(y)
    ensures (if |x| == |y| then LexLess(x, y) else |x| < |y|) <==> Num(x) < Num(y)
  {
    if |x| == |y| {
      LexLessIsNumLess(x, y);
    } else if |x| < |y| {
      CanonicalShorterIsSmaller(x, y);
    } else {
      CanonicalShorterIsSmaller(y, x);
    }
  }

  /** operator==: both fields equal; on canonical operands, equality of the integers. */
  function Eq(a: BigInt, b: BigInt): (r: bool)
    ensures r <==> a == b
    ensures Canonical(a) && Canonical(b) ==> (r <==> ToInt(a) == ToInt(b))
  {
    if Canonical(a) && Canonical(b) && ToInt(a) == ToInt(b) then
      CanonicalUnique(a, b);
      a.sign == b.sign && a.value == b.value
    else
      a.sign == b.sign && a.value == b.value
  }

  function Ne(a: BigInt, b: BigInt): (r: bool)
    ensures r <==> a != b
    ensures Canonical(a) && Canonical(b) ==> (r <==> ToInt(a) != ToInt(b))
  {
    !Eq(a, b)
  }

  /**
   * operator<: a negative operand is below a non-negative one; two '+' operands
   * compare by length and then as strings; two other operands compare their negations.
   * On canonical operands this is the integer order.
   */
  function Less(a: BigInt, b: BigInt): (r: bool)
    ensures Canonical(a) && Canonical(b) ==> (r <==> ToInt(a) < ToInt(b))
    decreases if a.sign == '+' then 0 else 1, 0
  {
    if a.sign == b.sign then
      if a.sign == '+' then
        var byDigits := if |a.value| == |b.value| then LexLess(a.value, b.value) else |a.value| < |b.value|;
        if Canonical(a) && Canonical(b) then DigitOrderMeaning(a.value, b.value); byDigits else byDigits
      else
        Greater(Neg(a), Neg(b))
    else
      if Canonical(a) && Canonical(b) then
        SignOfCanonical(a);
        SignOfCanonical(b);
        a.sign == '-'
      else
        a.sign == '-'
  }

  function Greater(a: BigInt, b: BigInt): (r: bool)
    ensures Canonical(a) && Canonical(b) ==> (r <==> ToInt(a) > ToInt(b))
    decreases if a.sign == '+' then 0 else 1, 1
  {
    !(Less(a, b) || Eq(a, b))
  }

  function LessEq(a: BigInt, b: BigInt): (r: bool)
    ensures Canonical(a) && Canonical(b) ==> (r <==> ToInt(a) <= ToInt(b))
  {
    Less(a, b) || Eq(a, b)
  }

  function GreaterEq(a: BigInt, b: BigInt): (r: bool)
    ensures Canonical(a) && Canonical(b) ==> (r <==> ToInt(a) >= ToInt(b))
  {
    !Less(a, b)
  }

  /** A strictly increasing list satisfies all six relations pairwise, as the sorted-list test expects. */
  lemma SortedListRelations(xs: seq<BigInt>)
    requires forall i :: 0 <= i < |xs| ==> Canonical(xs[i])
    requires forall i, j :: 0 <= i < j < |xs| ==> Canonical(xs[i]) && Canonical(xs[j]) && ToInt(xs[i]) < ToInt(xs[j])
    ensures forall i, j :: 0 <= i < |xs| && 0 <= j < |xs| ==>
      (i == j ==> Eq(xs[i], xs[j])) && (i != j ==> Ne(xs[i], xs[j])) &&
      (i < j ==> Less(xs[i], xs[j])) && (i > j ==> Greater(xs[i], xs[j])) &&
      (i <= j ==> LessEq(xs[i], xs[j])) && (i >= j ==> GreaterEq(xs[i], xs[j]))
  {
    forall i, j | 0 <= i < |xs| && 0 <= j < |xs|
      ensures (i == j ==> Eq(xs[i], xs[j])) && (i != j ==> Ne(xs[i], xs[j])) &&
        (i < j ==> Less(xs[i], xs[j])) && (i > j ==> Greater(xs[i], xs[j])) &&
        (i <= j ==> LessEq(xs[i], xs[j])) && (i >= j ==> GreaterEq(xs[i], xs[j]))
    {
    }
  }

  // ---------------------------------------------------------------------------
  // Relational operators with a long long on the right
  // ---------------------------------------------------------------------------

  function EqLong(x: BigInt, num: int): (b: bool)
    requires WellFormed(x) && IsLongLong(num)
    ensures Canonical(x) ==> (b <==> ToInt(x) == num)
  {
    var y := FromLongLong(num);
    Eq(x, y)
  }

  function NeLong(x: BigInt, num: int): (b: bool)
    requires WellFormed(x) && IsLongLong(num)
    ensures Canonical(x) ==> (b <==> ToInt(x) != num)
  {
    var y := FromLongLong(num);
    !Eq(x, y)
  }

  function LessLong(x: BigInt, num: int): (b: bool)
    requires WellFormed(x) && IsLongLong(num)
    ensures Canonical(x) ==> (b <==> ToInt(x) < num)
  {
    var y := FromLongLong(num);
    Less(x, y)
  }

  function GreaterLong(x: BigInt, num: int): (b: bool)
    requires WellFormed(x) && IsLongLong(num)
    ensures Canonical(x) ==> (b <==> ToInt(x) > num)
  {
    var y := FromLongLong(num);
    Greater(x, y)
  }

  function LessEqLong(x: BigInt, num: int): (b: bool)
    requires WellFormed(x) && IsLongLong(num)
    ensures Canonical(x) ==> (b <==> ToInt(x) <= num)
  {
    var y := FromLongLong(num);
    !Greater(x, y)
  }

  function GreaterEqLong(x: BigInt, num: int): (b: bool)
    requires WellFormed(x) && IsLongLong(num)
    ensures Canonical(x) ==> (b <==> ToInt(x) >= num)
  {
    var y := FromLongLong(num);
    !Less(x, y)
  }

  /**
   * On values the string constructor keeps non-canonical, the comparisons with a
   * long long follow the text, not the number: "007" denotes 7 but is not `== 7`
   * and is `> 10` by its length, and "-0" is `< 0` by its sign.
   */
  lemma NonCanonicalComparisons()
    ensures ToInt(BigInt("007", '+')) == 7 && !EqLong(BigInt("007", '+'), 7)
    ensures GreaterLong(BigInt("007", '+'), 10)
    ensures ToInt(BigInt("0", '-')) == 0 && LessLong(BigInt("0", '-'), 0)
  {
    StringConstructorKeepsForm();
    NumOfDigit('7');
    NumOfDigit('0');
    NumOfDigit('1');
    assert "10" == "1" + ['0'];
    NumSnoc("1", '0');
    assert FromLongLong(7) == BigInt("7", '+') by { CanonicalUnique(FromLongLong(7), BigInt("7", '+')); }
    assert FromLongLong(10) == BigInt("10", '+') by { CanonicalUnique(FromLongLong(10), BigInt("10", '+')); }
    assert FromLongLong(0) == BigInt("0", '+') by { CanonicalUnique(FromLongLong(0), BigInt("0", '+')); }
  }

  // ---------------------------------------------------------------------------
  // Relational operators with a string on the right: the string is first turned
  // into a BigInt, so an invalid string takes the constructor's error path.
  // ---------------------------------------------------------------------------

  function EqStr(x: BigInt, num: string): (r: Result<bool>)
    ensures FromString(num).Failure? ==> r == Failure(InvalidInput(num))
    ensures FromString(num).Success? ==> r == Success(Eq(x, FromString(num).value))
  {
    var y :- FromString(num);
    Success(Eq(x, y))
  }

  function NeStr(x: BigInt, num: string): (r: Result<bool>)
    ensures FromString(num).Failure? ==> r == Failure(InvalidInput(num))
    ensures FromString(num).Success? ==> r == Success(Ne(x, FromString(num).value))
  {
    var y :- FromString(num);
    Success(!Eq(x, y))
  }

  function LessStr(x: BigInt, num: string): (r: Result<bool>)
    ensures FromString(num).Failure? ==> r == Failure(InvalidInput(num))
    ensures FromString(num).Success? ==> r == Success(Less(x, FromString(num).value))
  {
    var y :- FromString(num);
    Success(Less(x, y))
  }

  function GreaterStr(x: BigInt, num: string): (r: Result<bool>)
    ensures FromString(num).Failure? ==> r == Failure(InvalidInput(num))
    ensures FromString(num).Success? ==> r == Success(Greater(x, FromString(num).value))
  {
    var y :- FromString(num);
    Success(Greater(x, y))
  }

  function LessEqStr(x: BigInt, num: string): (r: Result<bool>)
    ensures FromString(num).Failure? ==> r == Failure(InvalidInput(num))
    ensures FromString(num).Success? ==> r == Success(LessEq(x, FromString(num).value))
  {
    var y :- FromString(num);
    Success(!Greater(x, y))
  }

  function GreaterEqStr(x: BigInt, num: string): (r: Result<bool>)
    ensures FromString(num).Failure? ==> r == Failure(InvalidInput(num))
    ensures FromString(num).Success? ==> r == Success(GreaterEq(x, FromString(num).value))
  {
    var y :- FromString(num);
    Success(!Less(x, y))
  }

  /** A string comparison on signed decimal text means the integer comparison. */
  lemma StringRelationsMeaning(x: BigInt, n: int)
    requires Canonical(x) && IsLongLong(n)
    ensures EqStr(x, StdToString(n)) == Success(ToInt(x) == n)
    ensures NeStr(x, StdToString(n)) == Success(ToInt(x) != n)
    ensures LessStr(x, StdToString(n)) == Success(ToInt(x) < n)
    ensures GreaterStr(x, StdToString(n)) == Success(ToInt(x) > n)
    ensures LessEqStr(x, StdToString(n)) == Success(ToInt(x) <= n)
    ensures GreaterEqStr(x, StdToString(n)) == Success(ToInt(x) >= n)
  {
    FromStringOfStdToString(n);
  }

  // ---------------------------------------------------------------------------
  // abs (include/functions/math.hpp)
  // ---------------------------------------------------------------------------

  /** abs: `num < 0 ? -num : num`. */
  function Abs(x: BigInt): (r: BigInt)
    requires WellFormed(x)
    ensures WellFormed(r) && r.value == x.value
    ensures ToInt(r) == Num(x.value)
    ensures x.value != "" ==> r.sign == '+'
    ensures Canonical(x) ==> Canonical(r) && ToInt(r) == if ToInt(x) < 0 then -ToInt(x) else ToInt(x)
  {
    var zero := FromLongLong(0);
    assert zero == BigInt("0", '+') by { CanonicalUnique(zero, Default()); }
    NumOfDigit('0');
    if LessLong(x, 0) then Neg(x) else x
  }

  /** abs(x) == -x for negative x and == x otherwise; it is never negative. */
  lemma AbsMeaning(x: BigInt)
    requires Canonical(x)
    ensures ToInt(x) < 0 ==> Abs(x) == Neg(x)
    ensures ToInt(x) >= 0 ==> Abs(x) == x
    ensures Abs(x).sign == '+' && ToInt(Abs(x)) == Num(x.value)
  {
    CanonicalBounds(x.value);
  }
}

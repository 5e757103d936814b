/**
 * The experimental BigInt64 of include/BigInt64/constructors/constructors.cpp: a
 * sign held in two booleans and a vector of 64-bit limbs, least significant first,
 * obtained from a decimal string by repeated remainder and division by 2^64 on
 * the decimal-string BigInt.
 */
module BigInt64 {
  import opened Wrappers
  import opened Limbs
  import opened DecimalDigits
  import D = DecimalBigInt
  import DecimalDivision
  import DecimalConversion
  import DecimalArithmetic

  /** The base-2^64 digits of n, least significant first, with no zero limb on top; 0 has none. */
  function Digits64(n: nat): seq<Limb>
    decreases n
  {
    if n == 0 then [] else [n % BASE] + Digits64(n / BASE)
  }

  /** The digits denote n. */
  lemma {:induction false} Digits64Value(n: nat)
    ensures LimbVal(Digits64(n)) == n
    decreases n
  {
    if n > 0 {
      Digits64Value(n / BASE);
      assert Digits64(n)[1..] == Digits64(n / BASE);
    }
  }

  /** The digits are empty only for 0, and otherwise end in a non-zero limb. */
  lemma {:induction false} Digits64Shape(n: nat)
    ensures Digits64(n) == [] <==> n == 0
    ensures n > 0 ==> Digits64(n)[|Digits64(n)| - 1] != 0
    decreases n
  {
    if n > 0 {
      Digits64Shape(n / BASE);
      if n / BASE == 0 {
        assert Digits64(n) == [n % BASE];
      } else {
        assert Digits64(n)[|Digits64(n)| - 1] == Digits64(n / BASE)[|Digits64(n / BASE)| - 1];
      }
    }
  }

  /** Every limb vector without a zero limb on top is the digits of its value. */
  lemma DigitsOfLimbVal(s: seq<Limb>)
    requires s == [] || s[|s| - 1] != 0
    ensures Digits64(LimbVal(s)) == s
  {
    var n := LimbVal(s);
    Digits64Value(n);
    Digits64Shape(n);
    if s != [] {
      LimbValLower(s);
      NormalInjective(Digits64(n), s);
    }
  }

  /** What the loop decomposes: the digits of the number when it is positive, nothing otherwise. */
  function Expected(x: D.BigInt): seq<Limb>
    requires D.WellFormed(x)
  {
    if D.ToInt(x) > 0 then Digits64(D.ToInt(x)) else []
  }

  /** Zero is the empty vector here, but the default constructor stores one zero limb. */
  lemma ZeroRepresentations()
    ensures Digits64(0) == [] && LimbVal([]) == 0
    ensures LimbVal([0]) == 0 && [0] != Digits64(0)
  {
    assert LimbVal([0]) == 0 + BASE * LimbVal([]);
  }

  const BaseText: string := "18446744073709551616"

  /** The value of four digits. */
  lemma NumOfFour(s: string, v: nat)
    requires |s| == 4 && AllDigits(s)
    requires v == 1000 * DigitValue(s[0]) + 100 * DigitValue(s[1]) + 10 * DigitValue(s[2]) + DigitValue(s[3])
    ensures Num(s) == v
  {
    assert s[..1][..0] == [];
    assert Num(s[..1]) == DigitValue(s[0]);
    assert s[..2][..1] == s[..1];
    assert Num(s[..2]) == 10 * DigitValue(s[0]) + DigitValue(s[1]);
    assert s[..3][..2] == s[..2];
    assert Num(s[..3]) == 100 * DigitValue(s[0]) + 10 * DigitValue(s[1]) + DigitValue(s[2]);
    assert s[..4] == s;
  }

  /** Four more digits scale the value by 10^4. */
  lemma NumAppendFour(a: string, b: string, c: string)
    requires AllDigits(a) && AllDigits(b) && |b| == 4 && c == a + b
    ensures AllDigits(c) && Num(c) == Num(a) * 10000 + Num(b)
  {
    NumAppend(a, b);
    assert Pow10(4) == 10000;
  }

  lemma BasePrefix8()
    ensures AllDigits("18446744") && Num("18446744") == 18446744
  {
    NumOfFour("1844", 1844);
    NumOfFour("6744", 6744);
    NumAppendFour("1844", "6744", "18446744");
  }

  lemma BasePrefix12()
    ensures AllDigits("184467440737") && Num("184467440737") == 184467440737
  {
    BasePrefix8();
    NumOfFour("0737", 737);
    NumAppendFour("18446744", "0737", "184467440737");
  }

  lemma BasePrefix16()
    ensures AllDigits("1844674407370955") && Num("1844674407370955") == 1844674407370955
  {
    BasePrefix12();
    NumOfFour("0955", 955);
    NumAppendFour("184467440737", "0955", "1844674407370955");
  }

  /** The text of the base is the canonical decimal of 2^64. */
  lemma BaseTextValue()
    ensures IsCanonical(BaseText) && Num(BaseText) == BASE
  {
    BasePrefix16();
    NumOfFour("1616", 1616);
    NumAppendFour("1844674407370955", "1616", BaseText);
  }

  /** BigInt("18446744073709551616"): the decimal BigInt 2^64. */
  function Base(): (b: D.BigInt)
    ensures D.Canonical(b) && D.ToInt(b) == BASE
  {
    BaseTextValue();
    D.BigInt(BaseText, '+')
  }

  /**
   * num % base and num / base for a positive num: the remainder is the lowest
   * base-2^64 digit and the quotient's digits are the rest.
   */
  method SplitLowestDigit(num: D.BigInt) returns (m: D.BigInt, q: D.BigInt)
    requires D.Canonical(num) && D.ToInt(num) > 0
    ensures D.Canonical(m) && D.Canonical(q)
    ensures D.ToInt(m) == D.ToInt(num) % BASE && D.ToInt(q) == D.ToInt(num) / BASE
    ensures 0 <= D.ToInt(q) < D.ToInt(num)
    ensures Expected(num) == [D.ToInt(m)] + Expected(q)
  {
    var base := Base();
    DecimalDivision.DivModOfNatural(num, base);
    m := DecimalDivision.Mod(num, base).value;
    q := DecimalDivision.Div(num, base).value;
    var n := D.ToInt(num);
    assert Digits64(n) == [n % BASE] + Digits64(n / BASE);
  }

  /** Moving the next digit from the rest to the limbs produced so far. */
  lemma AppendStep(done: seq<Limb>, d: Limb, rest: seq<Limb>, whole: seq<Limb>)
    requires done + ([d] + rest) == whole
    ensures (done + [d]) + rest == whole
  {
    assert (done + [d]) + rest == done + ([d] + rest);
  }

  /** The next digit sits right after the limbs produced so far. */
  lemma NextDigitAt(done: seq<Limb>, d: Limb, rest: seq<Limb>, whole: seq<Limb>)
    requires done + ([d] + rest) == whole
    ensures |done| < |whole| && whole[|done|] == d
  {
    assert whole[|done|] == ([d] + rest)[0];
  }

  /** With nothing left, the limbs produced are the whole. */
  lemma NothingLeft(done: seq<Limb>, rest: seq<Limb>, whole: seq<Limb>)
    requires done + rest == whole && rest == []
    ensures done == whole
  {
    assert done + rest == done;
  }

  const INT64_LIMIT: nat := 0x8000_0000_0000_0000

  /** Every limb fits a long long, so to_long_long accepts it. */
  predicate AllBelowLimit(s: seq<Limb>)
  {
    forall i :: 0 <= i < |s| ==> s[i] < INT64_LIMIT
  }

  lemma AllBelowLimitAppend(done: seq<Limb>, d: Limb)
    requires AllBelowLimit(done) && d < INT64_LIMIT
    ensures AllBelowLimit(done + [d])
  {
  }

  lemma NotAllBelowLimit(whole: seq<Limb>, i: nat)
    requires i < |whole| && whole[i] >= INT64_LIMIT
    ensures !AllBelowLimit(whole)
  {
  }

  /**
   * The constructor's loop as written: while num > 0, the remainder num % base goes
   * through to_long_long, which raises out_of_range for a remainder of 2^63 or more,
   * and num /= base. It succeeds exactly when every base-2^64 digit is below 2^63.
   */
  method DecomposeAsWritten(num0: D.BigInt) returns (r: Result<seq<Limb>>)
    requires D.Canonical(num0)
    ensures r.Success? <==> AllBelowLimit(Expected(num0))
    ensures r.Success? ==> r.value == Expected(num0)
    ensures r.Failure? ==> r.error == OutOfRange
  {
    var num := num0;
    var limbs: seq<Limb> := [];
    assert limbs + Expected(num) == Expected(num0);
    while D.GreaterLong(num, 0)
      invariant D.Canonical(num)
      invariant limbs + Expected(num) == Expected(num0)
      invariant AllBelowLimit(limbs)
      decreases if D.ToInt(num) > 0 then D.ToInt(num) else 0
    {
      var m, q := SplitLowestDigit(num);
      var remainder := DecimalConversion.ToLongLong(m);
      if remainder.Failure? {
        NextDigitAt(limbs, D.ToInt(m), Expected(q), Expected(num0));
        NotAllBelowLimit(Expected(num0), |limbs|);
        return Failure(remainder.error);
      }
      AppendStep(limbs, remainder.value, Expected(q), Expected(num0));
      AllBelowLimitAppend(limbs, remainder.value);
      limbs := limbs + [remainder.value];
      num := q;
    }
    NothingLeft(limbs, Expected(num), Expected(num0));
    return Success(limbs);
  }

  /** The decomposition as intended: the remainder is taken as an unsigned 64-bit value. */
  method Decompose(num0: D.BigInt) returns (limbs: seq<Limb>)
    requires D.Canonical(num0)
    ensures limbs == Expected(num0)
    ensures LimbVal(limbs) == if D.ToInt(num0) > 0 then D.ToInt(num0) else 0
    ensures limbs == [] || limbs[|limbs| - 1] != 0
  {
    var num := num0;
    limbs := [];
    assert limbs + Expected(num) == Expected(num0);
    while D.GreaterLong(num, 0)
      invariant D.Canonical(num)
      invariant limbs + Expected(num) == Expected(num0)
      decreases if D.ToInt(num) > 0 then D.ToInt(num) else 0
    {
      var m, q := SplitLowestDigit(num);
      AppendStep(limbs, D.ToInt(m), Expected(q), Expected(num0));
      limbs := limbs + [D.ToInt(m)];
      num := q;
    }
    NothingLeft(limbs, Expected(num), Expected(num0));
    if D.ToInt(num0) > 0 {
      Digits64Value(D.ToInt(num0));
      Digits64Shape(D.ToInt(num0));
    }
  }

  /** Decomposing a number built from a normalised limb vector gives that vector back. */
  lemma DecomposeRoundTrip(s: seq<Limb>)
    requires s == [] || s[|s| - 1] != 0
    ensures Expected(D.FromInt(LimbVal(s))) == s
  {
    DigitsOfLimbVal(s);
  }

  /** 2^63 is one limb of 2^63: as written, "9223372036854775808" makes to_long_long fail. */
  lemma DecomposeAsWrittenFailsAt2To63()
    ensures Expected(D.FromInt(INT64_LIMIT)) == [INT64_LIMIT]
    ensures !(Expected(D.FromInt(INT64_LIMIT))[0] < INT64_LIMIT)
  {
    assert Digits64(INT64_LIMIT / BASE) == [];
  }

  /** The sign part of the string constructor: a leading '-' or '+' is removed. */
  function Unsigned(s: string): (t: string)
    ensures |s| > 0 && (s[0] == '-' || s[0] == '+') ==> t == s[1..]
    ensures !(|s| > 0 && (s[0] == '-' || s[0] == '+')) ==> t == s
  {
    if |s| > 0 && (s[0] == '-' || s[0] == '+') then s[1..] else s
  }

  class BigInt64Var {
    var numArr: seq<Limb>
    var positive: bool
    var negative: bool

    /** BigInt64(): one zero limb, positive. */
    constructor()
      ensures numArr == [0] && positive && !negative && LimbVal(numArr) == 0
    {
      numArr := [0];
      positive := true;
      negative := false;
      ZeroRepresentations();
    }

    /**
     * BigInt64(std::string): the sign from the first character, then the
     * decomposition of BigInt(rest) of the decimal-string revision, whose invalid
     * text is a failure.
     */
    static method FromText(s: string) returns (r: Result<BigInt64Var>)
      requires DecimalArithmetic.CanonicalOperand(Unsigned(s))
      ensures r.Failure? <==> !D.IsValidBigIntString(Unsigned(s))
      ensures r.Failure? ==> r.error == InvalidInput(Unsigned(s))
      ensures r.Success? ==> fresh(r.value)
      ensures r.Success? ==> r.value.numArr == Expected(D.FromString(Unsigned(s)).value)
      ensures r.Success? ==> (r.value.negative <==> |s| > 0 && s[0] == '-')
      ensures r.Success? ==> r.value.positive == !r.value.negative
    {
      var newS := Unsigned(s);
      var parsed := D.FromString(newS);
      if parsed.Failure? {
        return Failure(parsed.error);
      }
      var v := new BigInt64Var();
      v.negative := |s| > 0 && s[0] == '-';
      v.positive := !v.negative;
      v.numArr := Decompose(parsed.value);
      r := Success(v);
    }
  }
}

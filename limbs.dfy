/**
 * Magnitudes of the limb-vector revision: vectors of 64-bit limbs, least
 * significant limb first, and the vector helpers of include/functions/utility.hpp.
 */
module Limbs {
  import opened Wrappers

  const BASE: nat := 0x1_0000_0000_0000_0000

  /** A uint64_t. */
  type Limb = x: int | 0 <= x < BASE

  /** BASE^k. */
  function Pow64(k: nat): (p: nat)
    ensures p >= 1
  {
    if k == 0 then 1 else BASE * Pow64(k - 1)
  }

  /** The number a limb vector denotes: the sum of limb i times 2^(64 i). */
  function LimbVal(s: seq<Limb>): nat
  {
    if s == [] then 0 else s[0] + BASE * LimbVal(s[1..])
  }

  function ZeroLimbs(k: nat): (z: seq<Limb>)
    ensures |z| == k
  {
    seq(k, _ => 0)
  }

  /** No zero limb at the most significant end, except a lone zero limb. */
  predicate NoTrailingZero(s: seq<Limb>)
  {
    |s| <= 1 || s[|s| - 1] != 0
  }

  // ---------------------------------------------------------------------------
  // Value lemmas
  // ---------------------------------------------------------------------------

  lemma Pow64Add(i: nat, j: nat)
    ensures Pow64(i + j) == Pow64(i) * Pow64(j)
    decreases i
  {
    if i > 0 {
      Pow64Add(i - 1, j);
      assert Pow64(i + j) == BASE * Pow64(i - 1 + j);
      MulAssoc(BASE, Pow64(i - 1), Pow64(j));
    }
  }

  lemma {:induction false} Pow64Monotone(i: nat, j: nat)
    requires i <= j
    ensures Pow64(i) <= Pow64(j)
    decreases j
  {
    if i < j {
      Pow64Monotone(i, j - 1);
    }
  }

  /** The value of a concatenation: the high part is scaled by 2^(64 |a|). */
  lemma {:induction false} LimbValAppend(a: seq<Limb>, b: seq<Limb>)
    ensures LimbVal(a + b) == LimbVal(a) + Pow64(|a|) * LimbVal(b)
    decreases |a|
  {
    if a != [] {
      assert (a + b)[1..] == a[1..] + b;
      LimbValAppend(a[1..], b);
      assert Pow64(|a|) == BASE * Pow64(|a[1..]|);
      MulAssoc(BASE, Pow64(|a[1..]|), LimbVal(b));
    } else {
      assert a + b == b;
    }
  }

  lemma {:induction false} LimbValZeros(k: nat)
    ensures LimbVal(ZeroLimbs(k)) == 0
    decreases k
  {
    if k > 0 {
      assert ZeroLimbs(k)[1..] == ZeroLimbs(k - 1);
      LimbValZeros(k - 1);
    }
  }

  /** A vector of n limbs denotes less than 2^(64 n). */
  lemma {:induction false} LimbValBound(s: seq<Limb>)
    ensures LimbVal(s) < Pow64(|s|)
    decreases |s|
  {
    if s != [] {
      LimbValBound(s[1..]);
      assert LimbVal(s[1..]) <= Pow64(|s| - 1) - 1;
      MulUpper(LimbVal(s[1..]), Pow64(|s| - 1) - 1);
    }
  }

  lemma MulUpper(v: nat, w: nat)
    requires v <= w
    ensures BASE * v <= BASE * w
  {
  }

  /** The value split at the most significant limb. */
  lemma LimbValSnoc(s: seq<Limb>)
    requires s != []
    ensures LimbVal(s) == LimbVal(s[..|s| - 1]) + Pow64(|s| - 1) * s[|s| - 1]
  {
    assert s == s[..|s| - 1] + [s[|s| - 1]];
    LimbValAppend(s[..|s| - 1], [s[|s| - 1]]);
    assert LimbVal([s[|s| - 1]]) == s[|s| - 1] + BASE * LimbVal([]);
  }

  /** A vector whose top limb is non-zero denotes at least 2^(64 (n - 1)). */
  lemma LimbValLower(s: seq<Limb>)
    requires s != [] && s[|s| - 1] != 0
    ensures Pow64(|s| - 1) <= LimbVal(s)
  {
    LimbValSnoc(s);
    MulLower(Pow64(|s| - 1), s[|s| - 1]);
  }

  lemma MulLower(p: nat, d: nat)
    requires d >= 1
    ensures p <= p * d
  {
    assert p * d == p * (d - 1) + p;
  }

  /** Normalised vectors are compared first by length. */
  lemma ShorterIsSmaller(a: seq<Limb>, b: seq<Limb>)
    requires a != [] && |a| < |b| && NoTrailingZero(b)
    ensures LimbVal(a) < LimbVal(b)
  {
    LimbValBound(a);
    Pow64Monotone(|a|, |b| - 1);
    LimbValLower(b);
  }

  /** Of two normalised vectors of different lengths, the shorter is the smaller. */
  lemma LengthDecides(a: seq<Limb>, b: seq<Limb>)
    requires a != [] && b != [] && NoTrailingZero(a) && NoTrailingZero(b) && |a| != |b|
    ensures |a| < |b| <==> LimbVal(a) < LimbVal(b)
  {
    if |a| < |b| {
      ShorterIsSmaller(a, b);
    } else {
      ShorterIsSmaller(b, a);
    }
  }

  /** Vectors of equal length with equal values are equal. */
  lemma {:induction false} SameLengthInjective(a: seq<Limb>, b: seq<Limb>)
    requires |a| == |b| && LimbVal(a) == LimbVal(b)
    ensures a == b
    decreases |a|
  {
    if a != [] {
      DigitSplit(a[0], LimbVal(a[1..]), b[0], LimbVal(b[1..]));
      SameLengthInjective(a[1..], b[1..]);
      assert a == [a[0]] + a[1..] && b == [b[0]] + b[1..];
    }
  }

  lemma DigitSplit(x: Limb, hx: nat, y: Limb, hy: nat)
    requires x + BASE * hx == y + BASE * hy
    ensures x == y && hx == hy
  {
    assert BASE * (hy - hx) == x - y;
  }

  /** Normalised vectors with equal values are equal. */
  lemma NormalInjective(a: seq<Limb>, b: seq<Limb>)
    requires a != [] && b != [] && NoTrailingZero(a) && NoTrailingZero(b) && LimbVal(a) == LimbVal(b)
    ensures |a| == |b| && a == b
  {
    if |a| < |b| {
      ShorterIsSmaller(a, b);
    } else if |b| < |a| {
      ShorterIsSmaller(b, a);
    } else {
      SameLengthInjective(a, b);
    }
  }

  // ---------------------------------------------------------------------------
  // utility.hpp, vector functions
  // ---------------------------------------------------------------------------

  /**
   * add_leading_zeroes on a vector: num_zeroes zero limbs go in front, at the least
   * significant end, so the value is scaled by 2^(64 num_zeroes).
   */
  function AddLeadingZeroLimbs(num: seq<Limb>, numZeroes: nat): (r: seq<Limb>)
    ensures |r| == |num| + numZeroes && r[numZeroes..] == num
    ensures forall k :: 0 <= k < numZeroes ==> r[k] == 0
    ensures LimbVal(r) == LimbVal(num) * Pow64(numZeroes)
  {
    var r := ZeroLimbs(numZeroes) + num;
    LimbValAppend(ZeroLimbs(numZeroes), num);
    LimbValZeros(numZeroes);
    r
  }

  /** add_trailing_zeroes on a vector: pushes num_zeroes zero limbs at the most significant end. */
  method AddTrailingZeroLimbs(num: seq<Limb>, numZeroes: nat) returns (r: seq<Limb>)
    ensures r == num + ZeroLimbs(numZeroes)
    ensures LimbVal(r) == LimbVal(num)
  {
    r := num;
    var i := 0;
    while i < numZeroes
      invariant 0 <= i <= numZeroes
      invariant r == num + ZeroLimbs(i)
    {
      r := r + [0];
      i := i + 1;
    }
    LimbValAppend(num, ZeroLimbs(numZeroes));
    LimbValZeros(numZeroes);
  }

  /** What strip_trailing_zeroes leaves: the vector without its most significant zero limbs, keeping one limb. */
  function Stripped(num: seq<Limb>): seq<Limb>
  {
    if |num| > 1 && num[|num| - 1] == 0 then Stripped(num[..|num| - 1]) else num
  }

  /** strip_trailing_zeroes: pops zero limbs from the most significant end while more than one limb is left. */
  method StripTrailingZeroLimbs(num: seq<Limb>) returns (r: seq<Limb>)
    ensures r == Stripped(num)
  {
    r := num;
    while |r| > 1 && r[|r| - 1] == 0
      invariant Stripped(r) == Stripped(num)
    {
      r := r[..|r| - 1];
    }
  }

  /** Stripping keeps a prefix of the vector, at least one limb of a non-empty one, and normalises it. */
  lemma {:induction false} StrippedShape(num: seq<Limb>)
    ensures |Stripped(num)| <= |num| && Stripped(num) == num[..|Stripped(num)|]
    ensures num != [] ==> |Stripped(num)| >= 1
    ensures NoTrailingZero(Stripped(num))
    ensures forall k :: |Stripped(num)| <= k < |num| ==> num[k] == 0
    decreases |num|
  {
    if |num| > 1 && num[|num| - 1] == 0 {
      var init := num[..|num| - 1];
      StrippedShape(init);
      assert Stripped(num) == Stripped(init);
      assert init[..|Stripped(init)|] == num[..|Stripped(init)|];
      forall k | |Stripped(init)| <= k < |num|
        ensures num[k] == 0
      {
        if k < |num| - 1 {
          assert num[k] == init[k];
        }
      }
    }
  }

  /** Stripping keeps the value. */
  lemma {:induction false} StrippedValue(num: seq<Limb>)
    ensures LimbVal(Stripped(num)) == LimbVal(num)
    decreases |num|
  {
    if |num| > 1 && num[|num| - 1] == 0 {
      StrippedValue(num[..|num| - 1]);
      LimbValSnoc(num);
    }
  }

  /** Stripping twice is stripping once. */
  lemma StrippedIdempotent(num: seq<Limb>)
    ensures Stripped(Stripped(num)) == Stripped(num)
  {
    StrippedShape(num);
  }

  /**
   * get_larger_and_smaller on vectors: the longer vector is `larger` (ties go to
   * num2; values are not compared), and the other is padded with zero limbs to the
   * same length.
   */
  method GetLargerAndSmallerLimbs(num1: seq<Limb>, num2: seq<Limb>) returns (larger: seq<Limb>, smaller: seq<Limb>)
    ensures |larger| == |smaller| == if |num1| > |num2| then |num1| else |num2|
    ensures |num1| > |num2| ==> larger == num1 && smaller == num2 + ZeroLimbs(|num1| - |num2|)
    ensures |num1| <= |num2| ==> larger == num2 && smaller == num1 + ZeroLimbs(|num2| - |num1|)
    ensures LimbVal(smaller) == if |num1| > |num2| then LimbVal(num2) else LimbVal(num1)
  {
    if |num1| > |num2| {
      larger := num1;
      smaller := num2;
    } else {
      larger := num2;
      smaller := num1;
    }
    smaller := AddTrailingZeroLimbs(smaller, |larger| - |smaller|);
  }
}

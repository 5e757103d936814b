/**
 * Decimal digit strings, most significant digit first, and the string helpers of
 * include/functions/utility.hpp (is_valid_number, strip_leading_zeroes,
 * add_leading_zeroes, add_trailing_zeroes, get_larger_and_smaller, is_power_of_10).
 */
module DecimalDigits {

  predicate IsDigit(c: char) { '0' <= c <= '9' }

  predicate AllDigits(s: string) { forall i :: 0 <= i < |s| ==> IsDigit(s[i]) }

  function DigitValue(c: char): nat
    requires IsDigit(c)
  {
    c as int - '0' as int
  }

  /** The one-character result of std::to_string(d) for a single digit d. */
  function DigitChar(d: nat): (c: char)
    requires d < 10
    ensures IsDigit(c) && DigitValue(c) == d
  {
    ('0' as int + d) as char
  }

  function Pow10(k: nat): (p: nat)
    ensures p >= 1
  {
    if k == 0 then 1 else 10 * Pow10(k - 1)
  }

  function Max(a: nat, b: nat): nat { if a < b then b else a }

  /** The numeric value of a digit string, most significant digit first; "" denotes 0. */
  function Num(s: string): nat
    requires AllDigits(s)
  {
    if s == [] then 0 else 10 * Num(s[..|s| - 1]) + DigitValue(s[|s| - 1])
  }

  function Zeros(k: nat): (z: string)
    ensures |z| == k && AllDigits(z)
  {
    seq(k, _ => '0')
  }

  function Nines(k: nat): (z: string)
    ensures |z| == k && AllDigits(z)
  {
    seq(k, _ => '9')
  }

  /** No leading '0', unless the string is exactly "0". */
  predicate NoLeadingZero(s: string) { |s| > 0 && (s[0] == '0' ==> s == "0") }

  /** The normal form of a magnitude: a non-empty digit string without leading zeros. */
  predicate IsCanonical(s: string) { AllDigits(s) && NoLeadingZero(s) }

  /** std::string's operator<: lexicographic order on characters. */
  function LexLess(a: string, b: string): bool
  {
    if |a| == 0 then |b| > 0
    else if |b| == 0 then false
    else if a[0] != b[0] then a[0] < b[0]
    else LexLess(a[1..], b[1..])
  }

  /** The order get_larger_and_smaller uses: by length, then lexicographically. */
  predicate LenLexLess(a: string, b: string)
  {
    |a| < |b| || (|a| == |b| && LexLess(a, b))
  }

  // ---------------------------------------------------------------------------
  // Facts about Num
  // ---------------------------------------------------------------------------

  lemma Pow10Monotone(i: nat, j: nat)
    requires i <= j
    ensures Pow10(i) <= Pow10(j)
    decreases j
  {
    if i < j { Pow10Monotone(i, j - 1); }
  }

  lemma Pow10Add(i: nat, j: nat)
    ensures Pow10(i + j) == Pow10(i) * Pow10(j)
    decreases j
  {
    if j > 0 {
      Pow10Add(i, j - 1);
      calc {
        Pow10(i + j);
        10 * Pow10(i + j - 1);
        10 * (Pow10(i) * Pow10(j - 1));
        Pow10(i) * (10 * Pow10(j - 1));
      }
    }
  }

  lemma NumOfDigit(c: char)
    requires IsDigit(c)
    ensures Num([c]) == DigitValue(c)
  {
    assert [c][..0] == [];
  }

  lemma NumSnoc(a: string, c: char)
    requires AllDigits(a) && IsDigit(c)
    ensures AllDigits(a + [c]) && Num(a + [c]) == 10 * Num(a) + DigitValue(c)
  {
    assert (a + [c])[..|a + [c]| - 1] == a;
  }

  lemma ShiftArith(x: int, p: int, y: int, d: int)
    ensures 10 * (x * p + y) + d == x * (10 * p) + (10 * y + d)
  {
  }

  lemma {:induction false} NumAppend(a: string, b: string)
    requires AllDigits(a) && AllDigits(b)
    ensures AllDigits(a + b)
    ensures Num(a + b) == Num(a) * Pow10(|b|) + Num(b)
    decreases |b|
  {
    if b == [] {
      assert a + b == a;
    } else {
      var b' := b[..|b| - 1];
      var c := b[|b| - 1];
      assert a + b == (a + b') + [c];
      assert b == b' + [c];
      NumAppend(a, b');
      NumSnoc(a + b', c);
      NumSnoc(b', c);
      ShiftArith(Num(a), Pow10(|b'|), Num(b'), DigitValue(c));
    }
  }

  lemma NumPrepend(c: char, s: string)
    requires IsDigit(c) && AllDigits(s)
    ensures AllDigits([c] + s)
    ensures Num([c] + s) == DigitValue(c) * Pow10(|s|) + Num(s)
  {
    NumAppend([c], s);
    NumOfDigit(c);
  }

  lemma {:induction false} NumBound(s: string)
    requires AllDigits(s)
    ensures Num(s) < Pow10(|s|)
    decreases |s|
  {
    if s != [] {
      NumBound(s[..|s| - 1]);
    }
  }

  lemma {:induction false} NumZeros(k: nat)
    ensures Num(Zeros(k)) == 0
  {
    if k > 0 {
      assert Zeros(k) == Zeros(k - 1) + ['0'];
      NumZeros(k - 1);
      NumSnoc(Zeros(k - 1), '0');
    }
  }

  lemma {:induction false} NumNines(k: nat)
    ensures Num(Nines(k)) == Pow10(k) - 1
  {
    if k > 0 {
      assert Nines(k) == Nines(k - 1) + ['9'];
      NumNines(k - 1);
      NumSnoc(Nines(k - 1), '9');
    }
  }

  /** A string whose first digit is '0' is worth less than its length suggests. */
  lemma LeadingDigitBounds(s: string)
    requires AllDigits(s) && |s| > 0
    ensures DigitValue(s[0]) * Pow10(|s| - 1) <= Num(s)
    ensures Num(s) < (DigitValue(s[0]) + 1) * Pow10(|s| - 1)
  {
    assert s == [s[0]] + s[1..];
    NumPrepend(s[0], s[1..]);
    NumBound(s[1..]);
  }

  /** A canonical string of two or more digits has exactly that many digits' worth of value. */
  lemma CanonicalBounds(s: string)
    requires IsCanonical(s)
    ensures Num(s) < Pow10(|s|)
    ensures |s| >= 2 ==> Pow10(|s| - 1) <= Num(s)
    ensures s == "0" <==> Num(s) == 0
  {
    NumBound(s);
    LeadingDigitBounds(s);
    if s != "0" {
      assert DigitValue(s[0]) >= 1;
    } else {
      NumOfDigit('0');
    }
  }

  /** Equal-length digit strings with the same value are equal. */
  lemma {:induction false} SameLengthInjective(a: string, b: string)
    requires AllDigits(a) && AllDigits(b) && |a| == |b| && Num(a) == Num(b)
    ensures a == b
    decreases |a|
  {
    if |a| > 0 {
      var a', b' := a[..|a| - 1], b[..|b| - 1];
      assert a == a' + [a[|a| - 1]] && b == b' + [b[|b| - 1]];
      NumSnoc(a', a[|a| - 1]);
      NumSnoc(b', b[|b| - 1]);
      SameLengthInjective(a', b');
    }
  }

  /** A shorter canonical string has the smaller value. */
  lemma CanonicalShorterIsSmaller(a: string, b: string)
    requires IsCanonical(a) && IsCanonical(b) && |a| < |b|
    ensures Num(a) < Num(b)
  {
    CanonicalBounds(a);
    CanonicalBounds(b);
    Pow10Monotone(|a|, |b| - 1);
  }

  /** Canonical digit strings are determined by their value. */
  lemma CanonicalInjective(a: string, b: string)
    requires IsCanonical(a) && IsCanonical(b) && Num(a) == Num(b)
    ensures a == b
  {
    if |a| < |b| {
      CanonicalShorterIsSmaller(a, b);
    } else if |b| < |a| {
      CanonicalShorterIsSmaller(b, a);
    } else {
      SameLengthInjective(a, b);
    }
  }

  lemma MulLeftMonotone(x: nat, y: nat, p: nat)
    requires x <= y
    ensures x * p <= y * p
  {
  }

  /** On digit strings of equal length, std::string's < is numeric <. */
  lemma {:induction false} LexLessIsNumLess(a: string, b: string)
    requires AllDigits(a) && AllDigits(b) && |a| == |b|
    ensures LexLess(a, b) <==> Num(a) < Num(b)
    decreases |a|
  {
    if |a| > 0 {
      var p := Pow10(|a| - 1);
      LeadingDigitBounds(a);
      LeadingDigitBounds(b);
      if a[0] < b[0] {
        MulLeftMonotone(DigitValue(a[0]) + 1, DigitValue(b[0]), p);
      } else if b[0] < a[0] {
        MulLeftMonotone(DigitValue(b[0]) + 1, DigitValue(a[0]), p);
      } else {
        assert a == [a[0]] + a[1..] && b == [b[0]] + b[1..];
        NumPrepend(a[0], a[1..]);
        NumPrepend(b[0], b[1..]);
        LexLessIsNumLess(a[1..], b[1..]);
      }
    }
  }

  lemma {:induction false} LexLessIrreflexive(a: string)
    ensures !LexLess(a, a)
    decreases |a|
  {
    if |a| > 0 { LexLessIrreflexive(a[1..]); }
  }

  lemma {:induction false} LexLessAsymmetric(a: string, b: string)
    requires LexLess(a, b)
    ensures !LexLess(b, a)
    decreases |a|
  {
    if |a| > 0 && |b| > 0 && a[0] == b[0] { LexLessAsymmetric(a[1..], b[1..]); }
  }

  lemma LenLexLessAsymmetric(a: string, b: string)
    requires LenLexLess(a, b)
    ensures !LenLexLess(b, a)
  {
    if |a| == |b| { LexLessAsymmetric(a, b); }
  }

  /** std::to_string on a non-negative integer. */
  function ToDecimal(n: nat): (s: string)
    ensures IsCanonical(s) && Num(s) == n
  {
    if n < 10 then
      NumOfDigit(DigitChar(n));
      [DigitChar(n)]
    else
      var high := ToDecimal(n / 10);
      NumSnoc(high, DigitChar(n % 10));
      high + [DigitChar(n % 10)]
  }

  // ---------------------------------------------------------------------------
  // utility.hpp, string functions
  // ---------------------------------------------------------------------------

  /** is_valid_number: every character is a decimal digit (the empty string passes). */
  function IsValidNumber(num: string): (b: bool)
    ensures b <==> AllDigits(num)
  {
    if num == [] then true
    else if !IsDigit(num[0]) then false
    else
      var rest := IsValidNumber(num[1..]);
      assert AllDigits(num) <==> AllDigits(num[1..]) by {
        if AllDigits(num[1..]) {
          forall i | 0 <= i < |num| ensures IsDigit(num[i]) {
            if i > 0 { assert num[i] == num[1..][i - 1]; }
          }
        }
      }
      rest
  }

  /**
   * strip_leading_zeroes: drops the leading '0' characters; a string made only of
   * zeroes, or the empty string, becomes "0". The source reassigns its argument;
   * here the new string is returned.
   */
  method StripLeadingZeroes(num: string) returns (r: string)
    ensures NoLeadingZero(r)
    ensures (forall k :: 0 <= k < |num| ==> num[k] == '0') ==> r == "0"
    ensures r == "0" || exists i :: 0 <= i < |num| && r == num[i..] && num[i] != '0' && forall k :: 0 <= k < i ==> num[k] == '0'
    ensures AllDigits(num) ==> IsCanonical(r) && Num(r) == Num(num)
    ensures NoLeadingZero(num) ==> r == num
  {
    var i := 0;
    while i < |num|
      invariant 0 <= i <= |num|
      invariant forall k :: 0 <= k < i ==> num[k] == '0'
    {
      if num[i] != '0' {
        break;
      }
      i := i + 1;
    }
    if i == |num| {
      r := "0";
    } else {
      r := num[i..];
    }
    if AllDigits(num) {
      assert num == Zeros(i) + num[i..];
      NumAppend(Zeros(i), num[i..]);
      NumZeros(i);
      if i == |num| {
        NumOfDigit('0');
      }
    }
  }

  /** add_leading_zeroes on a string: prefixes `numZeroes` '0' characters, keeping the value. */
  function AddLeadingZeroes(num: string, numZeroes: nat): (r: string)
    ensures |r| == |num| + numZeroes && r[numZeroes..] == num
    ensures forall k :: 0 <= k < numZeroes ==> r[k] == '0'
    ensures AllDigits(num) ==> AllDigits(r) && Num(r) == Num(num)
  {
    var r := Zeros(numZeroes) + num;
    if AllDigits(num) then
      NumAppend(Zeros(numZeroes), num);
      NumZeros(numZeroes);
      r
    else
      r
  }

  /** add_trailing_zeroes on a string: appends `numZeroes` '0' characters, scaling by 10^numZeroes. */
  function AddTrailingZeroes(num: string, numZeroes: nat): (r: string)
    ensures |r| == |num| + numZeroes && r[..|num|] == num
    ensures AllDigits(num) ==> AllDigits(r) && Num(r) == Num(num) * Pow10(numZeroes)
  {
    var r := num + Zeros(numZeroes);
    if AllDigits(num) then
      NumAppend(num, Zeros(numZeroes));
      NumZeros(numZeroes);
      r
    else
      r
  }

  /**
   * get_larger_and_smaller on strings: orders the two operands by length and then
   * lexicographically (ties go to num2), and pads the smaller one with leading zeroes.
   */
  function GetLargerAndSmaller(num1: string, num2: string): (r: (string, string))
    ensures |r.0| == |r.1| == Max(|num1|, |num2|)
    ensures (r.0 == num1 && r.1 == AddLeadingZeroes(num2, |num1| - |num2|))
         || (r.0 == num2 && r.1 == AddLeadingZeroes(num1, |num2| - |num1|))
    ensures r.0 == num1 ==> !LenLexLess(num1, num2)
    ensures r.0 == num2 ==> !LenLexLess(num2, num1)
    ensures !LenLexLess(num2, num1) ==> r.0 == num2
  {
    if |num1| > |num2| || (|num1| == |num2| && LexLess(num2, num1)) then
      LenLexLessAsymmetric(num2, num1);
      (num1, AddLeadingZeroes(num2, |num1| - |num2|))
    else
      LexLessIrreflexive(num1);
      (num2, AddLeadingZeroes(num1, |num2| - |num1|))
  }

  /** For canonical operands the `larger` output holds the maximum and `smaller` the minimum. */
  lemma LargerAndSmallerByValue(num1: string, num2: string)
    requires IsCanonical(num1) && IsCanonical(num2)
    ensures AllDigits(GetLargerAndSmaller(num1, num2).0) && AllDigits(GetLargerAndSmaller(num1, num2).1)
    ensures Num(GetLargerAndSmaller(num1, num2).0) == Max(Num(num1), Num(num2))
    ensures Num(GetLargerAndSmaller(num1, num2).1) == (if Num(num1) < Num(num2) then Num(num1) else Num(num2))
  {
    if |num1| < |num2| {
      CanonicalShorterIsSmaller(num1, num2);
    } else if |num2| < |num1| {
      CanonicalShorterIsSmaller(num2, num1);
    } else {
      LexLessIsNumLess(num1, num2);
      LexLessIsNumLess(num2, num1);
    }
  }

  /**
   * is_power_of_10: the first character is '1' and every later one is '0'. On an
   * empty std::string, num[0] reads the terminating '\0', so the answer is false.
   */
  function IsPowerOf10(num: string): (b: bool)
    ensures b <==> |num| > 0 && num == "1" + Zeros(|num| - 1)
  {
    if |num| == 0 || num[0] != '1' then false
    else
      var b := forall i :: 1 <= i < |num| ==> num[i] == '0';
      assert b ==> num == "1" + Zeros(|num| - 1);
      b
  }

  lemma NumOfPowerOf10String(k: nat)
    ensures IsCanonical("1" + Zeros(k)) && Num("1" + Zeros(k)) == Pow10(k)
  {
    NumPrepend('1', Zeros(k));
    NumZeros(k);
  }

  /** On canonical strings, is_power_of_10 recognises exactly the powers of ten. */
  lemma IsPowerOf10Exactly(s: string)
    requires IsCanonical(s)
    ensures IsPowerOf10(s) <==> exists k: nat :: Num(s) == Pow10(k)
  {
    if IsPowerOf10(s) {
      NumOfPowerOf10String(|s| - 1);
    }
    if exists k: nat :: Num(s) == Pow10(k) {
      var k: nat :| Num(s) == Pow10(k);
      NumOfPowerOf10String(k);
      CanonicalInjective(s, "1" + Zeros(k));
    }
  }
}

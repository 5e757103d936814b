/**
 * include/functions/conversion.hpp: to_string, and to_int / to_long / to_long_long,
 * which hand the text to std::stoi / std::stol / std::stoll.
 */
module DecimalConversion {
  import opened Wrappers
  import opened DecimalDigits
  import opened DecimalBigInt

  /** to_string: the magnitude, prefixed with "-" exactly when the sign is '-'. */
  function ToString(x: BigInt): (s: string)
    ensures x.sign == '-' ==> |s| == |x.value| + 1 && s[0] == '-' && s[1..] == x.value
    ensures x.sign != '-' ==> s == x.value
  {
    if x.sign == '-' then "-" + x.value else x.value
  }

  /** to_string of a BigInt built from a long long is std::to_string of that number. */
  lemma ToStringOfLongLong(n: int)
    requires IsLongLong(n)
    ensures ToString(FromLongLong(n)) == StdToString(n)
  {
  }

  /** The inverse direction: the string constructor rebuilds every well-formed BigInt from its text. */
  lemma FromStringOfToString(x: BigInt)
    requires WellFormed(x)
    ensures FromString(ToString(x)) == Success(x)
  {
    var s := ToString(x);
    if x.sign == '-' {
      assert s[1..] == x.value;
    } else if |s| > 0 {
      assert IsDigit(s[0]);
    }
  }

  /** The longest prefix of s made of decimal digits. */
  function DigitPrefix(s: string): (p: string)
    ensures AllDigits(p) && |p| <= |s| && p == s[..|p|]
    ensures |p| < |s| ==> !IsDigit(s[|p|])
    ensures AllDigits(s) ==> p == s
  {
    if |s| == 0 || !IsDigit(s[0]) then []
    else
      var rest := DigitPrefix(s[1..]);
      assert AllDigits(s) ==> AllDigits(s[1..]);
      [s[0]] + rest
  }

  /**
   * std::stoi / std::stol / std::stoll on text with no leading blanks: an optional
   * sign, then the longest run of digits. No digit at all is invalid_argument; a value
   * outside [lo, hi] is out_of_range.
   */
  function StringToInteger(s: string, lo: int, hi: int): (r: Result<int>)
    ensures r.Success? ==> lo <= r.value <= hi
    ensures r.Failure? ==> r.error == NoConversion || r.error == OutOfRange
  {
    var negative := |s| > 0 && s[0] == '-';
    var start := if |s| > 0 && (s[0] == '-' || s[0] == '+') then 1 else 0;
    var digits := DigitPrefix(s[start..]);
    if |digits| == 0 then Failure(NoConversion)
    else
      var v: int := if negative then 0 - Num(digits) else Num(digits);
      if lo <= v <= hi then Success(v) else Failure(OutOfRange)
  }

  /** The conversion every to_* member performs, with the target type's range. */
  lemma StringToIntegerOfToString(x: BigInt, lo: int, hi: int)
    requires WellFormed(x)
    ensures |x.value| == 0 ==> StringToInteger(ToString(x), lo, hi) == Failure(NoConversion)
    ensures |x.value| > 0 && lo <= ToInt(x) <= hi ==> StringToInteger(ToString(x), lo, hi) == Success(ToInt(x))
    ensures |x.value| > 0 && !(lo <= ToInt(x) <= hi) ==> StringToInteger(ToString(x), lo, hi) == Failure(OutOfRange)
  {
    var s := ToString(x);
    var start := if |s| > 0 && (s[0] == '-' || s[0] == '+') then 1 else 0;
    if x.sign == '-' {
      assert start == 1 && s[start..] == x.value;
    } else if |s| > 0 {
      assert IsDigit(s[0]);
      assert start == 0 && s[start..] == x.value;
    } else {
      assert s[start..] == x.value;
    }
  }

  /** to_int: the value when it fits an int; out_of_range otherwise; no digits at all is invalid_argument. */
  function ToInt32(x: BigInt): (r: Result<int>)
    requires WellFormed(x)
    ensures r.Success? <==> |x.value| > 0 && IsInt(ToInt(x))
    ensures r.Success? ==> r.value == ToInt(x)
    ensures r.Failure? ==> r.error == if |x.value| == 0 then NoConversion else OutOfRange
  {
    StringToIntegerOfToString(x, INT_MIN, INT_MAX);
    StringToInteger(ToString(x), INT_MIN, INT_MAX)
  }

  /** to_long, with the 64-bit `long` of an LP64 platform. */
  function ToLong(x: BigInt): (r: Result<int>)
    requires WellFormed(x)
    ensures r.Success? <==> |x.value| > 0 && IsLong(ToInt(x))
    ensures r.Success? ==> r.value == ToInt(x)
    ensures r.Failure? ==> r.error == if |x.value| == 0 then NoConversion else OutOfRange
  {
    StringToIntegerOfToString(x, LONG_MIN, LONG_MAX);
    StringToInteger(ToString(x), LONG_MIN, LONG_MAX)
  }

  /** to_long_long. */
  function ToLongLong(x: BigInt): (r: Result<int>)
    requires WellFormed(x)
    ensures r.Success? <==> |x.value| > 0 && IsLongLong(ToInt(x))
    ensures r.Success? ==> r.value == ToInt(x)
    ensures r.Failure? ==> r.error == if |x.value| == 0 then NoConversion else OutOfRange
  {
    StringToIntegerOfToString(x, LLONG_MIN, LLONG_MAX);
    StringToInteger(ToString(x), LLONG_MIN, LLONG_MAX)
  }

  /** BigInt(n).to_int() == n, and likewise for long and long long. */
  lemma ConversionRoundTrips(n: int)
    requires IsLongLong(n)
    ensures IsInt(n) ==> ToInt32(FromLongLong(n)) == Success(n)
    ensures IsLong(n) ==> ToLong(FromLongLong(n)) == Success(n)
    ensures ToLongLong(FromLongLong(n)) == Success(n)
  {
  }

  /** A canonical value outside the int range makes to_int fail with out_of_range. */
  lemma ToInt32OutOfRange(x: BigInt)
    requires Canonical(x) && !IsInt(ToInt(x))
    ensures ToInt32(x) == Failure(OutOfRange)
  {
  }
}

/**
 * is_valid_number of include/utils.hpp, the scan shared by both revisions: a
 * for loop over the characters that stops at the first non-digit.
 */
module Utils {
  import DecimalDigits

  /** is_valid_number with its loop: false at the first character outside '0'..'9', true otherwise. */
  method IsValidNumber(num: string) returns (b: bool)
    ensures b <==> DecimalDigits.AllDigits(num)
    ensures b == DecimalDigits.IsValidNumber(num)
  {
    var i := 0;
    while i < |num|
      invariant 0 <= i <= |num|
      invariant forall k :: 0 <= k < i ==> DecimalDigits.IsDigit(num[k])
    {
      if num[i] < '0' || num[i] > '9' {
        return false;
      }
      i := i + 1;
    }
    return true;
  }

  /** The empty string is accepted, and a sign character is not: callers strip it first. */
  lemma SignIsRejected(s: string)
    ensures DecimalDigits.IsValidNumber("")
    ensures !DecimalDigits.IsValidNumber("+" + s) && !DecimalDigits.IsValidNumber("-" + s)
  {
    assert ("+" + s)[0] == '+';
    assert ("-" + s)[0] == '-';
  }
}

/** Character classes of the C locale, as used by std::isspace and std::isdigit. */
module Chars {

  /** std::isspace in the "C" locale: space, and \t, \n, \v, \f, \r (codes 9 to 13). */
  predicate IsSpace(c: char) {
    c == ' ' || '\t' <= c <= '\r'
  }

  /** std::isdigit: the ten decimal digits. */
  predicate IsDigit(c: char) {
    '0' <= c <= '9'
  }

  function DigitValue(c: char): (d: nat)
    requires IsDigit(c)
    ensures d < 10
  {
    (c as int) - ('0' as int)
  }
}

/**
 * Character classes used by the parser's regular expressions and by `str.strip()`.
 * Python works over all of Unicode here; this model restricts each class to ASCII:
 * `\s` and `strip()` to the ASCII characters for which `str.isspace()` holds,
 * `\d` to '0'..'9', `\w` (and so `\b`) to ASCII letters, digits and '_',
 * and `re.IGNORECASE` to ASCII case folding.
 */
module Chars {

  /** `\s`, and what `str.strip()` removes: tab, LF, VT, FF, CR, the four
      information separators 0x1C..0x1F, and space. */
  predicate IsSpace(c: char) {
    c == ' ' || ('\t' <= c <= '\r') || ('\U{1C}' <= c <= '\U{1F}')
  }

  /** `\d` */
  predicate IsDigit(c: char) {
    '0' <= c <= '9'
  }

  /** `\w`, which decides where `\b` holds. */
  predicate IsWordChar(c: char) {
    IsDigit(c) || ('a' <= c <= 'z') || ('A' <= c <= 'Z') || c == '_'
  }

  /** `ord(c) < 128` */
  predicate IsAscii(c: char) {
    (c as int) < 128
  }

  /** Either separator the dash strategy accepts: `(?:-|–)` (hyphen or en dash). */
  predicate IsDash(c: char) {
    c == '-' || c == '\U{2013}'
  }

  /** ASCII case folding, as `re.IGNORECASE` applies it to the letters of a pattern. */
  function Lower(c: char): (l: char)
    ensures 'A' <= c <= 'Z' ==> 'a' <= l <= 'z' && l as int == c as int + 32
    ensures !('A' <= c <= 'Z') ==> l == c
  {
    if 'A' <= c <= 'Z' then (c as int + 32) as char else c
  }

  /** The numeric value of one decimal digit. */
  function DigitValue(c: char): (v: nat)
    requires IsDigit(c)
    ensures v < 10
  {
    c as int - '0' as int
  }

  /** The digit character for a value below ten. */
  function DigitChar(v: nat): (c: char)
    requires v < 10
    ensures IsDigit(c) && DigitValue(c) == v
  {
    ('0' as int + v) as char
  }
}

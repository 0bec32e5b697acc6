/**
 * Digit characters shared by the hexadecimal token encoding and by the
 * radix-10/radix-16 integer parser of the page query.
 */
module Digits {

  /** The lower-case digit alphabet, as produced by a hexadecimal rendering. */
  const LowerHexDigits: string := "0123456789abcdef"

  predicate IsDecimalDigit(c: char) {
    '0' <= c <= '9'
  }

  /** True for the characters that denote a digit in some radix up to 36. */
  predicate IsAlnum(c: char) {
    IsDecimalDigit(c) || 'a' <= c <= 'z' || 'A' <= c <= 'Z'
  }

  /** The numeric weight of a digit character; letters of either case count from 10. */
  function DigitValue(c: char): (d: nat)
    requires IsAlnum(c)
    ensures d < 36
    ensures IsDecimalDigit(c) <==> d < 10
  {
    if IsDecimalDigit(c) then c as int - '0' as int
    else if 'a' <= c <= 'z' then c as int - 'a' as int + 10
    else c as int - 'A' as int + 10
  }

  predicate IsRadixDigit(c: char, radix: nat) {
    IsAlnum(c) && DigitValue(c) < radix
  }

  /** The lower-case character of a digit below 16. */
  function DigitChar(d: nat): (c: char)
    requires d < 16
    ensures IsAlnum(c) && DigitValue(c) == d
    ensures d < 10 <==> IsDecimalDigit(c)
    ensures c in LowerHexDigits
  {
    LowerHexDigits[d]
  }
}

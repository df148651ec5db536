/** Hexadecimal digits. */
module Hex {
  import opened Bytes

  /** The value of a hexadecimal digit of either case, -1 for any other byte. */
  function HexValue(b: Byte): (v: int)
    ensures -1 <= v < 16
  {
    if '0' as int <= b <= '9' as int then b as int - '0' as int
    else if 'a' as int <= b <= 'f' as int then b as int - 'a' as int + 10
    else if 'A' as int <= b <= 'F' as int then b as int - 'A' as int + 10
    else -1
  }

  /** The lower-case digit the serializers print. */
  function HexDigit(v: int): Byte
    requires 0 <= v < 16
  {
    if v < 10 then '0' as int + v else 'a' as int + v - 10
  }

  lemma HexDigitValue(v: int)
    requires 0 <= v < 16
    ensures HexValue(HexDigit(v)) == v
  {
  }

  // --- The digits as they are written -----------------------------------------------------

  const LOWER_DIGITS := "0123456789abcdef"
  const UPPER_DIGITS := "0123456789ABCDEF"

  function Digit(v: nat, upper: bool): Byte
    requires v < 16
  {
    if upper then UPPER_DIGITS[v] as int else LOWER_DIGITS[v] as int
  }

  /** A digit of either case has the value at which it stands in its table, and no other byte has a value. */
  lemma DigitValues(b: Byte, v: nat)
    requires v < 16
    ensures HexValue(b) == v <==> b == Digit(v, true) || b == Digit(v, false)
  {
  }

  /** The serializers print the lower-case digit. */
  lemma PrintedDigit(v: nat)
    requires v < 16
    ensures HexDigit(v) == Digit(v, false)
  {
  }
}

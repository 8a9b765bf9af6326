/** Hexadecimal digits, written in upper case and read in either. */
module Hexadecimal {

  function Hex(d: nat): char
    requires d < 16
  {
    if d < 10 then '0' + d as char else 'A' + (d - 10) as char
  }

  predicate HexChar(c: char) {
    '0' <= c <= '9' || 'A' <= c <= 'F' || 'a' <= c <= 'f'
  }

  function HexValue(c: char): (d: nat)
    requires HexChar(c)
    ensures d < 16
  {
    if c <= '9' then (c - '0') as nat else if c <= 'F' then (c - 'A') as nat + 10 else (c - 'a') as nat + 10
  }

  const UPPER := "0123456789ABCDEF"
  const LOWER := "0123456789abcdef"

  /** The digit written is the upper-case one; each digit of either case is read as what it stands for, and nothing else
      is a digit. */
  lemma Digits(d: nat)
    requires d < 16
    ensures Hex(d) == UPPER[d]
    ensures HexChar(UPPER[d]) && HexValue(UPPER[d]) == d && HexChar(LOWER[d]) && HexValue(LOWER[d]) == d
  {
  }

  lemma DigitIff(c: char)
    ensures HexChar(c) <==> c in UPPER || c in LOWER
  {
    if '0' <= c <= '9' {
      assert c == UPPER[(c - '0') as nat];
    } else if 'A' <= c <= 'F' {
      assert c == UPPER[(c - 'A') as nat + 10];
    } else if 'a' <= c <= 'f' {
      assert c == LOWER[(c - 'a') as nat + 10];
    }
  }

  lemma HexBack(d: nat)
    requires d < 16
    ensures HexChar(Hex(d)) && HexValue(Hex(d)) == d
  {
  }
}

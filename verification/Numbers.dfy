/** Hexadecimal numbers in text: `simple_strtoul` of lib/vsprintf.c, and `%02x`. */
module Numbers {
  import opened Basics

  const ZERO: Byte := 0x30
  const LETTER_X: Byte := 0x78

  predicate IsXDigit(c: Byte) {
    0x30 <= c <= 0x39 || 0x61 <= c <= 0x66 || 0x41 <= c <= 0x46
  }

  function DigitValue(c: Byte): (v: nat)
    requires IsXDigit(c)
    ensures v < 16
  {
    if c <= 0x39 then c - 0x30 else if c >= 0x61 then c - 0x61 + 10 else c - 0x41 + 10
  }

  /** A number and the text behind it. */
  datatype Number = Number(value: nat, rest: Text)

  function Digits(t: Text, base: nat, acc: nat): (r: Number)
    ensures |r.rest| <= |t|
  {
    if t != [] && IsXDigit(t[0]) && DigitValue(t[0]) < base
    then Digits(t[1..], base, (acc * base + DigitValue(t[0])) % WORD_LIMIT)
    else Number(acc, t)
  }

  /** `simple_strtoul`; base 0 takes the base from the prefix. */
  function Strtoul(t: Text, base: nat): (r: Number)
    ensures |r.rest| <= |t|
  {
    if t != [] && t[0] == ZERO then
      var u := t[1..];
      if |u| > 1 && u[0] == LETTER_X && IsXDigit(u[1]) then Digits(u[1..], 16, 0)
      else Digits(u, if base == 0 then 8 else base, 0)
    else Digits(t, if base == 0 then 10 else base, 0)
  }

  function HexDigit(n: nat): (c: Byte)
    requires n < 16
    ensures IsXDigit(c) && DigitValue(c) == n && c != LETTER_X && c > 0x20
  {
    if n < 10 then 0x30 + n else 0x61 + (n - 10)
  }

  /** `%02x` */
  function HexByte(b: Byte): (t: Text)
    ensures |t| == 2
  {
    [HexDigit(b / 16), HexDigit(b % 16)]
  }

  lemma OneDigit(n: nat, rest: Text, acc: nat)
    requires n < 16 && acc * 16 + n < WORD_LIMIT
    ensures Digits([HexDigit(n)] + rest, 16, acc) == Digits(rest, 16, acc * 16 + n)
  {
    assert ([HexDigit(n)] + rest)[1..] == rest;
  }

  lemma DigitsOfByte(b: Byte, rest: Text, acc: nat)
    requires acc * 256 + b < WORD_LIMIT
    ensures Digits(HexByte(b) + rest, 16, acc) == Digits(rest, 16, acc * 256 + b)
  {
    var u := [HexDigit(b % 16)] + rest;
    assert HexByte(b) + rest == [HexDigit(b / 16)] + u;
    OneDigit(b / 16, u, acc);
    OneDigit(b % 16, rest, acc * 16 + b / 16);
  }

  /** A number ends where no hexadecimal digit follows. */
  ghost predicate NoDigit(rest: Text) {
    rest == [] || !IsXDigit(rest[0])
  }

  lemma ByteIsRead(b: Byte, rest: Text)
    requires NoDigit(rest)
    ensures Strtoul(HexByte(b) + rest, 16) == Number(b, rest)
  {
    var t := HexByte(b) + rest;
    DigitsOfByte(b, rest, 0);
    if t[0] == ZERO {
      assert b / 16 == 0;
      assert t[1..] == [HexDigit(b % 16)] + rest && ([HexDigit(b % 16)] + rest)[1..] == rest;
    }
  }
}

/** Hexadecimal digits. */
module Hex {
  import opened Words

  predicate IsHex(c: char) {
    '0' <= c <= '9' || 'a' <= c <= 'f' || 'A' <= c <= 'F'
  }

  function HexValue(c: char): (v: nat)
    requires IsHex(c)
    ensures v < 16
  {
    if '0' <= c <= '9' then c as int - '0' as int
    else if 'a' <= c <= 'f' then c as int - 'a' as int + 10
    else c as int - 'A' as int + 10
  }

  function PairByte(hi: char, lo: char): byte
    requires IsHex(hi) && IsHex(lo)
  {
    (HexValue(hi) * 16 + HexValue(lo)) as byte
  }

  // ----- printed bytes

  const LOWER := "0123456789abcdef"
  const UPPER := "0123456789ABCDEF"

  function Digit(n: nat, upper: bool): char
    requires n < 16
  {
    if upper then UPPER[n] else LOWER[n]
  }

  lemma DigitIsHex(n: nat, upper: bool)
    requires n < 16
    ensures IsHex(Digit(n, upper)) && HexValue(Digit(n, upper)) == n
  {
  }

  /** Every digit is printed for some value. */
  lemma HexIsDigit(c: char) returns (n: nat, upper: bool)
    requires IsHex(c)
    ensures n < 16 && Digit(n, upper) == c
  {
    n, upper := HexValue(c), 'A' <= c <= 'F';
  }

  /** A byte as two digits, each in either case. */
  datatype Printed = Printed(value: byte, upperHi: bool, upperLo: bool) {
    function Hi(): char { Digit(value as int / 16, upperHi) }
    function Lo(): char { Digit(value as int % 16, upperLo) }
  }

  /** Reading two digits undoes printing them. */
  lemma PairReadsBack(p: Printed)
    ensures IsHex(p.Hi()) && IsHex(p.Lo()) && PairByte(p.Hi(), p.Lo()) == p.value
  {
    DigitIsHex(p.value as int / 16, p.upperHi);
    DigitIsHex(p.value as int % 16, p.upperLo);
  }

  /** Any two digits are some printed byte. */
  lemma PairIsPrinted(hi: char, lo: char) returns (p: Printed)
    requires IsHex(hi) && IsHex(lo)
    ensures p.Hi() == hi && p.Lo() == lo
  {
    hide Digit, IsHex;
    var h, uh := HexIsDigit(hi);
    var l, ul := HexIsDigit(lo);
    var v := JoinNibbles(h, l);
    p := Printed(v, uh, ul);
  }

  lemma JoinNibbles(h: nat, l: nat) returns (v: byte)
    requires h < 16 && l < 16
    ensures v as int / 16 == h && v as int % 16 == l
  {
    var n := h * 16 + l;
    assert n / 16 == h && n % 16 == l;
    v := AsByte(n);
  }

  lemma {:induction false} AsByte(n: nat) returns (v: byte)
    requires n < 256
    ensures v as int == n
  {
    if n == 0 {
      v := 0;
    } else {
      var u := AsByte(n - 1);
      NextByte(u);
      v := u + 1;
    }
  }

  lemma NextByte(u: byte)
    requires u < 255
    ensures (u + 1) as int == u as int + 1
  {
  }
}

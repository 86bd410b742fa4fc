/**
 * Hexadecimal text of fixed-width words, digit by digit: what printf's %X,
 * %03X and %04X write for a 16- or 32-bit unsigned value, and how the Map16
 * validators and scanf's %X combine digits back into a word (each digit
 * shifts the value four bits to the left).
 */
module Nibbles {
  import opened Numerals

  /** The upper-case digit of a value below 16. */
  function NibbleChar(d: bv16): (c: char)
    requires d < 16
    ensures IsUpperHexDigit(c) && IsHexDigit(c) && !IsSpace(c)
    ensures d < 10 ==> IsDigit(c)
  {
    if d < 10 then (d + 0x30) as char else (d + 0x37) as char
  }

  /** The value of one hexadecimal digit of either case. */
  function NibbleValue(c: char): (d: bv16)
    requires IsHexDigit(c)
    ensures d < 16
  {
    if '0' <= c <= '9' then (c as bv16) - 0x30
    else if 'A' <= c <= 'F' then (c as bv16) - 0x37
    else (c as bv16) - 0x57
  }

  lemma NibbleValueOfChar(d: bv16)
    requires d < 16
    ensures NibbleValue(NibbleChar(d)) == d
  {
  }

  lemma NibbleCharOfValue(c: char)
    requires IsUpperHexDigit(c)
    ensures NibbleChar(NibbleValue(c)) == c
  {
  }

  /** "%04X" of a 16-bit value: exactly four digits, most significant first. */
  function Hex4(w: bv16): (s: string)
    ensures |s| == 4 && AllUpperHex(s) && AllHex(s)
  {
    [NibbleChar(w >> 12), NibbleChar((w >> 8) & 0xF), NibbleChar((w >> 4) & 0xF), NibbleChar(w & 0xF)]
  }

  /** "%03X" of a value below 0x1000: exactly three digits. */
  function Hex3(w: bv16): (s: string)
    requires w < 0x1000
    ensures |s| == 3 && AllUpperHex(s) && AllHex(s)
  {
    [NibbleChar(w >> 8), NibbleChar((w >> 4) & 0xF), NibbleChar(w & 0xF)]
  }

  /** A run of hexadecimal digits combined into a 16-bit word. */
  function ReadHex16(s: string): bv16
    requires AllHex(s)
  {
    if |s| == 0 then 0 else (ReadHex16(s[..|s| - 1]) << 4) | NibbleValue(s[|s| - 1])
  }

  /** A run of hexadecimal digits combined into a 32-bit word. */
  function ReadHex32(s: string): bv32
    requires AllHex(s)
  {
    if |s| == 0 then 0 else (ReadHex32(s[..|s| - 1]) << 4) | (NibbleValue(s[|s| - 1]) as bv32)
  }

  /** ReadHex16 of three and four digits, written out. */
  lemma ReadHex16Unfolded(s: string)
    requires AllHex(s) && 3 <= |s| <= 4
    ensures |s| == 3 ==> ReadHex16(s) == (NibbleValue(s[0]) << 8) | (NibbleValue(s[1]) << 4) | NibbleValue(s[2])
    ensures |s| == 4 ==> ReadHex16(s) == (NibbleValue(s[0]) << 12) | (NibbleValue(s[1]) << 8) | (NibbleValue(s[2]) << 4) | NibbleValue(s[3])
  {
    if |s| == 4 {
      ReadHex16Four(s);
    } else {
      ReadHex16Three(s);
      assert s[..3] == s;
    }
  }

  lemma ReadHex16Four(s: string)
    requires AllHex(s) && |s| == 4
    ensures ReadHex16(s) == (NibbleValue(s[0]) << 12) | (NibbleValue(s[1]) << 8) | (NibbleValue(s[2]) << 4) | NibbleValue(s[3])
  {
    hide *;
    ReadHex16Three(s);
    ReadHex16Prefix(s, 4);
    assert s[..4] == s;
    Shift3(NibbleValue(s[0]), NibbleValue(s[1]), NibbleValue(s[2]), NibbleValue(s[3]));
  }

  lemma ReadHex16Two(s: string)
    requires AllHex(s) && |s| >= 2
    ensures AllHex(s[..2]) && ReadHex16(s[..2]) == (NibbleValue(s[0]) << 4) | NibbleValue(s[1])
  {
    ReadHex16Prefix(s, 1);
    ReadHex16Prefix(s, 2);
    ReadHex16Empty(s[..0]);
  }

  lemma ReadHex16Three(s: string)
    requires AllHex(s) && |s| >= 3
    ensures AllHex(s[..3])
    ensures ReadHex16(s[..3]) == (NibbleValue(s[0]) << 8) | (NibbleValue(s[1]) << 4) | NibbleValue(s[2])
  {
    ReadHex16Two(s);
    ReadHex16Prefix(s, 3);
    hide *;
    Shift2(NibbleValue(s[0]), NibbleValue(s[1]), NibbleValue(s[2]));
  }

  /** One more digit of a prefix shifts the value read so far and adds the digit. */
  lemma ReadHex16Prefix(s: string, k: nat)
    requires AllHex(s) && 0 < k <= |s|
    ensures AllHex(s[..k - 1]) && AllHex(s[..k])
    ensures ReadHex16(s[..k]) == (ReadHex16(s[..k - 1]) << 4) | NibbleValue(s[k - 1])
  {
    assert s[..k][..k - 1] == s[..k - 1];
  }

  lemma ReadHex16Empty(s: string)
    requires |s| == 0
    ensures AllHex(s) && ReadHex16(s) == 0
  {
  }

  lemma Shift2(a: bv16, b: bv16, c: bv16)
    requires a < 16 && b < 16 && c < 16
    ensures ((((a << 4) | b)) << 4) | c == (a << 8) | (b << 4) | c
  {
  }

  lemma Shift3(a: bv16, b: bv16, c: bv16, d: bv16)
    requires a < 16 && b < 16 && c < 16 && d < 16
    ensures ((((a << 8) | (b << 4) | c)) << 4) | d == (a << 12) | (b << 8) | (c << 4) | d
  {
  }

  /** Reading back the four digits of a word gives the word. */
  lemma ReadHex4(w: bv16)
    ensures ReadHex16(Hex4(w)) == w
  {
    var s := Hex4(w);
    ReadHex16Unfolded(s);
    NibbleValueOfChar(w >> 12);
    NibbleValueOfChar((w >> 8) & 0xF);
    NibbleValueOfChar((w >> 4) & 0xF);
    NibbleValueOfChar(w & 0xF);
  }

  /** Reading back the three digits of a value below 0x1000 gives the value. */
  lemma ReadHex3(w: bv16)
    requires w < 0x1000
    ensures ReadHex16(Hex3(w)) == w
  {
    var s := Hex3(w);
    ReadHex16Unfolded(s);
    NibbleValueOfChar(w >> 8);
    NibbleValueOfChar((w >> 4) & 0xF);
    NibbleValueOfChar(w & 0xF);
  }

  /** Four upper-case digits are the %04X spelling of the word they denote. */
  lemma Hex4OfRead(s: string)
    requires |s| == 4 && AllUpperHex(s) && AllHex(s)
    ensures Hex4(ReadHex16(s)) == s
  {
    hide *;
    UpperDigits(s);
    ReadHex16Unfolded(s);
    var a, b, c, d := NibbleValue(s[0]), NibbleValue(s[1]), NibbleValue(s[2]), NibbleValue(s[3]);
    Hex4OfNibbles(a, b, c, d);
    NibbleCharOfValue(s[0]);
    NibbleCharOfValue(s[1]);
    NibbleCharOfValue(s[2]);
    NibbleCharOfValue(s[3]);
    assert s == [s[0], s[1], s[2], s[3]];
  }

  lemma UpperDigits(s: string)
    requires |s| == 4 && AllUpperHex(s) && AllHex(s)
    ensures IsUpperHexDigit(s[0]) && IsUpperHexDigit(s[1]) && IsUpperHexDigit(s[2]) && IsUpperHexDigit(s[3])
    ensures IsHexDigit(s[0]) && IsHexDigit(s[1]) && IsHexDigit(s[2]) && IsHexDigit(s[3])
  {
  }

  /** Four nibbles put together are printed as their four digits. */
  lemma Hex4OfNibbles(a: bv16, b: bv16, c: bv16, d: bv16)
    requires a < 16 && b < 16 && c < 16 && d < 16
    ensures Hex4((a << 12) | (b << 8) | (c << 4) | d) == [NibbleChar(a), NibbleChar(b), NibbleChar(c), NibbleChar(d)]
  {
    Nibbles4(a, b, c, d);
  }

  lemma Nibbles4(a: bv16, b: bv16, c: bv16, d: bv16)
    requires a < 16 && b < 16 && c < 16 && d < 16
    ensures var w := (a << 12) | (b << 8) | (c << 4) | d;
      w >> 12 == a && (w >> 8) & 0xF == b && (w >> 4) & 0xF == c && w & 0xF == d
  {
  }
}

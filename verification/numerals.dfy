/**
 * Character classes and numerals as the C runtime sees them: the ctype
 * predicates the validators call (isdigit, isupper, isalnum, isspace),
 * printf's %X / %0NX / %d conversions of non-negative values, and the
 * reading of a run of hexadecimal or decimal digits.
 */
module Numerals {
  import opened Wrappers

  predicate IsDigit(c: char) { '0' <= c <= '9' }
  predicate IsUpper(c: char) { 'A' <= c <= 'Z' }
  predicate IsLower(c: char) { 'a' <= c <= 'z' }
  predicate IsAlnum(c: char) { IsDigit(c) || IsUpper(c) || IsLower(c) }

  /** The test `isupper(c) || isdigit(c)` the Map16 validators apply. */
  predicate IsUpperOrDigit(c: char) { IsUpper(c) || IsDigit(c) }

  /** isspace in the "C" locale. */
  predicate IsSpace(c: char) { c == ' ' || c == '\t' || c == '\n' || c == '\r' || c as int == 0x0B || c as int == 0x0C }

  predicate IsHexDigit(c: char) { IsDigit(c) || 'A' <= c <= 'F' || 'a' <= c <= 'f' }
  predicate IsUpperHexDigit(c: char) { IsDigit(c) || 'A' <= c <= 'F' }

  predicate AllHex(s: string) { forall i :: 0 <= i < |s| ==> IsHexDigit(s[i]) }
  predicate AllUpperHex(s: string) { forall i :: 0 <= i < |s| ==> IsUpperHexDigit(s[i]) }
  predicate AllDigits(s: string) { forall i :: 0 <= i < |s| ==> IsDigit(s[i]) }

  function HexValue(c: char): (d: nat)
    requires IsHexDigit(c)
    ensures d < 16
  {
    if IsDigit(c) then c as int - '0' as int
    else if 'A' <= c <= 'F' then c as int - 'A' as int + 10
    else c as int - 'a' as int + 10
  }

  /** The upper-case digit printf's %X writes for d. */
  function HexChar(d: nat): (c: char)
    requires d < 16
    ensures IsUpperHexDigit(c) && HexValue(c) == d
  {
    if d < 10 then ('0' as int + d) as char else ('A' as int + d - 10) as char
  }

  function DecimalChar(d: nat): (c: char)
    requires d < 10
    ensures IsDigit(c) && c as int - '0' as int == d
  {
    ('0' as int + d) as char
  }

  function Pow(b: nat, e: nat): (r: nat)
    ensures b > 0 ==> r > 0
  {
    if e == 0 then 1 else b * Pow(b, e - 1)
  }

  /** The value of a run of hexadecimal digits, most significant first. */
  function ParseHex(s: string): nat
    requires AllHex(s)
  {
    if |s| == 0 then 0 else ParseHex(s[..|s| - 1]) * 16 + HexValue(s[|s| - 1])
  }

  /** The value of a run of decimal digits, most significant first. */
  function ParseDecimal(s: string): nat
    requires AllDigits(s)
  {
    if |s| == 0 then 0 else ParseDecimal(s[..|s| - 1]) * 10 + (s[|s| - 1] as int - '0' as int)
  }

  /** printf "%X" of a non-negative value: the shortest upper-case hexadecimal numeral. */
  function ToHex(n: nat): (r: string)
    ensures 1 <= |r| && AllUpperHex(r) && AllHex(r)
    ensures ParseHex(r) == n
    ensures r[0] == '0' ==> n == 0
  {
    if n < 16 then [HexChar(n)]
    else
      var p := ToHex(n / 16);
      var r := p + [HexChar(n % 16)];
      assert r[..|r| - 1] == p;
      r
  }

  /** printf "%d" of a non-negative value: the shortest decimal numeral. */
  function ToDecimal(n: nat): (r: string)
    ensures 1 <= |r| && AllDigits(r)
    ensures ParseDecimal(r) == n
    ensures r[0] == '0' ==> n == 0
  {
    if n < 10 then [DecimalChar(n)]
    else
      var p := ToDecimal(n / 10);
      var r := p + [DecimalChar(n % 10)];
      assert r[..|r| - 1] == p;
      r
  }

  function Repeat(c: char, k: nat): (r: string)
    ensures |r| == k && forall i :: 0 <= i < k ==> r[i] == c
  {
    if k == 0 then [] else [c] + Repeat(c, k - 1)
  }

  /** printf "%0<width>X": ToHex padded on the left with zeros up to width characters. */
  function FormatHex(n: nat, width: nat): (r: string)
    ensures AllUpperHex(r) && AllHex(r)
    ensures ParseHex(r) == n
    ensures |r| == if |ToHex(n)| < width then width else |ToHex(n)|
  {
    var d := ToHex(n);
    var z := if |d| < width then Repeat('0', width - |d|) else [];
    LeadingZeros(|z|, d);
    assert z == Repeat('0', |z|);
    z + d
  }

  /** Leading zeros do not change the value of a hexadecimal numeral. */
  lemma {:induction false} LeadingZeros(k: nat, s: string)
    requires AllHex(s)
    ensures AllHex(Repeat('0', k) + s)
    ensures ParseHex(Repeat('0', k) + s) == ParseHex(s)
    decreases |s|, k
  {
    var t := Repeat('0', k) + s;
    if |s| == 0 {
      assert t == Repeat('0', k);
      if k > 0 {
        assert t[..|t| - 1] == Repeat('0', k - 1) + s;
        LeadingZeros(k - 1, s);
      }
    } else {
      var p := s[..|s| - 1];
      assert t[..|t| - 1] == Repeat('0', k) + p;
      LeadingZeros(k, p);
    }
  }

  /** ToHex fits in w digits exactly when the value is below 16^w. */
  lemma {:induction false} ToHexLength(n: nat, w: nat)
    requires w >= 1
    ensures |ToHex(n)| <= w <==> n < Pow(16, w)
    decreases w
  {
    if n < 16 {
      PowMonotone(16, 1, w);
    } else if w == 1 {
    } else {
      ToHexLength(n / 16, w - 1);
    }
  }

  lemma {:induction false} PowMonotone(b: nat, e1: nat, e2: nat)
    requires b >= 1 && e1 <= e2
    ensures Pow(b, e1) <= Pow(b, e2)
    decreases e2
  {
    if e1 < e2 {
      PowMonotone(b, e1, e2 - 1);
    }
  }

  /** A value below 16^width is written in exactly width digits. */
  lemma FormatHexWidth(n: nat, width: nat)
    requires 1 <= width && n < Pow(16, width)
    ensures |FormatHex(n, width)| == width
  {
    ToHexLength(n, width);
  }

  /** Two values formatted to the same width give the same text only if they are equal. */
  lemma FormatHexInjective(m: nat, n: nat, width: nat)
    requires FormatHex(m, width) == FormatHex(n, width)
    ensures m == n
  {
  }

  /** Two numerals written one after the other: the first is shifted up by the length of the second. */
  lemma {:induction false} ParseHexAppend(a: string, b: string)
    requires AllHex(a) && AllHex(b)
    ensures AllHex(a + b)
    ensures ParseHex(a + b) == ParseHex(a) * Pow(16, |b|) + ParseHex(b)
    decreases |b|
  {
    if |b| == 0 {
      assert a + b == a;
    } else {
      var p := b[..|b| - 1];
      assert (a + b)[..|a + b| - 1] == a + p;
      ParseHexAppend(a, p);
      var d := HexValue(b[|b| - 1]);
      assert (a + b)[|a + b| - 1] == b[|b| - 1];
      assert ParseHex(a + b) == ParseHex(a + p) * 16 + d;
      assert ParseHex(b) == ParseHex(p) * 16 + d;
      assert Pow(16, |b|) == Pow(16, |p|) * 16;
      ShiftDigit(ParseHex(a), Pow(16, |p|), ParseHex(p), d);
    }
  }

  lemma ShiftDigit(x: nat, k: nat, y: nat, d: nat)
    ensures (x * k + y) * 16 + d == x * (k * 16) + (y * 16 + d)
  {
  }

  /** A run of k hexadecimal digits denotes a value below 16^k. */
  lemma {:induction false} ParseHexBound(s: string)
    requires AllHex(s)
    ensures ParseHex(s) < Pow(16, |s|)
  {
    if |s| > 0 {
      var p := s[..|s| - 1];
      ParseHexBound(p);
      assert ParseHex(p) + 1 <= Pow(16, |p|);
      assert (ParseHex(p) + 1) * 16 <= Pow(16, |p|) * 16;
    }
  }

  /** The index of the first character at or after j that is not white space. */
  function SkipSpaces(s: string, j: nat): (k: nat)
    requires j <= |s|
    ensures j <= k <= |s|
    ensures forall i :: j <= i < k ==> IsSpace(s[i])
    ensures k < |s| ==> !IsSpace(s[k])
    decreases |s| - j
  {
    if j < |s| && IsSpace(s[j]) then SkipSpaces(s, j + 1) else j
  }

  /** The end of the longest run of hexadecimal digits starting at j. */
  function HexRun(s: string, j: nat): (k: nat)
    requires j <= |s|
    ensures j <= k <= |s|
    ensures AllHex(s[j..k])
    ensures k < |s| ==> !IsHexDigit(s[k])
    decreases |s| - j
  {
    if j < |s| && IsHexDigit(s[j]) then
      var k := HexRun(s, j + 1);
      assert s[j..k] == [s[j]] + s[j + 1..k];
      k
    else j
  }

  /**
   * std::stoi(s, &parsed, 16): white space is skipped, a sign is read if
   * there is one, a "0x" or "0X" is skipped when a hexadecimal digit follows
   * it, then the longest run of hexadecimal digits is read. With no digit
   * it throws, modelled as None; otherwise the value and the number of
   * characters read.
   */
  function StoiHex(s: string): (r: Option<(int, nat)>)
    ensures r.Some? ==> r.value.1 <= |s|
  {
    var ws := SkipSpaces(s, 0);
    var afterSign := SignEnd(s, ws);
    var start := PrefixEnd(s, afterSign);
    var end := HexRun(s, start);
    if end == start then None
    else
      var magnitude: int := ParseHex(s[start..end]);
      Some((if afterSign > ws && s[ws] == '-' then -magnitude else magnitude, end))
  }

  /** Past a sign at j, if there is one. */
  function SignEnd(s: string, j: nat): (k: nat)
    requires j <= |s|
    ensures j <= k <= |s|
  {
    if j < |s| && (s[j] == '+' || s[j] == '-') then j + 1 else j
  }

  /** Past a "0x" or "0X" at j that a hexadecimal digit follows, if there is one. */
  function PrefixEnd(s: string, j: nat): (k: nat)
    requires j <= |s|
    ensures j <= k <= |s|
  {
    if j + 2 < |s| && s[j] == '0' && (s[j + 1] == 'x' || s[j + 1] == 'X') && IsHexDigit(s[j + 2]) then j + 2 else j
  }

  /** A run of hexadecimal digits is read whole, as its value. */
  lemma StoiHexOfDigits(s: string)
    requires |s| > 0 && AllHex(s)
    ensures StoiHex(s) == Some((ParseHex(s), |s|))
  {
    assert IsHexDigit(s[0]);
    assert SkipSpaces(s, 0) == 0;
    assert SignEnd(s, 0) == 0;
    assert |s| > 1 ==> IsHexDigit(s[1]);
    assert PrefixEnd(s, 0) == 0;
    HexRunAll(s, 0);
    assert s[0..|s|] == s;
  }

  lemma {:induction false} HexRunAll(s: string, j: nat)
    requires j <= |s| && AllHex(s)
    ensures HexRun(s, j) == |s|
    decreases |s| - j
  {
    if j < |s| {
      HexRunAll(s, j + 1);
    }
  }
}

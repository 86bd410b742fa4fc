/**
 * Byte splitting and joining as the Map16 codec does it: split_and_insert_2/4
 * append a word least significant byte first, join_bytes reassembles a run of
 * bytes by adding byte i shifted left by 8*i into a 32-bit accumulator.
 */
module Bytes {
  import opened Numerals

  /**
   * Little-endian reading of a run of at most four bytes into an unsigned
   * 32-bit word: the first byte is the least significant one.
   */
  function JoinBytes(s: seq<bv8>): (r: bv32)
    requires |s| <= 4
  {
    if |s| == 0 then 0 else (s[0] as bv32) + (JoinBytes(s[1..]) << 8)
  }

  /** JoinBytes of two bytes, written out. */
  lemma JoinBytes2(s: seq<bv8>)
    requires |s| == 2
    ensures JoinBytes(s) == (s[0] as bv32) + ((s[1] as bv32) << 8)
  {
    var t := s[1..];
    assert t[1..] == [];
    assert JoinBytes(t) == t[0] as bv32;
  }

  /** JoinBytes of four bytes, written out. */
  lemma JoinBytes4(s: seq<bv8>)
    requires |s| == 4
    ensures JoinBytes(s) == (s[0] as bv32) + ((s[1] as bv32) << 8) + ((s[2] as bv32) << 16) + ((s[3] as bv32) << 24)
  {
    var a, b, c, d := s[0] as bv32, s[1] as bv32, s[2] as bv32, s[3] as bv32;
    var ju := JoinBytes(s[1..]);
    assert ju == b + ((c + (d << 8)) << 8) by {
      var u := s[1..];
      var t := u[1..];
      assert t[0] == s[2] && t[1] == s[3] && u[0] == s[1];
      JoinBytes2(t);
    }
    ShiftSum(a, b, c, d);
  }

  lemma ShiftSum(a: bv32, b: bv32, c: bv32, d: bv32)
    requires a <= 0xFF && b <= 0xFF && c <= 0xFF && d <= 0xFF
    ensures a + ((b + ((c + (d << 8)) << 8)) << 8) == a + (b << 8) + (c << 16) + (d << 24)
  {
  }

  /** split_and_insert_2: the low byte, then the high byte. */
  function Split2(w: bv16): (r: seq<bv8>)
    ensures |r| == 2
    ensures JoinBytes(r) == w as bv32
  {
    var r := [(w & 0xFF) as bv8, ((w & 0xFF00) >> 8) as bv8];
    JoinBytes2(r);
    r
  }

  /** split_and_insert_4: the low half-word, then the high half-word, each split by Split2. */
  function Split4(w: bv32): (r: seq<bv8>)
    ensures |r| == 4
    ensures JoinBytes(r) == w
  {
    var r := Split2((w & 0xFFFF) as bv16) + Split2(((w & 0xFFFF_0000) >> 16) as bv16);
    JoinBytes4(r);
    r
  }

  /** A _4Bytes value handed to split_and_insert_2 is truncated to its low 16 bits. */
  function Truncate16(w: bv32): (r: bv16)
    ensures r as bv32 == w & 0xFFFF
  {
    (w & 0xFFFF) as bv16
  }

  /** A 16-bit word read back from two bytes splits into the same two bytes. */
  lemma Split2OfJoin(s: seq<bv8>, w: bv16)
    requires |s| == 2 && JoinBytes(s) == w as bv32
    ensures Split2(w) == s
  {
    hide *;
    ByteHalves(s, w);
    Split2Bytes(w);
    assert s == [s[0], s[1]];
  }

  lemma ByteHalves(s: seq<bv8>, w: bv16)
    requires |s| == 2 && JoinBytes(s) == w as bv32
    ensures (w & 0xFF) as bv8 == s[0] && ((w & 0xFF00) >> 8) as bv8 == s[1]
  {
    JoinBytes2(s);
    SplitOfTwo(s[0], s[1], w);
  }

  lemma Split2Bytes(w: bv16)
    ensures Split2(w) == [(w & 0xFF) as bv8, ((w & 0xFF00) >> 8) as bv8]
  {
  }

  lemma SplitOfTwo(a: bv8, b: bv8, w: bv16)
    requires (a as bv32) + ((b as bv32) << 8) == w as bv32
    ensures (w & 0xFF) as bv8 == a && ((w & 0xFF00) >> 8) as bv8 == b
  {
  }

  /** Joining four bytes and splitting the word again gives the same four bytes. */
  lemma Split4OfJoin(s: seq<bv8>)
    requires |s| == 4
    ensures Split4(JoinBytes(s)) == s
  {
    JoinBytes4(s);
  }

  /** The number a little-endian run of bytes denotes, without a width limit. */
  function LeValue(s: seq<bv8>): (n: nat)
    ensures n < Pow(256, |s|)
  {
    if |s| == 0 then 0 else s[0] as int + 256 * LeValue(s[1..])
  }

  /** The low byte of a number: the truncation a Byte assignment performs. */
  function ByteOf(n: nat): (b: bv8)
    ensures b as int == n % 256
  {
    var q := n % 256;
    var hi, lo := NibbleByte(q / 16), NibbleByte(q % 16);
    ByteOfNibbles(hi, lo);
    (hi << 4) | lo
  }

  /**
   * A value below 16 as a byte, spelled out literally: the solver reasons
   * about these far more cheaply than about a conversion from int.
   */
  function NibbleByte(d: nat): (b: bv8)
    requires d < 16
    ensures b as int == d
  {
    if d < 8 then
      if d < 4 then (if d == 0 then 0 else if d == 1 then 1 else if d == 2 then 2 else 3)
      else (if d == 4 then 4 else if d == 5 then 5 else if d == 6 then 6 else 7)
    else
      if d < 12 then (if d == 8 then 8 else if d == 9 then 9 else if d == 10 then 10 else 11)
      else (if d == 12 then 12 else if d == 13 then 13 else if d == 14 then 14 else 15)
  }

  lemma ByteOfNibbles(hi: bv8, lo: bv8)
    requires hi < 16 && lo < 16
    ensures ((hi << 4) | lo) as int == 16 * (hi as int) + lo as int
  {
  }

  /**
   * The k low bytes of n, least significant first: what split_and_insert_4
   * appends for a size_t value narrowed to _4Bytes when k is 4.
   */
  function LeBytes(n: nat, k: nat): (r: seq<bv8>)
    ensures |r| == k
  {
    if k == 0 then [] else [ByteOf(n)] + LeBytes(n / 256, k - 1)
  }

  /** Reading k bytes written by LeBytes gives n modulo 256^k. */
  lemma {:induction false} LeValueOfBytes(n: nat, k: nat)
    ensures LeValue(LeBytes(n, k)) == n % Pow(256, k)
  {
    if k > 0 {
      LeValueOfBytes(n / 256, k - 1);
      var r := LeBytes(n, k);
      assert r[1..] == LeBytes(n / 256, k - 1);
      DivMod256(n, Pow(256, k - 1));
    }
  }

  lemma DivMod256(n: nat, p: nat)
    requires p > 0
    ensures n % 256 + 256 * ((n / 256) % p) == n % (256 * p)
  {
    DivModUnique(n, 256, n / 256, n % 256);
    var q := n / 256;
    var r := n % 256;
    assert n == 256 * q + r;
    var q2 := q / p;
    var r2 := q % p;
    assert q == p * q2 + r2;
    assert n == (256 * p) * q2 + (256 * r2 + r);
    DivModUnique(q, p, q / p, q % p);
    assert 0 <= 256 * r2 + r < 256 * p by {
      MulAtLeast(256, p - r2);
      assert 256 * (p - r2) == 256 * p - 256 * r2;
    }
    DivModUnique(n, 256 * p, q2, 256 * r2 + r);
  }

  /** Division with remainder has one answer. */
  lemma DivModUnique(n: int, d: int, q: int, r: int)
    requires d > 0 && 0 <= r < d && n == d * q + r
    ensures n / d == q && n % d == r
  {
    var q0, r0 := n / d, n % d;
    assert d * q0 + r0 == d * q + r;
    assert d * (q0 - q) == r - r0 by {
      assert d * q0 - d * q == d * (q0 - q);
    }
    if q0 > q {
      MulAtLeast(d, q0 - q);
    } else if q0 < q {
      MulAtLeast(d, q - q0);
    }
  }

  lemma MulAtLeast(d: int, k: int)
    requires d > 0 && k >= 1
    ensures d * k >= d
  {
  }

  /** Writing back the value of a run of bytes reproduces the run. */
  lemma {:induction false} LeBytesOfValue(s: seq<bv8>)
    ensures LeBytes(LeValue(s), |s|) == s
  {
    if |s| > 0 {
      var n := LeValue(s);
      DivModUnique(n, 256, LeValue(s[1..]), s[0] as int);
      LeBytesOfValue(s[1..]);
    }
  }

  /** join_bytes computes the little-endian value of at most four bytes. */
  lemma {:induction false} JoinBytesValue(s: seq<bv8>)
    requires |s| <= 4
    ensures JoinBytes(s) as int == LeValue(s)
  {
    if |s| > 0 {
      JoinBytesValue(s[1..]);
      var t := JoinBytes(s[1..]);
      PowMonotone(256, |s| - 1, 3);
      assert Pow(256, 3) == 0x100_0000;
      JoinStep(s[0], t);
    }
  }

  lemma JoinStep(a: bv8, t: bv32)
    requires t as int < 0x100_0000
    ensures ((a as bv32) + (t << 8)) as int == a as int + 256 * (t as int)
  {
  }

  /** A number written as four little-endian bytes reads back modulo 2^32. */
  lemma LeWordAt(buf: seq<bv8>, i: nat, n: nat)
    requires i + 4 <= |buf| && buf[i..i + 4] == LeBytes(n, 4)
    ensures JoinBytes(buf[i..i + 4]) as int == n % 0x1_0000_0000
    ensures LeValue(buf[i..i + 4]) == n % 0x1_0000_0000
  {
    assert Pow(256, 4) == 0x1_0000_0000;
    JoinBytesValue(LeBytes(n, 4));
    LeValueOfBytes(n, 4);
  }
}

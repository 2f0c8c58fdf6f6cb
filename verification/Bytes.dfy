/** Bytes, fixed-width integers in both byte orders, and UTF-8 validity. */
module Bytes {

  type u8 = x: int | 0 <= x < 0x100
  type u16 = x: int | 0 <= x < 0x1_0000
  type u32 = x: int | 0 <= x < 0x1_0000_0000
  type u64 = x: int | 0 <= x < 0x1_0000_0000_0000_0000
  type i16 = x: int | -0x8000 <= x < 0x8000
  type i32 = x: int | -0x8000_0000 <= x < 0x8000_0000
  type i64 = x: int | -0x8000_0000_0000_0000 <= x < 0x8000_0000_0000_0000

  /** A text value: the UTF-8 bytes of a string. */
  type text = seq<u8>

  /** Number of values that fit in n bytes. */
  function Capacity(n: nat): (r: nat)
    ensures r > 0
  {
    if n == 0 then 1 else 0x100 * Capacity(n - 1)
  }

  lemma CapacityOfWidths()
    ensures Capacity(1) == 0x100
    ensures Capacity(2) == 0x1_0000
    ensures Capacity(4) == 0x1_0000_0000
    ensures Capacity(8) == 0x1_0000_0000_0000_0000
  {
    assert Capacity(4) == 0x1_0000_0000;
    assert Capacity(5) == 0x100 * Capacity(4);
    assert Capacity(6) == 0x100 * Capacity(5);
    assert Capacity(7) == 0x100 * Capacity(6);
  }

  /** The n low-order bytes of x, least significant first. */
  function LittleEndian(n: nat, x: nat): (bs: seq<u8>)
    ensures |bs| == n
  {
    if n == 0 then [] else [x % 0x100] + LittleEndian(n - 1, x / 0x100)
  }

  function LittleEndianValue(bs: seq<u8>): (x: nat)
    ensures x < Capacity(|bs|)
  {
    if bs == [] then 0 else bs[0] + 0x100 * LittleEndianValue(bs[1..])
  }

  function Reverse(bs: seq<u8>): (r: seq<u8>)
    ensures |r| == |bs|
  {
    seq(|bs|, i requires 0 <= i < |bs| => bs[|bs| - 1 - i])
  }

  lemma ReverseTwice(bs: seq<u8>)
    ensures Reverse(Reverse(bs)) == bs
  {
    assert forall i | 0 <= i < |bs| :: Reverse(Reverse(bs))[i] == bs[i];
  }

  /** The n low-order bytes of x in the given byte order. */
  function FixedBytes(bigEndian: bool, n: nat, x: nat): (bs: seq<u8>)
    ensures |bs| == n
  {
    if bigEndian then Reverse(LittleEndian(n, x)) else LittleEndian(n, x)
  }

  function FixedValue(bigEndian: bool, bs: seq<u8>): (x: nat)
    ensures x < Capacity(|bs|)
  {
    LittleEndianValue(if bigEndian then Reverse(bs) else bs)
  }

  lemma {:induction false} LittleEndianInverse(n: nat, x: nat)
    requires x < Capacity(n)
    ensures LittleEndianValue(LittleEndian(n, x)) == x
  {
    if n > 0 {
      LittleEndianInverse(n - 1, x / 0x100);
      assert LittleEndian(n, x)[1..] == LittleEndian(n - 1, x / 0x100);
    }
  }

  lemma {:induction false} LittleEndianUnique(bs: seq<u8>)
    ensures LittleEndian(|bs|, LittleEndianValue(bs)) == bs
  {
    if bs != [] {
      var rest := LittleEndianValue(bs[1..]);
      LittleEndianUnique(bs[1..]);
      assert (bs[0] + 0x100 * rest) % 0x100 == bs[0] && (bs[0] + 0x100 * rest) / 0x100 == rest;
      assert bs == [bs[0]] + bs[1..];
    }
  }

  /** Either byte order: the bytes of a number that fits determine it, and conversely. */
  lemma FixedInverse(bigEndian: bool, n: nat, x: nat)
    requires x < Capacity(n)
    ensures FixedValue(bigEndian, FixedBytes(bigEndian, n, x)) == x
  {
    LittleEndianInverse(n, x);
    ReverseTwice(LittleEndian(n, x));
  }

  lemma FixedUnique(bigEndian: bool, bs: seq<u8>)
    ensures FixedBytes(bigEndian, |bs|, FixedValue(bigEndian, bs)) == bs
  {
    LittleEndianUnique(bs);
    LittleEndianUnique(Reverse(bs));
    ReverseTwice(bs);
  }

  /** Which byte is where: the i-th least significant byte stands at i, or at i from the end. */
  lemma {:induction false} LittleEndianAt(n: nat, x: nat, i: nat)
    requires i < n
    ensures LittleEndian(n, x)[i] == x / Capacity(i) % 0x100
  {
    if i > 0 {
      LittleEndianAt(n - 1, x / 0x100, i - 1);
      DivideTwice(x, Capacity(i - 1));
    }
  }

  lemma DivideTwice(x: nat, c: nat)
    requires c > 0
    ensures x / 0x100 / c == x / (0x100 * c)
  {
    var q := x / (0x100 * c);
    var r := x % (0x100 * c);
    assert x == 0x100 * (c * q) + r by {
      assert (0x100 * c) * q == 0x100 * (c * q);
    }
    assert x / 0x100 == c * q + r / 0x100;
    assert r / 0x100 < c;
    Quotient(c, q, r / 0x100);
  }

  lemma Quotient(c: nat, q: nat, r: nat)
    requires r < c
    ensures (c * q + r) / c == q
  {
    var y := c * q + r;
    var k := y / c;
    assert c * k <= y < c * (k + 1);
    MultiplyMonotone(c, q + 1, k);
    MultiplyMonotone(c, k + 1, q);
    assert c * (q + 1) == c * q + c;
  }

  lemma MultiplyMonotone(c: nat, a: nat, b: nat)
    ensures a <= b ==> c * a <= c * b
  {
  }

  lemma FixedBytesAt(bigEndian: bool, n: nat, x: nat, i: nat)
    requires i < n
    ensures FixedBytes(bigEndian, n, x)[if bigEndian then n - 1 - i else i] == x / Capacity(i) % 0x100
  {
    hide LittleEndian, Capacity;
    LittleEndianAt(n, x, i);
  }

  predicate Continuation(b: u8) {
    0x80 <= b <= 0xBF
  }

  /** Well-formed UTF-8: shortest forms only, no surrogates, nothing above U+10FFFF. */
  predicate ValidUtf8(s: text) {
    || s == []
    || (s[0] < 0x80 && ValidUtf8(s[1..]))
    || (|s| >= 2 && 0xC2 <= s[0] <= 0xDF && Continuation(s[1]) && ValidUtf8(s[2..]))
    || (&& |s| >= 3
        && (|| (s[0] == 0xE0 && 0xA0 <= s[1] <= 0xBF)
            || (0xE1 <= s[0] <= 0xEF && s[0] != 0xED && Continuation(s[1]))
            || (s[0] == 0xED && 0x80 <= s[1] <= 0x9F))
        && Continuation(s[2])
        && ValidUtf8(s[3..]))
    || (&& |s| >= 4
        && (|| (s[0] == 0xF0 && 0x90 <= s[1] <= 0xBF)
            || (0xF1 <= s[0] <= 0xF3 && Continuation(s[1]))
            || (s[0] == 0xF4 && 0x80 <= s[1] <= 0x8F))
        && Continuation(s[2])
        && Continuation(s[3])
        && ValidUtf8(s[4..]))
  }

  predicate Ascii(s: text) {
    forall i | 0 <= i < |s| :: s[i] < 0x80
  }

  lemma {:induction false} AsciiIsUtf8(s: text)
    requires Ascii(s)
    ensures ValidUtf8(s)
  {
    if s != [] {
      AsciiIsUtf8(s[1..]);
    }
  }

  /** Pieces between the separators; always at least one piece. */
  function Split(s: text, sep: u8): (pieces: seq<text>)
    ensures |pieces| >= 1
  {
    if s == [] then [[]]
    else
      var rest := Split(s[1..], sep);
      if s[0] == sep then [[]] + rest
      else [[s[0]] + rest[0]] + rest[1..]
  }
}

/** UTF-8 as an encoding of code points: the reference for the validity check. */
module Utf8 {
  import opened Bytes

  /** Code points that are characters: all of Unicode but the surrogates. */
  predicate IsScalar(c: nat) {
    c < 0xD800 || 0xE000 <= c < 0x11_0000
  }

  /** The bytes of one character: seven bits, or a lead byte and six bits in each byte that follows. */
  function EncodeScalar(c: nat): (bs: text)
    requires IsScalar(c)
  {
    if c < 0x80 then [c]
    else if c < 0x800 then [0xC0 + c / 0x40, 0x80 + c % 0x40]
    else if c < 0x1_0000 then [0xE0 + c / 0x1000, 0x80 + c / 0x40 % 0x40, 0x80 + c % 0x40]
    else [0xF0 + c / 0x4_0000, 0x80 + c / 0x1000 % 0x40, 0x80 + c / 0x40 % 0x40, 0x80 + c % 0x40]
  }

  predicate AllScalars(cs: seq<nat>) {
    forall i | 0 <= i < |cs| :: IsScalar(cs[i])
  }

  function EncodeAll(cs: seq<nat>): (bs: text)
    requires AllScalars(cs)
  {
    if cs == [] then [] else EncodeScalar(cs[0]) + EncodeAll(cs[1..])
  }

  /** The first character of a valid text, by its lead byte, and the number of its bytes. */
  function First(s: text): (r: (nat, nat))
    requires s != [] && ValidUtf8(s)
    ensures IsScalar(r.0) && 0 < r.1 <= |s|
    ensures EncodeScalar(r.0) == s[..r.1] && ValidUtf8(s[r.1..])
  {
    var b: nat := s[0];
    if b < 0x80 then (b, 1)
    else if b < 0xE0 then (0x40 * (b - 0xC0) + Six(s[1]), 2)
    else if b < 0xF0 then
      ThreeBytes(b - 0xE0, Six(s[1]), Six(s[2]));
      (0x1000 * (b - 0xE0) + 0x40 * Six(s[1]) + Six(s[2]), 3)
    else
      FourBytes(b - 0xF0, Six(s[1]), Six(s[2]), Six(s[3]));
      (0x4_0000 * (b - 0xF0) + 0x1000 * Six(s[1]) + 0x40 * Six(s[2]) + Six(s[3]), 4)
  }

  /** The six bits of a continuation byte. */
  function Six(b: u8): (x: nat)
    requires Continuation(b)
    ensures x < 0x40 && b == 0x80 + x
  {
    b - 0x80
  }

  lemma ThreeBytes(a: nat, b: nat, c: nat)
    requires b < 0x40 && c < 0x40
    ensures var x := 0x1000 * a + 0x40 * b + c; x / 0x1000 == a && x / 0x40 % 0x40 == b && x % 0x40 == c
  {
    assert (0x1000 * a + 0x40 * b + c) / 0x40 == 0x40 * a + b;
  }

  lemma FourBytes(a: nat, b: nat, c: nat, d: nat)
    requires b < 0x40 && c < 0x40 && d < 0x40
    ensures var x := 0x4_0000 * a + 0x1000 * b + 0x40 * c + d;
            x / 0x4_0000 == a && x / 0x1000 % 0x40 == b && x / 0x40 % 0x40 == c && x % 0x40 == d
  {
    var x := 0x4_0000 * a + 0x1000 * b + 0x40 * c + d;
    ThreeBytes(0x40 * a + b, c, d);
    assert x == 0x1000 * (0x40 * a + b) + 0x40 * c + d;
    assert x / 0x1000 == 0x40 * a + b;
  }

  function Decode(s: text): (cs: seq<nat>)
    requires ValidUtf8(s)
    ensures AllScalars(cs)
    decreases |s|
  {
    if s == [] then []
    else
      var (c, n) := First(s);
      [c] + Decode(s[n..])
  }

  lemma {:induction false} DecodeInverse(s: text)
    requires ValidUtf8(s)
    ensures EncodeAll(Decode(s)) == s
    decreases |s|
  {
    hide ValidUtf8, EncodeScalar;
    if s != [] {
      var (c, n) := First(s);
      DecodeInverse(s[n..]);
      assert ([c] + Decode(s[n..]))[1..] == Decode(s[n..]);
      assert s == s[..n] + s[n..];
    }
  }

  lemma EncodedFirst(c: nat, rest: text)
    requires IsScalar(c) && ValidUtf8(rest)
    ensures ValidUtf8(EncodeScalar(c) + rest)
  {
    var s := EncodeScalar(c) + rest;
    if c < 0x80 {
      assert s[1..] == rest;
    } else if c < 0x800 {
      assert s[2..] == rest;
    } else if c < 0x1_0000 {
      assert s[3..] == rest;
      assert c < 0x1000 ==> c / 0x40 >= 0x20 && c / 0x40 % 0x40 >= 0x20;
      assert 0xD000 <= c < 0xE000 ==> c / 0x1000 == 0xD && c / 0x40 % 0x40 < 0x20;
    } else {
      assert s[4..] == rest;
      assert c < 0x4_0000 ==> c / 0x1000 >= 0x10 && c / 0x1000 % 0x40 >= 0x10;
      assert 0x10_0000 <= c ==> c / 0x4_0000 == 4 && c / 0x1000 % 0x40 < 0x10;
    }
  }

  lemma {:induction false} EncodedIsValid(cs: seq<nat>)
    requires AllScalars(cs)
    ensures ValidUtf8(EncodeAll(cs))
  {
    hide ValidUtf8, EncodeScalar;
    if cs == [] {
      assert ValidUtf8([]) by { NothingIsValid(); }
    } else {
      EncodedIsValid(cs[1..]);
      EncodedFirst(cs[0], EncodeAll(cs[1..]));
    }
  }

  lemma NothingIsValid()
    ensures ValidUtf8([])
  {
  }

  /** The check accepts exactly the encodings of sequences of characters. */
  lemma ValidExactly(s: text)
    ensures ValidUtf8(s) <==> exists cs :: AllScalars(cs) && s == EncodeAll(cs)
  {
    hide ValidUtf8, EncodeAll;
    if ValidUtf8(s) {
      DecodeInverse(s);
      assert AllScalars(Decode(s));
    } else if cs :| AllScalars(cs) && s == EncodeAll(cs) {
      EncodedIsValid(cs);
    }
  }
}

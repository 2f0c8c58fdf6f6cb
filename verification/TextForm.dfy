/** Digits and white space, listed character by character: what hexadecimal, decimal and trimming are measured by. */
module TextForm {
  import opened Wrappers
  import opened Bytes
  import opened Text
  import opened Utf8

  // ---- Listed characters ----

  /** An interval of characters, listed. */
  lemma Listed(s: string, from: nat, b: u8)
    requires from + |s| <= 0x100
    requires forall i | 0 <= i < |s| :: s[i] as int == from + i
    ensures b in Txt(s) <==> from <= b < from + |s|
  {
    if from <= b < from + |s| {
      assert Txt(s)[b - from] == b;
    }
  }

  lemma LettersListed(b: u8)
    ensures b in Txt("ABCDEFGHIJKLMNOPQRSTUVWXYZ") <==> 65 <= b <= 90
    ensures b in Txt("abcdefghijklmnopqrstuvwxyz") <==> 97 <= b <= 122
  {
    hide Txt;
    Listed("ABCDEFGHIJKLMNOPQRSTUVWXYZ", 65, b);
    Listed("abcdefghijklmnopqrstuvwxyz", 97, b);
  }

  lemma TxtConcat(a: string, b: string)
    ensures Txt(a + b) == Txt(a) + Txt(b)
  {
  }

  // ---- Hexadecimal ----

  /** The digit of a value: upper case is read as well, lower case is written. */
  predicate IsHexDigit(b: u8, v: nat) {
    v < 16 && (b == Txt("0123456789abcdef")[v] || b == Txt("0123456789ABCDEF")[v])
  }

  lemma HexDigitsExactly(b: u8, v: u8)
    ensures HexVal(b) == Some(v) <==> IsHexDigit(b, v)
    ensures v < 16 ==> HexDigit(v) == Txt("0123456789abcdef")[v]
  {
    hide Txt;
    if v < 16 {
      LowerDigit(v);
      UpperDigit(v);
    }
  }

  lemma LowerDigit(v: u8)
    requires v < 16
    ensures Txt("0123456789abcdef")[v] == if v < 10 then 48 + v else 87 + v
  {
    hide Txt;
    TxtAt("0123456789abcdef", v);
  }

  lemma UpperDigit(v: u8)
    requires v < 16
    ensures Txt("0123456789ABCDEF")[v] == if v < 10 then 48 + v else 55 + v
  {
    hide Txt;
    TxtAt("0123456789ABCDEF", v);
  }

  lemma TxtAt(s: string, i: nat)
    requires i < |s|
    ensures Txt(s)[i] == s[i] as int % 0x100
  {
  }

  /** Two digits for every byte, the high one first. */
  predicate Spells(s: text, bs: seq<u8>) {
    && |s| == 2 * |bs|
    && forall i | 0 <= i < |bs| :: IsHexDigit(s[2 * i], bs[i] / 16) && IsHexDigit(s[2 * i + 1], bs[i] % 16)
  }

  lemma SpellsCons(s: text, bs: seq<u8>)
    requires |s| >= 2 && bs != []
    ensures Spells(s, bs) <==>
              IsHexDigit(s[0], bs[0] / 16) && IsHexDigit(s[1], bs[0] % 16) && Spells(s[2..], bs[1..])
  {
    hide IsHexDigit;
    var rest, tail := s[2..], bs[1..];
    if Spells(s, bs) {
      forall i | 0 <= i < |tail|
        ensures IsHexDigit(rest[2 * i], tail[i] / 16) && IsHexDigit(rest[2 * i + 1], tail[i] % 16)
      {
        assert rest[2 * i] == s[2 * (i + 1)] && rest[2 * i + 1] == s[2 * (i + 1) + 1] && tail[i] == bs[i + 1];
      }
    }
    if IsHexDigit(s[0], bs[0] / 16) && IsHexDigit(s[1], bs[0] % 16) && Spells(rest, tail) {
      forall i | 0 <= i < |bs|
        ensures IsHexDigit(s[2 * i], bs[i] / 16) && IsHexDigit(s[2 * i + 1], bs[i] % 16)
      {
        if i > 0 {
          assert rest[2 * (i - 1)] == s[2 * i] && rest[2 * (i - 1) + 1] == s[2 * i + 1] && tail[i - 1] == bs[i];
        }
      }
    }
  }

  /** What decodes, and to what. */
  lemma {:induction false} HexDecodeExactly(s: text, bs: seq<u8>)
    ensures HexDecode(s) == Some(bs) <==> Spells(s, bs)
    decreases |s|
  {
    hide HexVal, IsHexDigit, Spells, HexDecode;
    if |s| < 2 || bs == [] {
      ShortSpelling(s, bs);
    } else {
      HexDecodeExactly(s[2..], bs[1..]);
      SpellsCons(s, bs);
      HexDigitsExactly(s[0], bs[0] / 16);
      HexDigitsExactly(s[1], bs[0] % 16);
      HexDecodeCons(s, bs);
    }
  }

  lemma HexDecodeCons(s: text, bs: seq<u8>)
    requires |s| >= 2 && bs != []
    ensures HexDecode(s) == Some(bs) <==>
              HexVal(s[0]) == Some(bs[0] / 16) && HexVal(s[1]) == Some(bs[0] % 16) && HexDecode(s[2..]) == Some(bs[1..])
  {
    hide HexVal;
    assert bs == [bs[0]] + bs[1..];
    var h, l, rest := HexVal(s[0]), HexVal(s[1]), HexDecode(s[2..]);
    if h.Some? && l.Some? && rest.Some? {
      var first := 16 * h.value + l.value;
      assert first / 16 == h.value && first % 16 == l.value;
      assert ([first] + rest.value)[1..] == rest.value;
    }
  }

  lemma ShortSpelling(s: text, bs: seq<u8>)
    requires |s| < 2 || bs == []
    ensures HexDecode(s) == Some(bs) <==> Spells(s, bs)
  {
    if |s| >= 2 && HexDecode(s).Some? {
      assert HexDecode(s).value != [];
    }
  }

  /** What is written: the lower-case digits. */
  lemma {:induction false} HexEncodeExactly(bs: seq<u8>)
    ensures Spells(HexEncode(bs), bs)
    ensures forall b | b in HexEncode(bs) :: b in Txt("0123456789abcdef")
  {
    hide IsHexDigit, Spells, Txt;
    if bs == [] {
      ShortSpelling([], []);
    } else {
      var s := HexEncode(bs);
      HexEncodeExactly(bs[1..]);
      SpellsCons(s, bs);
      assert s[2..] == HexEncode(bs[1..]);
      WrittenDigit(bs[0] / 16);
      WrittenDigit(bs[0] % 16);
      assert s == [s[0], s[1]] + s[2..];
    }
  }

  lemma WrittenDigit(v: u8)
    requires v < 16
    ensures IsHexDigit(HexDigit(v), v) && HexDigit(v) in Txt("0123456789abcdef")
  {
    hide Txt, HexDigit;
    HexDigitsExactly(0, v);
  }

  // ---- Decimal ----

  predicate IsDigit(b: u8) {
    b in Txt("0123456789")
  }

  function ValueOfDigit(b: u8): (v: nat) {
    if b < '0' as int then 0 else b - '0' as int
  }

  /** The value of a text of digits: each digit counts ten times what follows it. */
  function Horner(s: text): (n: nat) {
    if s == [] then 0 else 10 * Horner(s[..|s| - 1]) + ValueOfDigit(s[|s| - 1])
  }

  predicate AllDigits(s: text) {
    forall b | b in s :: IsDigit(b)
  }

  lemma DigitsListed(b: u8)
    ensures IsDigit(b) <==> 48 <= b <= 57
  {
    hide Txt;
    Listed("0123456789", 48, b);
  }

  lemma {:induction false} HornerExactly(s: text)
    ensures AllDigits(s) <==> Digits(s)
    ensures Digits(s) ==> DigitsValue(s) == Horner(s)
  {
    hide IsDigit;
    forall b: u8
      ensures IsDigit(b) <==> 48 <= b <= 57
    {
      DigitsListed(b);
    }
    assert forall i | 0 <= i < |s| :: s[i] in s;
    if s != [] && Digits(s) {
      HornerExactly(s[..|s| - 1]);
    }
  }

  /** Which text is a number below a limit: digits, leading zeros included, and perhaps a plus sign. */
  lemma UnsignedExactly(s: text, limit: nat, n: nat)
    ensures ParseUnsigned(s, limit) == Some(n) <==>
              && n < limit
              && exists digits :: (s == digits || s == Txt("+") + digits)
                               && digits != [] && AllDigits(digits) && Horner(digits) == n
  {
    hide Horner, DigitsValue;
    assert Txt("+") == [43];
    forall digits: text
      ensures AllDigits(digits) <==> Digits(digits)
      ensures Digits(digits) ==> DigitsValue(digits) == Horner(digits)
    {
      HornerExactly(digits);
    }
    var digits := if |s| > 1 && s[0] == 43 then s[1..] else s;
    assert s == digits || s == [43] + digits;
  }

  /** Numbers are written in decimal, without leading zeros. */
  lemma {:induction false} DecimalExactly(n: nat)
    ensures AllDigits(Decimal(n)) && Horner(Decimal(n)) == n
    ensures Decimal(n)[0] == '0' as int <==> n == 0
  {
    hide DigitsValue;
    HornerExactly(Decimal(n));
    DecimalValue(n);
    DecimalHead(n);
  }

  lemma {:induction false} DecimalHead(n: nat)
    ensures Decimal(n)[0] == 48 <==> n == 0
  {
    if n >= 10 {
      DecimalHead(n / 10);
    }
  }

  // ---- White space ----

  /** The characters with the property White_Space. */
  predicate IsSpace(c: nat): (space: bool)
    ensures space ==> IsScalar(c)
  {
    || c in {0x9, 0xA, 0xB, 0xC, 0xD, 0x20, 0x85, 0xA0, 0x1680, 0x2028, 0x2029, 0x202F, 0x205F, 0x3000}
    || 0x2000 <= c <= 0x200A
  }

  predicate AllSpaces(cs: seq<nat>) {
    forall i | 0 <= i < |cs| :: IsSpace(cs[i])
  }

  ghost predicate StartsWithSpace(s: text) {
    exists c :: IsSpace(c) && EncodeScalar(c) <= s
  }

  predicate EndsWith(s: text, suffix: text) {
    |suffix| <= |s| && s[|s| - |suffix|..] == suffix
  }

  ghost predicate EndsWithSpace(s: text) {
    exists c :: IsSpace(c) && EndsWith(s, EncodeScalar(c))
  }

  /** The white-space characters of two and three bytes, encoded. */
  lemma WideSpaces(c: nat)
    requires IsSpace(c)
    ensures var bs := EncodeScalar(c);
            && (c < 0x80 ==> bs == [c])
            && (0x80 <= c < 0x800 ==> bs == [0xC2, c])
            && (c >= 0x800 ==> |bs| == 3 && IsWideSpace(bs[0], bs[1], bs[2]))
  {
    if 0x2000 <= c <= 0x200A {
      assert c / 0x40 == 0x80;
    }
  }

  lemma SpaceOfThree(a: u8, b: u8, d: u8) returns (c: nat)
    requires IsWideSpace(a, b, d)
    ensures IsSpace(c) && EncodeScalar(c) == [a, b, d]
  {
    if a == 0xE1 {
      c := 0x1680;
    } else if a == 0xE3 {
      c := 0x3000;
    } else if b == 0x81 {
      c := 0x205F;
    } else {
      c := 0x2000 + (d - 0x80);
      assert c / 0x40 == 0x80 && c % 0x40 == d - 0x80;
    }
    assert EncodeScalar(c) == [0xE0 + c / 0x1000, 0x80 + c / 0x40 % 0x40, 0x80 + c % 0x40];
  }

  /** White space at the start is what the trimming sees there. */
  lemma LeadingSpaceExactly(s: text)
    ensures LeadingSpace(s) > 0 <==> StartsWithSpace(s)
    ensures LeadingSpace(s) > 0 ==> exists c :: IsSpace(c) && EncodeScalar(c) == s[..LeadingSpace(s)]
  {
    hide IsSpace, EncodeScalar, IsWideSpace;
    var n := LeadingSpace(s);
    if n > 0 {
      var c := SpaceAt(s[..n]);
      assert EncodeScalar(c) <= s;
    }
    if StartsWithSpace(s) {
      var c :| IsSpace(c) && EncodeScalar(c) <= s;
      WideSpaces(c);
      SpaceRange(c);
      var bs := EncodeScalar(c);
      assert forall i | 0 <= i < |bs| :: s[i] == bs[i];
    }
  }

  lemma SpaceRange(c: nat)
    requires IsSpace(c)
    ensures c < 0x80 ==> 9 <= c <= 13 || c == 32
    ensures 0x80 <= c < 0x800 ==> c == 0x85 || c == 0xA0
  {
  }

  /** The character a space seen by the trimming is. */
  lemma SpaceAt(bs: text) returns (c: nat)
    requires || (|bs| == 1 && (9 <= bs[0] <= 13 || bs[0] == 32))
             || (|bs| == 2 && bs[0] == 0xC2 && (bs[1] == 0x85 || bs[1] == 0xA0))
             || (|bs| == 3 && IsWideSpace(bs[0], bs[1], bs[2]))
    ensures IsSpace(c) && EncodeScalar(c) == bs
  {
    if |bs| == 1 {
      c := bs[0];
    } else if |bs| == 2 {
      c := bs[1];
    } else {
      c := SpaceOfThree(bs[0], bs[1], bs[2]);
    }
  }

  /** White space at the end is what the trimming sees there. */
  lemma TrailingSpaceExactly(s: text)
    ensures TrailingSpace(s) > 0 <==> EndsWithSpace(s)
    ensures TrailingSpace(s) > 0 ==> exists c :: IsSpace(c) && EncodeScalar(c) == s[|s| - TrailingSpace(s)..]
  {
    hide IsSpace, EncodeScalar, IsWideSpace;
    var n := TrailingSpace(s);
    if n > 0 {
      var c := SpaceAt(s[|s| - n..]);
      assert EndsWith(s, EncodeScalar(c));
    }
    if EndsWithSpace(s) {
      var c :| IsSpace(c) && EndsWith(s, EncodeScalar(c));
      WideSpaces(c);
      SpaceRange(c);
      var bs := EncodeScalar(c);
      assert forall i | 0 <= i < |bs| :: s[|s| - |bs| + i] == s[|s| - |bs|..][i] == bs[i];
    }
  }

  lemma OneMoreInFront(c: nat, cs: seq<nat>, rest: text)
    requires IsSpace(c) && AllSpaces(cs) && AllScalars(cs)
    ensures AllSpaces([c] + cs) && AllScalars([c] + cs)
    ensures EncodeAll([c] + cs) + rest == EncodeScalar(c) + (EncodeAll(cs) + rest)
  {
    hide IsSpace, EncodeScalar;
    assert ([c] + cs)[1..] == cs;
    Glue(EncodeScalar(c), EncodeAll(cs), rest);
  }

  lemma Glue(a: text, b: text, c: text)
    ensures a + b + c == a + (b + c)
  {
  }

  lemma NoCharacters()
    ensures AllSpaces([]) && AllScalars([]) && EncodeAll([]) == []
  {
  }

  lemma OneMoreBehind(cs: seq<nat>, c: nat, front: text)
    requires IsSpace(c) && AllSpaces(cs) && AllScalars(cs)
    ensures AllSpaces(cs + [c]) && AllScalars(cs + [c])
    ensures front + EncodeAll(cs + [c]) == (front + EncodeAll(cs)) + EncodeScalar(c)
  {
    hide IsSpace, EncodeScalar, EncodeAll;
    EncodeSnoc(cs, c);
    Glue(front, EncodeAll(cs), EncodeScalar(c));
  }

  lemma {:induction false} EncodeSnoc(cs: seq<nat>, c: nat)
    requires AllScalars(cs) && IsScalar(c)
    ensures EncodeAll(cs + [c]) == EncodeAll(cs) + EncodeScalar(c)
  {
    hide EncodeScalar;
    if cs == [] {
      assert cs + [c] == [c] && [c][1..] == [];
      assert EncodeAll([c]) == EncodeScalar(c) + EncodeAll([]);
    } else {
      assert (cs + [c])[1..] == cs[1..] + [c];
      EncodeSnoc(cs[1..], c);
    }
  }

  /** Trimming at the start takes away white space, and all of it. */
  lemma {:induction false} TrimStartExactly(s: text) returns (cs: seq<nat>)
    ensures AllSpaces(cs) && AllScalars(cs) && s == EncodeAll(cs) + TrimStart(s) && !StartsWithSpace(TrimStart(s))
    decreases |s|
  {
    hide LeadingSpace, IsSpace, EncodeScalar, EncodeAll, StartsWithSpace, AllSpaces, AllScalars;
    LeadingSpaceExactly(s);
    NoCharacters();
    var n := LeadingSpace(s);
    if n == 0 {
      cs := [];
      assert [] + s == s;
    } else {
      var rest := TrimStartExactly(s[n..]);
      var c :| IsSpace(c) && EncodeScalar(c) == s[..n];
      OneMoreInFront(c, rest, TrimStart(s[n..]));
      cs := [c] + rest;
      assert s == s[..n] + s[n..];
    }
  }

  lemma {:induction false} TrimEndExactly(s: text) returns (cs: seq<nat>)
    ensures AllSpaces(cs) && AllScalars(cs) && s == TrimEnd(s) + EncodeAll(cs) && !EndsWithSpace(TrimEnd(s))
    decreases |s|
  {
    hide TrailingSpace, IsSpace, EncodeScalar, EncodeAll, EndsWithSpace, AllSpaces, AllScalars;
    TrailingSpaceExactly(s);
    NoCharacters();
    var n := TrailingSpace(s);
    if n == 0 {
      cs := [];
      assert s + [] == s;
    } else {
      var rest := TrimEndExactly(s[..|s| - n]);
      var c :| IsSpace(c) && EncodeScalar(c) == s[|s| - n..];
      OneMoreBehind(rest, c, TrimEnd(s[..|s| - n]));
      cs := rest + [c];
      assert s == s[..|s| - n] + s[|s| - n..];
    }
  }

  lemma SpacesInFront(s: text, rest: text)
    ensures StartsWithSpace(s) ==> StartsWithSpace(s + rest)
  {
    hide IsSpace, EncodeScalar;
    if StartsWithSpace(s) {
      var c :| IsSpace(c) && EncodeScalar(c) <= s;
      assert EncodeScalar(c) <= s + rest;
    }
  }

  /** Trimming takes away white space at both ends, and all of it. */
  lemma TrimExactly(s: text) returns (before: seq<nat>, after: seq<nat>)
    ensures AllSpaces(before) && AllSpaces(after) && AllScalars(before) && AllScalars(after)
    ensures s == EncodeAll(before) + Trim(s) + EncodeAll(after)
    ensures !EndsWithSpace(Trim(s)) && !StartsWithSpace(Trim(s))
  {
    hide TrimStart, TrimEnd, EncodeAll, IsSpace, EncodeScalar;
    before := TrimStartExactly(s);
    after := TrimEndExactly(TrimStart(s));
    SpacesInFront(Trim(s), EncodeAll(after));
  }

  lemma LeadingSpaceOf(c: nat, rest: text)
    requires IsSpace(c)
    ensures LeadingSpace(EncodeScalar(c) + rest) == |EncodeScalar(c)|
  {
    hide IsSpace, EncodeScalar;
    WideSpaces(c);
    SpaceRange(c);
    var bs := EncodeScalar(c);
    assert forall i | 0 <= i < |bs| :: (bs + rest)[i] == bs[i];
    if c >= 0x800 {
      assert bs[0] == 0xE1 || bs[0] == 0xE2 || bs[0] == 0xE3;
    }
  }

  lemma {:induction false} TrimStartSpaces(cs: seq<nat>, rest: text)
    requires AllSpaces(cs) && AllScalars(cs) && !StartsWithSpace(rest)
    ensures TrimStart(EncodeAll(cs) + rest) == rest
  {
    hide LeadingSpace, IsSpace, EncodeScalar, StartsWithSpace;
    if cs == [] {
      LeadingSpaceExactly(rest);
      assert EncodeAll(cs) + rest == rest;
    } else {
      var c, more := cs[0], EncodeAll(cs[1..]) + rest;
      assert EncodeAll(cs) + rest == EncodeScalar(c) + more;
      LeadingSpaceOf(c, more);
      assert (EncodeScalar(c) + more)[|EncodeScalar(c)|..] == more;
      TrimStartSpaces(cs[1..], rest);
      LeadingSpaceExactly(EncodeScalar(c) + more);
    }
  }
}

/** Small text functions: splitting, trimming, hexadecimal, decimal. */
module Text {
  import opened Wrappers
  import opened Bytes

  const SPACE: u8 := 32

  /** The bytes of an ASCII literal. */
  function Txt(s: string): (t: text)
    ensures |t| == |s|
  {
    seq(|s|, i requires 0 <= i < |s| => s[i] as int % 0x100)
  }

  /** The parts before and after the first separator. */
  function SplitOnce(s: text, sep: u8): (r: Option<(text, text)>)
  {
    if s == [] then None
    else if s[0] == sep then Some(([], s[1..]))
    else
      var rest := SplitOnce(s[1..], sep);
      if rest.None? then None else Some(([s[0]] + rest.value.0, rest.value.1))
  }

  lemma {:induction false} SplitOnceFirst(a: text, sep: u8, b: text)
    requires sep !in a
    ensures SplitOnce(a + [sep] + b, sep) == Some((a, b))
  {
    var s := a + [sep] + b;
    if a == [] {
      assert s[1..] == b;
    } else {
      assert s[1..] == a[1..] + [sep] + b;
      SplitOnceFirst(a[1..], sep, b);
      assert a == [a[0]] + a[1..];
    }
  }

  lemma {:induction false} SplitOnceNone(s: text, sep: u8)
    ensures SplitOnce(s, sep).None? <==> sep !in s
  {
    if s != [] {
      SplitOnceNone(s[1..], sep);
      assert s == [s[0]] + s[1..];
    }
  }

  lemma {:induction false} SplitOnceParts(s: text, sep: u8)
    requires SplitOnce(s, sep).Some?
    ensures var (a, b) := SplitOnce(s, sep).value; s == a + [sep] + b && sep !in a
  {
    if s[0] != sep {
      SplitOnceParts(s[1..], sep);
      assert s == [s[0]] + s[1..];
    }
  }

  lemma {:induction false} SplitNone(s: text, sep: u8)
    requires sep !in s
    ensures Split(s, sep) == [s]
  {
    if s != [] {
      SplitNone(s[1..], sep);
      assert s == [s[0]] + s[1..];
    }
  }

  lemma {:induction false} SplitConcat(a: text, sep: u8, b: text)
    ensures Split(a + [sep] + b, sep) == Split(a, sep) + Split(b, sep)
  {
    hide Split;
    var s := a + [sep] + b;
    SplitHead(s, sep);
    if a == [] {
      assert s[1..] == b;
      SplitNone([], sep);
    } else {
      assert s[0] == a[0] && s[1..] == a[1..] + [sep] + b;
      SplitHead(a, sep);
      SplitConcat(a[1..], sep, b);
      ConsFirst([a[0]], Split(a[1..], sep), Split(b, sep));
    }
  }

  lemma SplitHead(s: text, sep: u8)
    requires s != []
    ensures Split(s, sep) == var rest := Split(s[1..], sep);
                             if s[0] == sep then [[]] + rest else [[s[0]] + rest[0]] + rest[1..]
  {
  }

  lemma ConsFirst(x: text, front: seq<text>, back: seq<text>)
    requires front != []
    ensures [[]] + (front + back) == ([[]] + front) + back
    ensures [x + (front + back)[0]] + (front + back)[1..] == ([x + front[0]] + front[1..]) + back
  {
  }

  // ---- White space ----

  /** Length of the white-space character at the start, 0 if there is none. */
  function LeadingSpace(s: text): (n: nat)
    ensures n <= |s|
  {
    if s == [] then 0
    else if 9 <= s[0] <= 13 || s[0] == 32 then 1
    else if |s| >= 2 && s[0] == 0xC2 && (s[1] == 0x85 || s[1] == 0xA0) then 2
    else if |s| >= 3 && IsWideSpace(s[0], s[1], s[2]) then 3
    else 0
  }

  /** U+1680, U+2000..200A, U+2028, U+2029, U+202F, U+205F, U+3000. */
  predicate IsWideSpace(a: u8, b: u8, c: u8) {
    || (a == 0xE1 && b == 0x9A && c == 0x80)
    || (a == 0xE2 && b == 0x80 && (0x80 <= c <= 0x8A || c == 0xA8 || c == 0xA9 || c == 0xAF))
    || (a == 0xE2 && b == 0x81 && c == 0x9F)
    || (a == 0xE3 && b == 0x80 && c == 0x80)
  }

  /** Length of the white-space character at the end, 0 if there is none. */
  function TrailingSpace(s: text): (n: nat)
    ensures n <= |s|
  {
    var k := |s|;
    if k == 0 then 0
    else if 9 <= s[k - 1] <= 13 || s[k - 1] == 32 then 1
    else if k >= 2 && s[k - 2] == 0xC2 && (s[k - 1] == 0x85 || s[k - 1] == 0xA0) then 2
    else if k >= 3 && IsWideSpace(s[k - 3], s[k - 2], s[k - 1]) then 3
    else 0
  }

  function TrimStart(s: text): (r: text)
    decreases |s|
  {
    if LeadingSpace(s) == 0 then s else TrimStart(s[LeadingSpace(s)..])
  }

  function TrimEnd(s: text): (r: text)
    decreases |s|
  {
    if TrailingSpace(s) == 0 then s else TrimEnd(s[..|s| - TrailingSpace(s)])
  }

  function Trim(s: text): (r: text) {
    TrimEnd(TrimStart(s))
  }

  /** Visible ASCII is never trimmed. */
  predicate Visible(b: u8) {
    33 <= b <= 126
  }

  lemma TrimNothing(s: text)
    requires s == [] || (Visible(s[0]) && Visible(s[|s| - 1]))
    ensures TrimStart(s) == s && Trim(s) == s
  {
  }

  // ---- Hexadecimal ----

  function HexVal(b: u8): (v: Option<u8>)
    ensures v.Some? ==> v.value < 16
  {
    if 48 <= b <= 57 then Some(b - 48)
    else if 97 <= b <= 102 then Some(b - 97 + 10)
    else if 65 <= b <= 70 then Some(b - 65 + 10)
    else None
  }

  function HexDigit(v: u8): (b: u8)
    requires v < 16
    ensures HexVal(b) == Some(v)
  {
    if v < 10 then 48 + v else 97 + (v - 10)
  }

  function HexEncode(bs: seq<u8>): (s: text)
    ensures |s| == 2 * |bs|
    ensures forall i | 0 <= i < |s| :: Visible(s[i])
  {
    if bs == [] then [] else [HexDigit(bs[0] / 16), HexDigit(bs[0] % 16)] + HexEncode(bs[1..])
  }

  function HexDecode(s: text): (r: Option<seq<u8>>)
  {
    if s == [] then Some([])
    else if |s| == 1 then None
    else
      var h, l := HexVal(s[0]), HexVal(s[1]);
      if h.None? || l.None? then None
      else
        var rest := HexDecode(s[2..]);
        if rest.None? then None else Some([16 * h.value + l.value] + rest.value)
  }

  lemma {:induction false} HexRoundTrip(bs: seq<u8>)
    ensures HexDecode(HexEncode(bs)) == Some(bs)
  {
    if bs != [] {
      HexRoundTrip(bs[1..]);
      assert HexEncode(bs)[2..] == HexEncode(bs[1..]);
      assert bs == [bs[0]] + bs[1..];
    }
  }

  // ---- Decimal ----

  predicate Digits(s: text) {
    forall i | 0 <= i < |s| :: 48 <= s[i] <= 57
  }

  function DigitsValue(s: text): (n: nat)
    requires Digits(s)
  {
    if s == [] then 0 else 10 * DigitsValue(s[..|s| - 1]) + (s[|s| - 1] - 48)
  }

  function Decimal(n: nat): (s: text)
    ensures s != [] && Digits(s)
  {
    if n < 10 then [48 + n] else Decimal(n / 10) + [48 + n % 10]
  }

  /** An unsigned number below the limit: digits, optionally after a plus sign. */
  function ParseUnsigned(s: text, limit: nat): (r: Option<nat>)
    ensures r.Some? ==> r.value < limit
  {
    var digits := if |s| > 1 && s[0] == 43 then s[1..] else s;
    if digits == [] || !Digits(digits) || DigitsValue(digits) >= limit then None
    else Some(DigitsValue(digits))
  }

  lemma {:induction false} DecimalValue(n: nat)
    ensures DigitsValue(Decimal(n)) == n
  {
    if n >= 10 {
      DecimalValue(n / 10);
      assert Decimal(n)[..|Decimal(n)| - 1] == Decimal(n / 10);
    }
  }

  lemma DecimalRoundTrip(n: nat, limit: nat)
    requires n < limit
    ensures ParseUnsigned(Decimal(n), limit) == Some(n)
  {
    DecimalValue(n);
  }
}

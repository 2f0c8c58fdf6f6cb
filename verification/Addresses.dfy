/** Server addresses: printed with percent escapes, parsed back from semicolon-separated lists. */
module Addresses {
  import opened Wrappers
  import opened Bytes
  import opened Text

  datatype Address =
    | UnixPath(path: text)
    | UnixAbstract(name: text)
    | UnixTmpdir(dir: text)
    | Tcp(host: text, port: u16)
    | Systemd

  datatype AddressError = InvalidAddress

  const UNIX: text := [117, 110, 105, 120]
  const TCP: text := [116, 99, 112]
  const SYSTEMD: text := [115, 121, 115, 116, 101, 109, 100, 58] // systemd:
  const PATH: text := [112, 97, 116, 104]
  const ABSTRACT: text := [97, 98, 115, 116, 114, 97, 99, 116]
  const TMPDIR: text := [116, 109, 112, 100, 105, 114]
  const HOST: text := [104, 111, 115, 116]
  const PORT: text := [112, 111, 114, 116]
  const LOCALHOST: text := [108, 111, 99, 97, 108, 104, 111, 115, 116]

  const COMMA: u8 := 44
  const COLON: u8 := 58
  const SEMICOLON: u8 := 59
  const EQUALS: u8 := 61
  const PERCENT: u8 := 37

  /** Letters, digits and - _ / . \ stand for themselves. */
  predicate IsSafe(b: u8) {
    || 48 <= b <= 57 || 65 <= b <= 90 || 97 <= b <= 122
    || b == 45 || b == 95 || b == 47 || b == 46 || b == 92
  }

  function EscapeByte(b: u8): (s: text) {
    if IsSafe(b) then [b] else [PERCENT, HexDigit(b / 16), HexDigit(b % 16)]
  }

  function Escape(s: text): (r: text) {
    if s == [] then [] else EscapeByte(s[0]) + Escape(s[1..])
  }

  function HexByte(high: u8, low: u8): (b: u8)
    requires high < 16 && low < 16
  {
    high * 16 + low
  }

  /** A percent sign followed by two hexadecimal digits is one byte; anything else is itself. */
  function Unescape(s: text): (r: text)
    decreases |s|
  {
    if s == [] then []
    else if s[0] == PERCENT && 2 < |s| && HexVal(s[1]).Some? && HexVal(s[2]).Some? then
      [HexByte(HexVal(s[1]).value, HexVal(s[2]).value)] + Unescape(s[3..])
    else [s[0]] + Unescape(s[1..])
  }

  method EscapeText(s: text) returns (out: text)
    ensures out == Escape(s) && Unescape(out) == s
  {
    hide EscapeByte, Unescape;
    out := [];
    for i := 0 to |s|
      invariant out + Escape(s[i..]) == Escape(s)
    {
      assert s[i..][0] == s[i] && s[i..][1..] == s[i + 1..];
      out := out + EscapeByte(s[i]);
    }
    assert out + [] == out;
    UnescapeEscape(s);
  }

  method UnescapeText(s: text) returns (out: text)
    ensures out == Unescape(s)
  {
    hide HexVal, HexByte, Unescape;
    out := [];
    var i := 0;
    while i < |s|
      invariant i <= |s|
      invariant out + Unescape(s[i..]) == Unescape(s)
    {
      UnescapeAt(s, i);
      if s[i] == PERCENT && i + 2 < |s| && HexVal(s[i + 1]).Some? && HexVal(s[i + 2]).Some? {
        out := out + [HexByte(HexVal(s[i + 1]).value, HexVal(s[i + 2]).value)];
        i := i + 3;
      } else {
        out := out + [s[i]];
        i := i + 1;
      }
    }
    UnescapeAt(s, i);
    assert out + [] == out;
  }

  /** One step of the reader, at any position. */
  lemma UnescapeAt(s: text, i: nat)
    requires i <= |s|
    ensures Unescape(s[i..]) ==
            if i == |s| then []
            else if s[i] == PERCENT && i + 2 < |s| && HexVal(s[i + 1]).Some? && HexVal(s[i + 2]).Some? then
              [HexByte(HexVal(s[i + 1]).value, HexVal(s[i + 2]).value)] + Unescape(s[i + 3..])
            else [s[i]] + Unescape(s[i + 1..])
  {
    hide HexVal, HexByte;
    var rest := s[i..];
    if i < |s| {
      assert rest[0] == s[i] && rest[1..] == s[i + 1..];
      if i + 2 < |s| {
        assert rest[1] == s[i + 1] && rest[2] == s[i + 2] && rest[3..] == s[i + 3..];
      }
    }
  }

  /** Unescaping inverts escaping byte for byte, for arbitrary bytes. */
  lemma {:induction false} UnescapeEscape(s: text)
    ensures Unescape(Escape(s)) == s
  {
    if s != [] {
      UnescapeEscape(s[1..]);
      var e := Escape(s);
      var tail := Escape(s[1..]);
      assert s == [s[0]] + s[1..];
      if IsSafe(s[0]) {
        assert e[0] == s[0] && e[1..] == tail;
      } else {
        assert e[0] == PERCENT && e[1] == HexDigit(s[0] / 16) && e[2] == HexDigit(s[0] % 16) && e[3..] == tail;
      }
    }
  }

  /** Escaped text contains no separator. */
  lemma {:induction false} EscapeIsInert(s: text)
    ensures COMMA !in Escape(s) && SEMICOLON !in Escape(s)
  {
    if s != [] {
      EscapeIsInert(s[1..]);
    }
  }

  /** Key-value pairs separated by commas; empty pieces are skipped, later keys win. */
  function ParsePairs(pieces: seq<text>, known: map<text, text>): (r: Result<map<text, text>, AddressError>)
    decreases |pieces|
  {
    if pieces == [] then Ok(known)
    else if pieces[0] == [] then ParsePairs(pieces[1..], known)
    else
      match SplitOnce(pieces[0], EQUALS)
      case None => Err(InvalidAddress)
      case Some((k, v)) => ParsePairs(pieces[1..], known[k := v])
  }

  function ParseKv(rest: text): (r: Result<map<text, text>, AddressError>) {
    ParsePairs(Split(rest, COMMA), map[])
  }

  method ParseKvText(rest: text) returns (r: Result<map<text, text>, AddressError>)
    ensures r == ParseKv(rest)
  {
    var pieces := Split(rest, COMMA);
    var known: map<text, text> := map[];
    for i := 0 to |pieces|
      invariant ParsePairs(pieces[i..], known) == ParseKv(rest)
    {
      assert pieces[i..][0] == pieces[i] && pieces[i..][1..] == pieces[i + 1..];
      if pieces[i] != [] {
        var split := SplitOnce(pieces[i], EQUALS);
        if split.None? {
          return Err(InvalidAddress);
        }
        known := known[split.value.0 := split.value.1];
      }
    }
    return Ok(known);
  }

  /** Replaces malformed UTF-8; what it does to malformed text does not matter here. */
  type Lossy = text -> text

  ghost predicate KeepsUtf8(lossy: Lossy) {
    forall s :: ValidUtf8(s) ==> lossy(s) == s
  }

  function ParseOne(lossy: Lossy, s: text): (r: Result<Address, AddressError>) {
    if s == SYSTEMD then Ok(Systemd)
    else match SplitOnce(s, COLON)
    case None => Err(InvalidAddress)
    case Some((transport, rest)) =>
      var kv :- ParseKv(rest);
      if transport == UNIX then
        if PATH in kv then Ok(UnixPath(lossy(Unescape(kv[PATH]))))
        else if ABSTRACT in kv then Ok(UnixAbstract(lossy(Unescape(kv[ABSTRACT]))))
        else if TMPDIR in kv then Ok(UnixTmpdir(lossy(Unescape(kv[TMPDIR]))))
        else Err(InvalidAddress)
      else if transport == TCP then
        if PORT !in kv then Err(InvalidAddress)
        else
          var port := ParseUnsigned(kv[PORT], 0x1_0000);
          if port.None? then Err(InvalidAddress)
          else Ok(Tcp(if HOST in kv then kv[HOST] else LOCALHOST, port.value))
      else Err(InvalidAddress)
  }

  function ParseEach(lossy: Lossy, pieces: seq<text>): (r: Result<seq<Address>, AddressError>)
    decreases |pieces|
  {
    if pieces == [] then Ok([])
    else if pieces[0] == [] then ParseEach(lossy, pieces[1..])
    else
      var first :- ParseOne(lossy, pieces[0]);
      var rest :- ParseEach(lossy, pieces[1..]);
      Ok([first] + rest)
  }

  function ParseList(lossy: Lossy, s: text): (r: Result<seq<Address>, AddressError>) {
    ParseEach(lossy, Split(s, SEMICOLON))
  }

  function Pair(key: text, value: text): (s: text) {
    key + [EQUALS] + value
  }

  function ToAddressString(a: Address): (s: text) {
    match a
    case UnixPath(p) => UNIX + [COLON] + Pair(PATH, Escape(p))
    case UnixAbstract(n) => UNIX + [COLON] + Pair(ABSTRACT, Escape(n))
    case UnixTmpdir(d) => UNIX + [COLON] + Pair(TMPDIR, Escape(d))
    case Tcp(host, port) => TCP + [COLON] + (Pair(HOST, host) + [COMMA] + Pair(PORT, Decimal(port)))
    case Systemd => SYSTEMD
  }

  /** Addresses joined by semicolons. */
  function Join(list: seq<Address>): (s: text) {
    if list == [] then []
    else if |list| == 1 then ToAddressString(list[0])
    else ToAddressString(list[0]) + [SEMICOLON] + Join(list[1..])
  }

  /** The text of an address is UTF-8, as every string of the source is. */
  predicate HoldsUtf8(a: Address) {
    match a
    case UnixPath(p) => ValidUtf8(p)
    case UnixAbstract(n) => ValidUtf8(n)
    case UnixTmpdir(d) => ValidUtf8(d)
    case _ => true
  }

  /** The host of a TCP address is printed as it is, so it must hold no separator. */
  predicate Survives(a: Address) {
    a.Tcp? ==> COMMA !in a.host && SEMICOLON !in a.host
  }

  // ---- Round trip ----

  lemma ParseLast(pair: text, known: map<text, text>)
    requires pair != []
    ensures ParsePairs([pair], known) ==
            (match SplitOnce(pair, EQUALS) case None => Err(InvalidAddress) case Some((k, v)) => Ok(known[k := v]))
  {
    hide SplitOnce;
    var pieces := [pair];
    assert pieces[1..] == [];
  }

  lemma ParsePair(key: text, value: text)
    requires EQUALS !in key && COMMA !in key && COMMA !in value
    ensures ParseKv(Pair(key, value)) == Ok(map[key := value])
  {
    SplitNone(Pair(key, value), COMMA);
    SplitOnceFirst(key, EQUALS, value);
    ParseLast(Pair(key, value), map[]);
  }

  lemma ParseUnix(lossy: Lossy, key: text, value: text)
    requires KeepsUtf8(lossy) && ValidUtf8(value) && EQUALS !in key && COMMA !in key
    ensures var s := UNIX + [COLON] + Pair(key, Escape(value));
            && s != SYSTEMD && SplitOnce(s, COLON) == Some((UNIX, Pair(key, Escape(value))))
            && ParseKv(Pair(key, Escape(value))) == Ok(map[key := Escape(value)])
            && lossy(Unescape(Escape(value))) == value
  {
    hide ParseKv, Escape, Unescape, ValidUtf8, SplitOnce;
    var s := UNIX + [COLON] + Pair(key, Escape(value));
    assert s[0] == 117 && SYSTEMD[0] == 115;
    SplitOnceFirst(UNIX, COLON, Pair(key, Escape(value)));
    EscapeIsInert(value);
    ParsePair(key, Escape(value));
    UnescapeEscape(value);
  }

  lemma AddressRoundTrip(lossy: Lossy, a: Address)
    requires KeepsUtf8(lossy) && HoldsUtf8(a) && Survives(a)
    ensures ParseOne(lossy, ToAddressString(a)) == Ok(a)
    ensures ToAddressString(a) != [] && SEMICOLON !in ToAddressString(a)
  {
    hide ParseKv, Escape, Unescape, ValidUtf8, SplitOnce, KeepsUtf8;
    assert PATH != ABSTRACT && PATH != TMPDIR && ABSTRACT != TMPDIR by {
      assert PATH[0] == 112 && ABSTRACT[0] == 97 && TMPDIR[0] == 116;
    }
    match a
    case UnixPath(p) => ParseUnix(lossy, PATH, p); EscapeIsInert(p);
    case UnixAbstract(n) => ParseUnix(lossy, ABSTRACT, n); EscapeIsInert(n);
    case UnixTmpdir(d) => ParseUnix(lossy, TMPDIR, d); EscapeIsInert(d);
    case Tcp(host, port) =>
      TcpRoundTripExactly(lossy, host, port);
      NoSemicolon(host, Decimal(port));
    case Systemd =>
  }

  lemma NoSemicolon(host: text, digits: text)
    requires SEMICOLON !in host && Digits(digits)
    ensures SEMICOLON !in TCP + [COLON] + (Pair(HOST, host) + [COMMA] + Pair(PORT, digits))
  {
  }

  lemma {:induction false} SurvivorsRoundTrip(lossy: Lossy, list: seq<Address>)
    requires KeepsUtf8(lossy) && forall a | a in list :: HoldsUtf8(a) && Survives(a)
    ensures ParseList(lossy, Join(list)) == Ok(list)
    decreases |list|
  {
    hide ParseOne, ToAddressString, HoldsUtf8, Survives, KeepsUtf8;
    if list == [] {
      var pieces := Split(Join(list), SEMICOLON);
      assert pieces[0] == [] && pieces[1..] == [] && ParseEach(lossy, pieces[1..]) == Ok([]);
    } else {
      var first := ToAddressString(list[0]);
      AddressRoundTrip(lossy, list[0]);
      SplitNone(first, SEMICOLON);
      if |list| == 1 {
        var pieces := [first];
        assert pieces[1..] == [] && ParseEach(lossy, pieces[1..]) == Ok([]);
        assert list == [list[0]] + [];
      } else {
        SurvivorsRoundTrip(lossy, list[1..]);
        SplitConcat(first, SEMICOLON, Join(list[1..]));
        var pieces := [first] + Split(Join(list[1..]), SEMICOLON);
        assert pieces[1..] == Split(Join(list[1..]), SEMICOLON);
        assert list == [list[0]] + list[1..];
      }
    }
  }

  /** Pieces hold no separator, and nothing the text did not hold. */
  lemma {:induction false} PiecesAreInert(s: text, sep: u8, other: u8)
    ensures forall p | p in Split(s, sep) :: sep !in p && (other !in s ==> other !in p)
  {
    if s != [] {
      PiecesAreInert(s[1..], sep, other);
      var rest := Split(s[1..], sep);
      assert s == [s[0]] + s[1..];
      assert rest[0] in rest;
      assert forall p | p in rest[1..] :: p in rest;
    }
  }

  predicate InertValues(known: map<text, text>, sep: u8) {
    forall k | k in known :: sep !in known[k]
  }

  lemma {:induction false} PairsAreInert(pieces: seq<text>, known: map<text, text>, sep: u8)
    requires InertValues(known, sep) && forall p | p in pieces :: sep !in p
    ensures ParsePairs(pieces, known).Ok? ==> InertValues(ParsePairs(pieces, known).value, sep)
    decreases |pieces|
  {
    hide SplitOnce;
    if pieces != [] {
      assert pieces[0] in pieces && forall p | p in pieces[1..] :: p in pieces;
      var split := SplitOnce(pieces[0], EQUALS);
      if pieces[0] == [] {
        PairsAreInert(pieces[1..], known, sep);
      } else if split.Some? {
        SplitOnceParts(pieces[0], EQUALS);
        assert sep !in split.value.1;
        PairsAreInert(pieces[1..], known[split.value.0 := split.value.1], sep);
      }
    }
  }

  lemma SplitOnceInert(s: text, sep: u8, other: u8)
    requires SplitOnce(s, sep).Some? && other !in s
    ensures other !in SplitOnce(s, sep).value.1
  {
    SplitOnceParts(s, sep);
  }

  /** No host that was parsed holds a separator. */
  lemma ParsedSurvives(lossy: Lossy, s: text)
    requires SEMICOLON !in s
    ensures ParseOne(lossy, s).Ok? ==> Survives(ParseOne(lossy, s).value)
  {
    hide SplitOnce, Split, ParsePairs, Unescape, ParseUnsigned;
    var split := SplitOnce(s, COLON);
    if split.Some? {
      var rest := split.value.1;
      SplitOnceInert(s, COLON, SEMICOLON);
      PiecesAreInert(rest, COMMA, SEMICOLON);
      PairsAreInert(Split(rest, COMMA), map[], COMMA);
      PairsAreInert(Split(rest, COMMA), map[], SEMICOLON);
      assert COMMA !in LOCALHOST && SEMICOLON !in LOCALHOST;
    }
  }

  lemma {:induction false} AllParsedSurvive(lossy: Lossy, pieces: seq<text>)
    requires forall p | p in pieces :: SEMICOLON !in p
    ensures ParseEach(lossy, pieces).Ok? ==> forall a | a in ParseEach(lossy, pieces).value :: Survives(a)
    decreases |pieces|
  {
    hide ParseOne, Survives;
    if pieces != [] {
      assert pieces[0] in pieces && forall p | p in pieces[1..] :: p in pieces;
      ParsedSurvives(lossy, pieces[0]);
      AllParsedSurvive(lossy, pieces[1..]);
    }
  }

  /** Joining a list of addresses and parsing it gives the same list, whatever bytes the paths hold, if and only
      if no TCP host in it holds a separator. */
  lemma AddressListRoundTrip(lossy: Lossy, list: seq<Address>)
    requires KeepsUtf8(lossy) && forall a | a in list :: HoldsUtf8(a)
    ensures ParseList(lossy, Join(list)) == Ok(list) <==> forall a | a in list :: Survives(a)
  {
    hide ParseEach, Join, Survives, HoldsUtf8, KeepsUtf8, Split;
    PiecesAreInert(Join(list), SEMICOLON, SEMICOLON);
    AllParsedSurvive(lossy, Split(Join(list), SEMICOLON));
    if forall a | a in list :: Survives(a) {
      SurvivorsRoundTrip(lossy, list);
    }
  }

  // ---- TCP addresses are not escaped ----

  /** Every value found for a key comes from a piece that long. */
  lemma {:induction false} PairsAreShort(pieces: seq<text>, known: map<text, text>, key: text, limit: nat)
    requires forall p | p in pieces :: |p| < |key| + 1 + limit
    requires key in known ==> |known[key]| < limit
    ensures var r := ParsePairs(pieces, known); r.Ok? && key in r.value ==> |r.value[key]| < limit
    decreases |pieces|
  {
    if pieces != [] {
      assert pieces[0] in pieces;
      assert forall p | p in pieces[1..] :: p in pieces;
      var split := SplitOnce(pieces[0], EQUALS);
      if pieces[0] == [] {
        PairsAreShort(pieces[1..], known, key, limit);
      } else if split.Some? {
        SplitOnceParts(pieces[0], EQUALS);
        PairsAreShort(pieces[1..], known[split.value.0 := split.value.1], key, limit);
      }
    }
  }

  lemma {:induction false} PiecesAreShort(s: text, sep: u8)
    ensures forall p | p in Split(s, sep) :: |p| <= |s| && (sep in s ==> |p| < |s|)
  {
    if s != [] {
      PiecesAreShort(s[1..], sep);
      var rest := Split(s[1..], sep);
      assert s == [s[0]] + s[1..];
      assert rest[0] in rest;
      assert forall p | p in rest[1..] :: p in rest;
      if s[0] != sep && sep !in s[1..] {
        SplitNone(s, sep);
      }
    }
  }

  lemma TcpSplits(host: text, port: u16)
    ensures var s := ToAddressString(Tcp(host, port));
            s != SYSTEMD && SplitOnce(s, COLON) == Some((TCP, Pair(HOST, host) + [COMMA] + Pair(PORT, Decimal(port))))
    ensures Split(Pair(HOST, host) + [COMMA] + Pair(PORT, Decimal(port)), COMMA) ==
            Split(Pair(HOST, host), COMMA) + [Pair(PORT, Decimal(port))]
  {
    hide SplitOnce, Decimal, Split;
    var rest := Pair(HOST, host) + [COMMA] + Pair(PORT, Decimal(port));
    var s := TCP + [COLON] + rest;
    assert s[0] == 116 && SYSTEMD[0] == 115;
    SplitOnceFirst(TCP, COLON, rest);
    SplitConcat(Pair(HOST, host), COMMA, Pair(PORT, Decimal(port)));
    SplitNone(Pair(PORT, Decimal(port)), COMMA);
  }

  /** What the printed pairs of a TCP address are read as, whatever the host holds. */
  lemma TcpPairs(host: text, port: u16)
    ensures var r := ParseKv(Pair(HOST, host) + [COMMA] + Pair(PORT, Decimal(port)));
            && (r.Ok? ==> PORT in r.value && r.value[PORT] == Decimal(port))
            && (r.Ok? && COMMA in host && HOST in r.value ==> |r.value[HOST]| < |host|)
            && (COMMA !in host ==> r.Ok? && HOST in r.value && r.value[HOST] == host)
  {
    hide SplitOnce, Split, Decimal, ParsePairs;
    TcpSplits(host, port);
    assert PORT != HOST by { assert PORT[0] == 112 && HOST[0] == 104; }
    var hostPair, portPair := Pair(HOST, host), Pair(PORT, Decimal(port));
    PairsAppend(Split(hostPair, COMMA), portPair, map[]);
    SplitOnceFirst(PORT, EQUALS, Decimal(port));
    if COMMA in host {
      PiecesAreShort(hostPair, COMMA);
      assert COMMA in hostPair;
      PairsAreShort(Split(hostPair, COMMA), map[], HOST, |host|);
    } else {
      SplitNone(hostPair, COMMA);
      ParsePair(HOST, host);
    }
  }

  /** A TCP address survives exactly when its host contains no comma. */
  lemma TcpRoundTripExactly(lossy: Lossy, host: text, port: u16)
    ensures ParseOne(lossy, ToAddressString(Tcp(host, port))) == Ok(Tcp(host, port)) <==> COMMA !in host
  {
    hide SplitOnce, ParseKv, Decimal, ParseUnsigned;
    TcpSplits(host, port);
    TcpPairs(host, port);
    DecimalRoundTrip(port, 0x1_0000);
    // a host with a comma is read back shorter, or as the default, which has none
    assert COMMA !in LOCALHOST;
    assert TCP != UNIX by { assert TCP[0] == 116 && UNIX[0] == 117; }
  }

  lemma {:induction false} PairsAppend(pieces: seq<text>, last: text, known: map<text, text>)
    requires last != []
    ensures ParsePairs(pieces + [last], known) ==
            (var before := ParsePairs(pieces, known);
             if before.Err? then before
             else var split := SplitOnce(last, EQUALS);
                  if split.None? then Err(InvalidAddress) else Ok(before.value[split.value.0 := split.value.1]))
    decreases |pieces|
  {
    hide SplitOnce;
    if pieces == [] {
      assert pieces + [last] == [last] && [last][1..] == [];
    } else {
      assert (pieces + [last])[0] == pieces[0] && (pieces + [last])[1..] == pieces[1..] + [last];
      if pieces[0] == [] {
        PairsAppend(pieces[1..], last, known);
      } else if SplitOnce(pieces[0], EQUALS).Some? {
        var (k, v) := SplitOnce(pieces[0], EQUALS).value;
        PairsAppend(pieces[1..], last, known[k := v]);
      }
    }
  }
}

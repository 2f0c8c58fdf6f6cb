/** Server addresses as text: the alphabet that is not escaped, every key, and what each piece of a list adds. */
module AddressForm {
  import opened Wrappers
  import opened Bytes
  import opened Text
  import opened TextForm
  import opened Addresses

  // ---- Escapes ----

  /** What stands for itself: letters, digits and five marks. */
  predicate IsPlain(b: u8) {
    || b in Txt("ABCDEFGHIJKLMNOPQRSTUVWXYZ")
    || b in Txt("abcdefghijklmnopqrstuvwxyz")
    || b in Txt("0123456789")
    || b in Txt("-_/.\\")
  }

  lemma PlainExactly(b: u8)
    ensures IsSafe(b) <==> IsPlain(b)
  {
    hide Txt;
    LettersListed(b);
    Listed("0123456789", 48, b);
    MarksListed(b);
  }

  lemma MarksListed(b: u8)
    ensures b in Txt("-_/.\\") <==> b == 45 || b == 95 || b == 47 || b == 46 || b == 92
  {
    assert Txt("-_/.\\") == [45, 95, 47, 46, 92];
  }

  /** A plain byte stands for itself, any other one is a percent sign and two digits of lower case. */
  lemma EscapeExactly(b: u8, rest: text)
    ensures Escape([b] + rest) ==
            (if IsPlain(b) then [b]
             else Txt("%") + [Txt("0123456789abcdef")[b / 16], Txt("0123456789abcdef")[b % 16]]) + Escape(rest)
    ensures Escape([]) == []
  {
    hide Txt, IsPlain, IsSafe, HexDigit;
    PlainExactly(b);
    HexDigitsExactly(0, b / 16);
    HexDigitsExactly(0, b % 16);
    assert ([b] + rest)[1..] == rest;
    assert Txt("%") == [PERCENT] by { Signs(); }
  }

  lemma Signs()
    ensures Txt("%") == [PERCENT] && Txt(",") == [COMMA] && Txt(":") == [COLON] && Txt(";") == [SEMICOLON]
    ensures Txt("=") == [EQUALS]
  {
  }

  ghost predicate IsAnyDigit(b: u8) {
    exists v: nat :: IsHexDigit(b, v)
  }

  lemma AnyDigitExactly(b: u8)
    ensures HexVal(b).Some? <==> IsAnyDigit(b)
  {
    hide HexVal, IsHexDigit;
    if HexVal(b).Some? {
      HexDigitsExactly(b, HexVal(b).value);
    } else if v: nat :| IsHexDigit(b, v) {
      assert v < 16 by { SmallDigit(b, v); }
      HexDigitsExactly(b, v);
    }
  }

  lemma SmallDigit(b: u8, v: nat)
    requires IsHexDigit(b, v)
    ensures v < 16
  {
  }

  /** An escape is a percent sign in front of two digits of either case. */
  lemma EscapeRead(high: u8, h: nat, low: u8, l: nat, rest: text)
    requires IsHexDigit(high, h) && IsHexDigit(low, l)
    ensures h < 16 && l < 16 && Unescape(Txt("%") + [high, low] + rest) == [16 * h + l] + Unescape(rest)
  {
    hide HexVal, IsHexDigit, Txt;
    SmallDigit(high, h);
    SmallDigit(low, l);
    HexDigitsExactly(high, h);
    HexDigitsExactly(low, l);
    Signs();
    var s := Txt("%") + [high, low] + rest;
    assert s[0] == PERCENT && s[1] == high && s[2] == low && s[3..] == rest;
  }

  /** Any other byte is itself, and so is a percent sign that is not in front of two digits. */
  lemma PlainRead(b: u8, rest: text)
    requires b != '%' as int || |rest| < 2 || !IsAnyDigit(rest[0]) || !IsAnyDigit(rest[1])
    ensures Unescape([b] + rest) == [b] + Unescape(rest)
  {
    hide HexVal, IsAnyDigit;
    var s := [b] + rest;
    assert s[1..] == rest;
    if |rest| >= 2 {
      AnyDigitExactly(rest[0]);
      AnyDigitExactly(rest[1]);
    }
  }

  // ---- Addresses ----

  lemma UnixWords()
    ensures UNIX == Txt("unix") && PATH == Txt("path") && ABSTRACT == Txt("abstract") && TMPDIR == Txt("tmpdir")
  {
  }

  lemma TcpWords()
    ensures TCP == Txt("tcp") && HOST == Txt("host") && PORT == Txt("port")
  {
  }

  lemma OtherWords()
    ensures SYSTEMD == Txt("systemd:") && LOCALHOST == Txt("localhost")
  {
  }

  /** What an address is printed as. */
  lemma AddressTexts(a: Address)
    ensures ToAddressString(a) ==
            match a
            case UnixPath(p) => Txt("unix") + Txt(":") + (Txt("path") + Txt("=") + Escape(p))
            case UnixAbstract(n) => Txt("unix") + Txt(":") + (Txt("abstract") + Txt("=") + Escape(n))
            case UnixTmpdir(d) => Txt("unix") + Txt(":") + (Txt("tmpdir") + Txt("=") + Escape(d))
            case Tcp(host, port) =>
              Txt("tcp") + Txt(":") +
              ((Txt("host") + Txt("=") + host) + Txt(",") + (Txt("port") + Txt("=") + Decimal(port)))
            case Systemd => Txt("systemd:")
  {
    hide Txt, Escape, Decimal;
    UnixWords();
    TcpWords();
    OtherWords();
    Signs();
  }

  /** What the pairs of a unix address say: a path before an abstract name before a directory. */
  function UnixOf(lossy: Lossy, kv: map<text, text>): (r: Result<Address, AddressError>) {
    if Txt("path") in kv then Ok(UnixPath(lossy(Unescape(kv[Txt("path")]))))
    else if Txt("abstract") in kv then Ok(UnixAbstract(lossy(Unescape(kv[Txt("abstract")]))))
    else if Txt("tmpdir") in kv then Ok(UnixTmpdir(lossy(Unescape(kv[Txt("tmpdir")]))))
    else Err(InvalidAddress)
  }

  /** What those of a TCP address say: a port of 16 bits, which must be there, and a host, the local one if none is
      named; neither is unescaped. */
  function TcpOf(kv: map<text, text>): (r: Result<Address, AddressError>) {
    if Txt("port") !in kv || ParseUnsigned(kv[Txt("port")], 0x1_0000).None? then Err(InvalidAddress)
    else
      Ok(Tcp(if Txt("host") in kv then kv[Txt("host")] else Txt("localhost"),
             ParseUnsigned(kv[Txt("port")], 0x1_0000).value))
  }

  /** Reading one address, by its transport. */
  lemma AddressExactly(lossy: Lossy, transport: text, rest: text)
    requires COLON !in transport
    ensures ParseOne(lossy, Txt("systemd:")) == Ok(Systemd)
    ensures ParseOne(lossy, transport) == Err(InvalidAddress)
    ensures var s := transport + Txt(":") + rest;
            var kv := ParseKv(rest);
            s != Txt("systemd:") ==>
              ParseOne(lossy, s) == if kv.Err? then Err(InvalidAddress)
                                    else if transport == Txt("unix") then UnixOf(lossy, kv.value)
                                    else if transport == Txt("tcp") then TcpOf(kv.value)
                                    else Err(InvalidAddress)
  {
    hide Txt, SplitOnce, ParseKv, Unescape, ParseUnsigned;
    UnixWords();
    TcpWords();
    OtherWords();
    Signs();
    SplitOnceFirst(transport, COLON, rest);
    SplitOnceNone(transport, COLON);
    assert COLON in SYSTEMD by { assert SYSTEMD[7] == COLON; }
    assert UNIX != TCP by { assert UNIX[0] != TCP[0]; }
    var kv := ParseKv(rest);
    assert kv.Err? ==> kv.error.InvalidAddress?;
  }

  // ---- Pairs and lists, piece by piece ----

  /** What one more piece adds to the pairs before it: nothing if it is empty, an error without an equals sign, and
      otherwise its key, whatever value that had. */
  lemma PairsGrow(front: text, piece: text)
    requires COMMA !in piece
    ensures ParseKv([]) == Ok(map[])
    ensures var before := ParseKv(front);
            var after := ParseKv(front + Txt(",") + piece);
            if before.Err? || piece == [] then after == before
            else
              && (EQUALS !in piece ==> after == Err(InvalidAddress))
              && forall key: text, value: text | EQUALS !in key && piece == key + Txt("=") + value ::
                   after == Ok(before.value[key := value])
  {
    hide Txt, SplitOnce, Split, ParsePairs;
    Signs();
    NoPairs();
    SplitConcat(front, COMMA, piece);
    SplitNone(piece, COMMA);
    if piece == [] {
      PairsSkip(Split(front, COMMA), map[]);
    } else {
      PairsAppend(Split(front, COMMA), piece, map[]);
      SplitOnceNone(piece, EQUALS);
      forall key: text, value: text | EQUALS !in key && piece == key + [EQUALS] + value
        ensures SplitOnce(piece, EQUALS) == Some((key, value))
      {
        SplitOnceFirst(key, EQUALS, value);
      }
    }
  }

  lemma NoPairs()
    ensures ParseKv([]) == Ok(map[])
  {
    var pieces := Split([], COMMA);
    assert pieces[0] == [] && ParsePairs(pieces[1..], map[]) == Ok(map[]);
  }

  lemma {:induction false} PairsSkip(pieces: seq<text>, known: map<text, text>)
    ensures ParsePairs(pieces + [[]], known) == ParsePairs(pieces, known)
    decreases |pieces|
  {
    hide SplitOnce;
    if pieces == [] {
      var last: seq<text> := [[]];
      assert pieces + last == last && last[1..] == [];
    } else {
      assert (pieces + [[]])[0] == pieces[0] && (pieces + [[]])[1..] == pieces[1..] + [[]];
      if pieces[0] == [] {
        PairsSkip(pieces[1..], known);
      } else if SplitOnce(pieces[0], EQUALS).Some? {
        var (k, v) := SplitOnce(pieces[0], EQUALS).value;
        PairsSkip(pieces[1..], known[k := v]);
      }
    }
  }

  /** What one more piece adds to a list of addresses: nothing if it is empty, and otherwise one address. */
  lemma ListGrows(lossy: Lossy, front: text, piece: text)
    requires SEMICOLON !in piece
    ensures ParseList(lossy, []) == Ok([])
    ensures var before := ParseList(lossy, front);
            var after := ParseList(lossy, front + Txt(";") + piece);
            if before.Err? || piece == [] then after == before
            else
              match ParseOne(lossy, piece)
              case Err(e) => after == Err(e)
              case Ok(a) => after == Ok(before.value + [a])
  {
    hide Txt, ParseOne, Split, ParseEach;
    Signs();
    NoAddresses(lossy);
    SplitConcat(front, SEMICOLON, piece);
    SplitNone(piece, SEMICOLON);
    EachAppend(lossy, Split(front, SEMICOLON), piece);
  }

  lemma NoAddresses(lossy: Lossy)
    ensures ParseList(lossy, []) == Ok([])
  {
    var pieces := Split([], SEMICOLON);
    assert pieces[0] == [] && ParseEach(lossy, pieces[1..]) == Ok([]);
  }

  lemma {:induction false} EachAppend(lossy: Lossy, pieces: seq<text>, last: text)
    ensures var before := ParseEach(lossy, pieces);
            ParseEach(lossy, pieces + [last]) ==
            if before.Err? || last == [] then before
            else match ParseOne(lossy, last) case Err(e) => Err(e) case Ok(a) => Ok(before.value + [a])
    decreases |pieces|
  {
    hide ParseOne;
    if pieces == [] {
      assert pieces + [last] == [last] && [last][1..] == [];
      if last != [] && ParseOne(lossy, last).Ok? {
        var a := ParseOne(lossy, last).value;
        assert [a] + [] == [] + [a];
      }
    } else {
      assert (pieces + [last])[0] == pieces[0] && (pieces + [last])[1..] == pieces[1..] + [last];
      EachAppend(lossy, pieces[1..], last);
      if pieces[0] != [] && ParseOne(lossy, pieces[0]).Ok? {
        var first := ParseOne(lossy, pieces[0]).value;
        var rest := ParseEach(lossy, pieces[1..]);
        if rest.Ok? && last != [] && ParseOne(lossy, last).Ok? {
          var a := ParseOne(lossy, last).value;
          assert [first] + (rest.value + [a]) == ([first] + rest.value) + [a];
        }
      }
    }
  }
}

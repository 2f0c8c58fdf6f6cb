/** Messages survive serialisation, reserialise to the same bytes, and are relayed unchanged. */
module MessageProofs {
  import opened Wrappers
  import opened Bytes
  import opened Types
  import opened SignatureSpec
  import opened WireSpec
  import opened WireProofs
  import opened WireReread
  import opened Header
  import opened HeaderProofs
  import opened Message
  import Unmarshal
  import WireLayout

  /** The fields of one kind, in order. */
  function Only(fields: seq<HeaderField>, code: u8): (r: seq<HeaderField>) {
    if fields == [] then []
    else if FieldCode(fields[0]) == code then [fields[0]] + Only(fields[1..], code)
    else Only(fields[1..], code)
  }

  // ---- Facts about field lists ----

  lemma {:induction false} WithoutConcat(a: seq<HeaderField>, b: seq<HeaderField>, codes: set<u8>)
    ensures Without(a + b, codes) == Without(a, codes) + Without(b, codes)
  {
    if a == [] {
      assert a + b == b;
    } else {
      assert (a + b)[0] == a[0] && (a + b)[1..] == a[1..] + b;
      WithoutConcat(a[1..], b, codes);
    }
  }

  lemma {:induction false} WithoutTwice(fields: seq<HeaderField>, few: set<u8>, many: set<u8>)
    requires few <= many
    ensures Without(Without(fields, few), many) == Without(fields, many)
  {
    if fields != [] {
      WithoutTwice(fields[1..], few, many);
      var rest := Without(fields[1..], few);
      if FieldCode(fields[0]) !in few {
        assert ([fields[0]] + rest)[1..] == rest;
      }
    }
  }

  lemma {:induction false} FindConcat(a: seq<HeaderField>, b: seq<HeaderField>, code: u8)
    ensures Find(a + b, code) == if Find(a, code).Some? then Find(a, code) else Find(b, code)
  {
    if a == [] {
      assert a + b == b;
    } else {
      assert (a + b)[0] == a[0] && (a + b)[1..] == a[1..] + b;
      FindConcat(a[1..], b, code);
    }
  }

  lemma {:induction false} FindWithout(fields: seq<HeaderField>, codes: set<u8>, code: u8)
    requires code in codes
    ensures Find(Without(fields, codes), code) == None
  {
    if fields != [] {
      FindWithout(fields[1..], codes, code);
      var rest := Without(fields[1..], codes);
      if FieldCode(fields[0]) !in codes {
        assert ([fields[0]] + rest)[1..] == rest;
      }
    }
  }

  lemma {:induction false} OnlyConcat(a: seq<HeaderField>, b: seq<HeaderField>, code: u8)
    ensures Only(a + b, code) == Only(a, code) + Only(b, code)
  {
    if a == [] {
      assert a + b == b;
    } else {
      assert (a + b)[0] == a[0] && (a + b)[1..] == a[1..] + b;
      OnlyConcat(a[1..], b, code);
    }
  }

  lemma {:induction false} OnlyWithout(fields: seq<HeaderField>, codes: set<u8>, code: u8)
    ensures Only(Without(fields, codes), code) == if code in codes then [] else Only(fields, code)
  {
    if fields != [] {
      OnlyWithout(fields[1..], codes, code);
      var rest := Without(fields[1..], codes);
      if FieldCode(fields[0]) !in codes {
        assert ([fields[0]] + rest)[1..] == rest;
      }
    }
  }

  /** What the receiver finds in the fields that were sent. */
  lemma SentFieldsFacts(m: Message)
    ensures Without(SentFields(m), COMPUTED) == Without(m.header.fields, COMPUTED)
    ensures SignatureOf(SentFields(m)) == BodySignature(m)
    ensures UnixFdsOf(SentFields(m)) == |m.fds| % 0x1_0000_0000
    ensures forall code :: code !in COMPUTED ==> Only(SentFields(m), code) == Only(m.header.fields, code)
  {
    hide Without, Find, Only, PrintAll, ValueTypes;
    var kept := Without(m.header.fields, COMPUTED);
    var sig := if BodySignature(m) == [] then [] else [HeaderField.Signature(BodySignature(m))];
    var count := if m.fds == [] then [] else [UnixFds(|m.fds| % 0x1_0000_0000)];
    SmallFields(sig);
    SmallFields(count);
    WithoutConcat(kept + sig, count, COMPUTED);
    WithoutConcat(kept, sig, COMPUTED);
    WithoutTwice(m.header.fields, COMPUTED, COMPUTED);
    assert Without(kept, COMPUTED) + [] + [] == Without(kept, COMPUTED);
    forall code: u8 | code in COMPUTED
      ensures Find(SentFields(m), code) == if Find(sig, code).Some? then Find(sig, code) else Find(count, code)
    {
      FindConcat(kept + sig, count, code);
      FindConcat(kept, sig, code);
      FindWithout(m.header.fields, COMPUTED, code);
    }
    forall code: u8 | code !in COMPUTED
      ensures Only(SentFields(m), code) == Only(m.header.fields, code)
    {
      OnlyConcat(kept + sig, count, code);
      OnlyConcat(kept, sig, code);
      OnlyWithout(m.header.fields, COMPUTED, code);
      assert Only(kept, code) + [] + [] == Only(kept, code);
    }
  }

  /** The computed fields stand behind the others: the signature of a body that is not empty, then the number of
      descriptors if there are any. */
  lemma SentFieldsOrder(m: Message)
    ensures SentFields(m) ==
            Without(m.header.fields, {8, 9})
            + (if m.body == [] then [] else [HeaderField.Signature(PrintAll(ValueTypes(m.body)))])
            + (if m.fds == [] then [] else [UnixFds(|m.fds| % 0x1_0000_0000)])
  {
    hide Without, PrintAll, ValueTypes;
    EmptySignature(m.body);
  }

  /** Lists of at most one SIGNATURE or UNIX_FDS field. */
  lemma SmallFields(fields: seq<HeaderField>)
    requires |fields| <= 1 && (fields != [] ==> FieldCode(fields[0]) in COMPUTED)
    ensures Without(fields, COMPUTED) == []
    ensures forall code :: Find(fields, code) ==
              if fields != [] && FieldCode(fields[0]) == code then Some(fields[0]) else None
    ensures forall code :: code !in COMPUTED ==> Only(fields, code) == []
  {
    if fields != [] {
      assert fields[1..] == [];
    }
  }

  // ---- Round trip ----

  /** What the sender must respect; the rest is checked while serialising. */
  predicate Sendable(m: Message) {
    && m.header.protocolVersion == PROTOCOL_VERSION
    && FieldsWellFormed(m.header.fields)
    && AllWellFormed(m.body)
    && |m.fds| < 0x1_0000_0000
    && var body := EncAll(m.body, 0, m.header.bigEndian);
       body.Ok? ==> |body.value| < 0x1_0000_0000
  }

  /** The message as the receiver sees it: the same, with the header that was sent. */
  function Received(m: Message): (r: Message)
    requires EncAll(m.body, 0, m.header.bigEndian).Ok?
  {
    m.(header := SentHeader(m, |EncAll(m.body, 0, m.header.bigEndian).value|))
  }

  lemma SentFieldsWellFormed(m: Message)
    requires FieldsWellFormed(m.header.fields)
    requires BodySignature(m) != [] ==> ParseSignature(BodySignature(m)).Ok?
    ensures FieldsWellFormed(SentFields(m))
  {
    hide PrintAll, ValueTypes, ParseSignature;
    var kept := Without(m.header.fields, COMPUTED);
    assert forall f | f in kept :: FieldWellFormed(f);
    forall f | f in SentFields(m)
      ensures FieldWellFormed(f)
    {
      if f !in kept {
        assert (f == HeaderField.Signature(BodySignature(m)) && BodySignature(m) != []) ||
               f == UnixFds(|m.fds| % 0x1_0000_0000);
      }
    }
  }

  lemma BodyReadBack(values: seq<Value>, prefix: seq<u8>, be: bool)
    requires AllWellFormed(values) && EncAll(values, 0, be).Ok?
    requires values != [] ==> ParseSignature(PrintAll(ValueTypes(values))).Ok?
    ensures var bytes := Wire(EncAll(values, 0, be).value);
            values != [] ==> Unmarshal.DecBody(bytes, PrintAll(ValueTypes(values)), be) == Ok(values)
  {
    hide EncAll, DecAll, Holds, ParseSignature, PrintAll, NoEmptyStructs, Wire, ValueTypes;
    if values != [] {
      var tys := ValueTypes(values);
      var cells := EncAll(values, 0, be).value;
      var bytes := Wire(cells);
      PrintedIsUnambiguous(tys);
      ParsedTypesAreReadable(PrintAll(tys));
      WireHolds([], cells, []);
      assert [] + bytes + [] == bytes;
      WriteThenReadAll(values, bytes, 0, be);
    }
  }

  lemma EmptySignature(values: seq<Value>)
    ensures PrintAll(ValueTypes(values)) == [] <==> values == []
  {
    if values != [] {
      PrintAllIsAscii(ValueTypes(values));
    }
  }

  lemma BackOf(a: seq<u8>, b: seq<u8>)
    ensures (a + b)[|a|..|a| + |b|] == b
  {
  }

  lemma HeaderInFrame(head: seq<Cell>, body: seq<u8>)
    ensures Holds(Wire(head) + body, 0, head)
  {
    WireHolds([], head, body);
    assert [] + Wire(head) + body == Wire(head) + body;
  }

  /** Parsing a serialised message gives the message back with its computed fields filled in; the
      frame length announced in its first 16 bytes is its length. */
  lemma MessageRoundTrip(m: Message)
    requires Sendable(m) && ToBytes(m).Ok?
    ensures EncAll(m.body, 0, m.header.bigEndian).Ok?
    ensures FromBytes(ToBytes(m).value, m.fds) == Ok(Received(m))
    ensures PeekFrameLen(ToBytes(m).value) == Ok(Some(|ToBytes(m).value|))
  {
    hide EncAll, EncHeader, Holds, Read, PeekFrameLen, Wire, ParseSignature, PrintAll, ValueTypes, SentFields,
         AllWellFormed, FieldsWellFormed, Unmarshal.DecBody, SignatureOf, UnixFdsOf, Validate;
    var be := m.header.bigEndian;
    var body := EncAll(m.body, 0, be).value;
    var h := SentHeader(m, |body|);
    var head := EncHeader(h, 0, be).value;
    var bytes := Wire(head) + Wire(body);
    HeaderInFrame(head, Wire(body));
    SentFieldsWellFormed(m);
    HeaderRoundTrip(h, bytes);
    SentFieldsFacts(m);
    EmptySignature(m.body);
    BodyReadBack(m.body, Wire(head), be);
    BackOf(Wire(head), Wire(body));
    assert ReadBody(bytes, h, |head|) == Ok(m.body);
  }

  lemma HeaderLength(h: MessageHeader, be: bool)
    requires EncHeader(h, 0, be).Ok?
    ensures |EncHeader(h, 0, be).value| % 8 == 0
  {
    hide EncPrefix, Enc, FieldArray;
  }

  /** The body, marshalled on its own from offset 0, is what marshalling it in place behind the header
      gives: the header ends on an 8-byte boundary. */
  lemma BodyIsInPlace(m: Message)
    requires ToBytes(m).Ok?
    ensures var be := m.header.bigEndian;
            var body := EncAll(m.body, 0, be);
            && body.Ok? && EncHeader(SentHeader(m, |body.value|), 0, be).Ok?
            && var n := |EncHeader(SentHeader(m, |body.value|), 0, be).value|;
            && n % 8 == 0 && n <= |ToBytes(m).value|
            && EncAll(m.body, n, be).Ok?
            && ToBytes(m).value[n..] == Wire(EncAll(m.body, n, be).value)
  {
    hide EncAll, EncHeader, ParseSignature, PrintAll, ValueTypes, SentFields, Validate, Wire;
    var be := m.header.bigEndian;
    var body := EncAll(m.body, 0, be).value;
    var h := SentHeader(m, |body|);
    HeaderLength(h, be);
    var n := |EncHeader(h, 0, be).value|;
    WireLayout.EncAllShift(m.body, 0, be, n / 8);
    assert 0 + 8 * (n / 8) == n;
  }

  /** Type, flags, serial, byte order, body, descriptors and every other field are kept, in order. */
  lemma ReceivedKeeps(m: Message)
    requires EncAll(m.body, 0, m.header.bigEndian).Ok?
    ensures var r := Received(m);
            && r.header.messageType == m.header.messageType && r.header.flags == m.header.flags
            && r.header.serial == m.header.serial && r.header.bigEndian == m.header.bigEndian
            && r.body == m.body && r.fds == m.fds
            && Without(r.header.fields, COMPUTED) == Without(m.header.fields, COMPUTED)
  {
    hide EncAll, SentFields, Without;
    SentFieldsFacts(m);
  }

  /** Serialising what was received gives the same bytes again. */
  lemma Stable(m: Message)
    requires Sendable(m) && ToBytes(m).Ok?
    ensures EncAll(m.body, 0, m.header.bigEndian).Ok?
    ensures ToBytes(Received(m)) == ToBytes(m)
  {
    hide EncAll, EncHeader, Wire, ParseSignature, PrintAll, ValueTypes, Validate, Without;
    SentFieldsFacts(m);
  }

  // ---- Relaying ----

  lemma ReceivedBodyFacts(buf: seq<u8>, fds: seq<Fd>)
    requires FromBytes(buf, fds).Ok?
    ensures var m := FromBytes(buf, fds).value;
            && AllWellFormed(m.body)
            && var body := EncAll(m.body, 0, m.header.bigEndian);
               body.Ok? ==> |body.value| < 0x1_0000_0000
  {
    hide EncAll, DecAll, Read, ParseSignature, AllWellFormed, AllNulFree, NoEmptyStructs, SignatureOf;
    var m := FromBytes(buf, fds).value;
    var be := m.header.bigEndian;
    var sig := SignatureOf(m.header.fields);
    if sig == [] {
      NothingToWrite(be);
    } else {
      var offset := Read(buf).value.1;
      var bodyBuf := buf[offset..offset + m.header.bodyLength];
      ParsedTypesAreReadable(sig);
      ReadThenWriteAll(bodyBuf, 0, be, ParseSignature(sig).value);
    }
  }

  lemma NothingToWrite(be: bool)
    ensures AllWellFormed([]) && EncAll([], 0, be) == Ok([])
  {
  }

  lemma SenderIsAssigned(m: Message, sender: text)
    ensures var fields := WithSender(m, sender).header.fields;
            && Only(fields, 7) == [Sender(sender)]
            && Without(fields, COMPUTED + {7}) == Without(m.header.fields, COMPUTED + {7})
  {
    var kept := Without(m.header.fields, {7});
    OnlyConcat(kept, [Sender(sender)], 7);
    OnlyWithout(m.header.fields, {7}, 7);
    WithoutConcat(kept, [Sender(sender)], COMPUTED + {7});
    WithoutTwice(m.header.fields, {7}, COMPUTED + {7});
  }

  /** The assigned sender is the last field. */
  lemma SenderIsLast(m: Message, sender: text)
    ensures var fields := WithSender(m, sender).header.fields;
            fields != [] && fields[|fields| - 1] == Sender(sender)
  {
  }

  /** The signature a received message declares is that of its body. */
  lemma ReceivedSignature(buf: seq<u8>, fds: seq<Fd>)
    requires FromBytes(buf, fds).Ok?
    ensures var m := FromBytes(buf, fds).value; BodySignature(m) == SignatureOf(m.header.fields)
  {
    hide EncAll, DecAll, Read, ParseSignature, AllWellFormed, AllRewrite, NoEmptyStructs, SignatureOf, PrintAll,
         ValueTypes;
    var m := FromBytes(buf, fds).value;
    var sig := SignatureOf(m.header.fields);
    if sig == [] {
      EmptySignature(m.body);
    } else {
      var offset := Read(buf).value.1;
      var bodyBuf := buf[offset..offset + m.header.bodyLength];
      ParsedTypesAreReadable(sig);
      ReadThenWriteAll(bodyBuf, 0, m.header.bigEndian, ParseSignature(sig).value);
      SignatureInverse(sig, ParseSignature(sig).value);
    }
  }

  /** A relayed message, decoded and encoded again with the sender the bus assigned, arrives with the same type,
      flags, serial, byte order, signature, body, descriptors and fields, and exactly one SENDER: the assigned
      one. UNIX_FDS says how many descriptors there are. */
  lemma Relay(buf: seq<u8>, fds: seq<Fd>, sender: text)
    requires FromBytes(buf, fds).Ok? && |fds| < 0x1_0000_0000
    requires ValidUtf8(sender) && |sender| < 0x1_0000_0000
    requires ToBytes(WithSender(FromBytes(buf, fds).value, sender)).Ok?
    ensures var received := FromBytes(buf, fds).value;
            var forwarded := FromBytes(ToBytes(WithSender(received, sender)).value, fds);
            && forwarded.Ok?
            && var delivered := forwarded.value;
            && delivered.header.messageType == received.header.messageType
            && delivered.header.flags == received.header.flags
            && delivered.header.serial == received.header.serial
            && delivered.header.bigEndian == received.header.bigEndian
            && SignatureOf(delivered.header.fields) == SignatureOf(received.header.fields)
            && UnixFdsOf(delivered.header.fields) == |fds|
            && delivered.body == received.body && delivered.fds == received.fds
            && Only(delivered.header.fields, 7) == [Sender(sender)]
            && Without(delivered.header.fields, COMPUTED + {7}) == Without(received.header.fields, COMPUTED + {7})
  {
    hide EncAll, Read, ReadBody, ToBytes, AllWellFormed, ValidUtf8, Without, Only, SentFields, SignatureOf, UnixFdsOf,
         PrintAll, ValueTypes;
    var received := FromBytes(buf, fds).value;
    var m := WithSender(received, sender);
    ReceivedBodyFacts(buf, fds);
    ReceivedSignature(buf, fds);
    ReadFieldsAreWellFormed(buf);
    assert FieldsWellFormed(m.header.fields) by {
      assert forall f | f in m.header.fields :: f in received.header.fields || f == Sender(sender);
    }
    MessageRoundTrip(m);
    SentFieldsFacts(m);
    SenderIsAssigned(received, sender);
    WithoutTwice(SentFields(m), COMPUTED, COMPUTED + {7});
    WithoutTwice(m.header.fields, COMPUTED, COMPUTED + {7});
  }
}

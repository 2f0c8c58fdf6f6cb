/** When serialising succeeds: exactly which messages can be sent, and which received ones relayed. */
module MessageSuccess {
  import opened Wrappers
  import opened Bytes
  import opened Types
  import opened SignatureSpec
  import opened WireSpec
  import opened WireReread
  import WireLayout
  import opened Header
  import opened HeaderProofs
  import opened HeaderForm
  import opened Message
  import opened MessageProofs

  // ---- How many bytes the header fields take ----

  /** A field on its own: its code, the signature of its value and the value. */
  function FieldSize(f: HeaderField): (n: nat) {
    match f
    case Path(p) => 9 + |p|
    case Interface(s) => 9 + |s|
    case Member(s) => 9 + |s|
    case ErrorName(s) => 9 + |s|
    case Destination(s) => 9 + |s|
    case Sender(s) => 9 + |s|
    case Signature(sig) => 6 + |sig|
    case ReplySerial(_) => 8
    case UnixFds(_) => 8
  }

  /** The field array without its length: every field but the last is padded to eight bytes. */
  function FieldsSize(fields: seq<HeaderField>): (n: nat) {
    if fields == [] then 0
    else if |fields| == 1 then FieldSize(fields[0])
    else FieldSize(fields[0]) + PadLen(FieldSize(fields[0]), 8) + FieldsSize(fields[1..])
  }

  predicate FieldsNulFree(fields: seq<HeaderField>) {
    forall f | f in fields :: NulFree(ToValue(f))
  }

  /** What the types of a field's content promise: paths are valid, signatures short. */
  predicate Typed(f: HeaderField) {
    match f
    case Path(p) => IsValidObjectPath(p)
    case Signature(sig) => |sig| <= MAX_SIGNATURE_LEN
    case _ => true
  }

  predicate AllTyped(fields: seq<HeaderField>) {
    forall f | f in fields :: Typed(f)
  }

  lemma WellFormedFieldsAreTyped(fields: seq<HeaderField>)
    requires FieldsWellFormed(fields)
    ensures AllTyped(fields)
  {
    hide IsValidObjectPath, ValidUtf8, ParseSignature;
    forall f | f in fields
      ensures Typed(f)
    {
      assert FieldWellFormed(f);
      if f.Signature? {
        SignatureFits(f.sig);
      }
    }
  }

  lemma SignatureFits(sig: text)
    requires ParseSignature(sig).Ok?
    ensures |sig| <= MAX_SIGNATURE_LEN
  {
    hide ParseRest;
  }

  // ---- One field ----

  /** The outcome of writing something: exactly size bytes, or a refusal, depending on a condition. */
  predicate Writes(r: Result<seq<Cell>, CoreError>, size: nat, condition: bool) {
    r.Ok? == condition && (r.Ok? ==> |r.value| == size)
  }

  lemma FieldContent(f: HeaderField, pos: nat, be: bool)
    requires Typed(f) && pos % 4 == 0
    ensures FieldSize(f) >= 4 && Writes(Enc(ToValue(f), pos, be), FieldSize(f) - 4, NulFree(ToValue(f)))
  {
    hide Raw, FixedBytes, Padding, EncAll, IsValidObjectPath;
    match f
    case Path(p) => ObjectPathHasNoNul(p);
    case _ =>
  }

  lemma EncPair(a: Value, b: Value, pos: nat, be: bool)
    ensures var first := Enc(a, pos, be);
            EncAll([a, b], pos, be) ==
            if first.Err? then first
            else var second := Enc(b, pos + |first.value|, be);
                 if second.Err? then second else Ok(first.value + second.value)
  {
    hide Enc;
    var values := [a, b];
    assert values[1..] == [b];
    var first := Enc(a, pos, be);
    if first.Ok? {
      var second := Enc(b, pos + |first.value|, be);
      assert [b][1..] == [];
      if second.Ok? {
        assert EncAll([], pos + |first.value| + |second.value|, be) == Ok([]);
        assert second.value + [] == second.value;
      }
    }
  }

  lemma ByteIsOneCell(v: u8, pos: nat, be: bool)
    ensures Enc(Value.Byte(v), pos, be).Ok? && |Enc(Value.Byte(v), pos, be).value| == 1
  {
    hide EncAll;
  }

  lemma VariantContent(f: HeaderField, pos: nat, be: bool)
    requires Typed(f) && pos % 4 == 1
    ensures FieldSize(f) >= 4 && Writes(Enc(Value.Variant(ToValue(f)), pos, be), FieldSize(f) - 1, NulFree(ToValue(f)))
  {
    hide Enc, Raw, ToValue, NulFree, Typed, FieldSize;
    var inner := ToValue(f);
    WireLayout.EncContainers(Value.Variant(inner), pos, be);
    ShortSignature(f);
    FieldContent(f, pos + 3, be);
  }

  lemma ShortSignature(f: HeaderField)
    ensures |Print(ValueType(ToValue(f)))| == 1
    ensures EncSignature(Print(ValueType(ToValue(f)))).Ok? && |EncSignature(Print(ValueType(ToValue(f)))).value| == 3
  {
    hide Raw;
  }

  /** A field is written, in exactly its size behind the padding, if and only if it holds no NUL. */
  lemma FieldWrites(f: HeaderField, pos: nat, be: bool)
    requires Typed(f)
    ensures Writes(Enc(FieldValue(f), pos, be), PadLen(pos, 8) + FieldSize(f), NulFree(ToValue(f)))
  {
    hide Enc, EncAll, ToValue, NulFree, Padding, Typed, FieldSize;
    var code, content := Value.Byte(FieldCode(f)), Value.Variant(ToValue(f));
    var start := pos + PadLen(pos, 8);
    assert (start + 1) % 4 == 1;
    WireLayout.EncContainers(FieldValue(f), pos, be);
    EncPair(code, content, start, be);
    ByteIsOneCell(FieldCode(f), start, be);
    VariantContent(f, start + 1, be);
  }

  lemma PadBehind(pos: nat, n: nat)
    ensures PadLen(pos + PadLen(pos, 8) + n, 8) == PadLen(n, 8)
  {
    var start := pos + PadLen(pos, 8);
    WireLayout.PadLenShift(n, 8, start / 8);
  }

  lemma FieldsCons(fields: seq<HeaderField>)
    requires fields != []
    ensures FieldsNulFree(fields) <==> NulFree(ToValue(fields[0])) && FieldsNulFree(fields[1..])
    ensures AllTyped(fields) ==> Typed(fields[0]) && AllTyped(fields[1..])
  {
    hide NulFree, ToValue, Typed;
    assert fields == [fields[0]] + fields[1..];
  }

  lemma {:induction false} FieldsWrite(fields: seq<HeaderField>, pos: nat, be: bool)
    requires AllTyped(fields)
    ensures Writes(EncAll(FieldValues(fields), pos, be),
                   if fields == [] then 0 else PadLen(pos, 8) + FieldsSize(fields), FieldsNulFree(fields))
  {
    hide Enc, FieldValue, AllTyped, Typed, FieldsNulFree, NulFree, ToValue, FieldSize, PadLen;
    if fields == [] {
      NoFieldsNoBytes(fields);
    } else {
      var f, rest := fields[0], fields[1..];
      FieldsCons(fields);
      FieldWrites(f, pos, be);
      assert FieldValues(fields)[1..] == FieldValues(rest);
      var first := Enc(FieldValue(f), pos, be);
      if first.Ok? {
        FieldsWrite(rest, pos + |first.value|, be);
        PadBehind(pos, FieldSize(f));
      }
    }
  }

  /** A header is written if and only if no field holds a NUL and the field array is within its limit. */
  lemma HeaderExactly(h: MessageHeader, be: bool)
    requires AllTyped(h.fields)
    ensures EncHeader(h, 0, be).Ok? <==> FieldsNulFree(h.fields) && FieldsSize(h.fields) <= MAX_ARRAY_LEN
  {
    hide Enc, EncAll, EncPrefix, FieldValues, FieldsSize, FieldsNulFree, AllTyped, EncArrayHead, Padding;
    WireLayout.EncContainers(FieldArray(h.fields), 12, be);
    assert ArrayStart(12, FIELD_TYPE) == 16;
    FieldsWrite(h.fields, 16, be);
    NoFieldsNoBytes(h.fields);
  }

  lemma NoFieldsNoBytes(fields: seq<HeaderField>)
    ensures fields == [] ==> FieldsSize(fields) == 0 && FieldsNulFree(fields)
  {
  }

  // ---- A whole message ----

  lemma {:induction false} FindOther(fields: seq<HeaderField>, codes: set<u8>, code: u8)
    requires code !in codes
    ensures Find(Without(fields, codes), code) == Find(fields, code)
  {
    if fields != [] {
      FindOther(fields[1..], codes, code);
      var rest := Without(fields[1..], codes);
      if FieldCode(fields[0]) !in codes {
        assert ([fields[0]] + rest)[1..] == rest;
      }
    }
  }

  lemma SentFind(m: Message, code: u8)
    requires code !in COMPUTED
    ensures Find(SentFields(m), code) == Find(m.header.fields, code)
  {
    hide Find, Without, PrintAll, ValueTypes;
    var kept := Without(m.header.fields, COMPUTED);
    var sig := if BodySignature(m) == [] then [] else [HeaderField.Signature(BodySignature(m))];
    var count := if m.fds == [] then [] else [UnixFds(|m.fds| % 0x1_0000_0000)];
    SmallFields(sig);
    SmallFields(count);
    FindConcat(kept + sig, count, code);
    FindConcat(kept, sig, code);
    FindOther(m.header.fields, COMPUTED, code);
  }

  /** The recomputed fields do not matter to validation. */
  lemma SentValidity(m: Message, length: nat)
    ensures Validate(SentHeader(m, length)) == Validate(m.header)
  {
    hide SentFields, Find;
    SentFind(m, 1);
    SentFind(m, 2);
    SentFind(m, 3);
    SentFind(m, 4);
    SentFind(m, 5);
  }

  lemma SentNulFree(m: Message)
    ensures FieldsNulFree(SentFields(m)) <==> FieldsNulFree(m.header.fields)
  {
    hide PrintAll, ValueTypes;
    if FieldsNulFree(SentFields(m)) {
      forall f | f in m.header.fields
        ensures NulFree(ToValue(f))
      {
        if FieldCode(f) !in COMPUTED {
          WithoutKeeps(m.header.fields, COMPUTED, f);
          assert f in SentFields(m);
        }
      }
    } else {
      assert forall f | f in Without(m.header.fields, COMPUTED) :: f in m.header.fields;
    }
  }

  lemma {:induction false} WithoutKeeps(fields: seq<HeaderField>, codes: set<u8>, f: HeaderField)
    requires f in fields && FieldCode(f) !in codes
    ensures f in Without(fields, codes)
  {
    if fields[0] != f {
      assert fields == [fields[0]] + fields[1..];
      WithoutKeeps(fields[1..], codes, f);
    }
  }

  lemma SentTyped(m: Message)
    requires AllTyped(m.header.fields)
    requires m.body == [] || ParseSignature(BodySignature(m)).Ok?
    ensures AllTyped(SentFields(m))
  {
    hide PrintAll, ValueTypes, ParseSignature, IsValidObjectPath;
    EmptySignature(m.body);
    if m.body != [] {
      SignatureFits(BodySignature(m));
    }
  }

  /** A message is serialised if and only if its body can be written, the body's signature is within the
      limits, the fields its type demands are there, no field holds a NUL and the field array fits. */
  lemma ToBytesSucceedsExactly(m: Message)
    requires AllTyped(m.header.fields)
    ensures ToBytes(m).Ok? <==>
            && EncAll(m.body, 0, m.header.bigEndian).Ok?
            && (m.body == [] || ParseSignature(BodySignature(m)).Ok?)
            && Complete(m.header)
            && FieldsNulFree(m.header.fields)
            && FieldsSize(SentFields(m)) <= 0x400_0000
  {
    hide EncAll, EncHeader, ParseSignature, PrintAll, ValueTypes, SentFields, Validate, Wire, FieldsSize, FieldsNulFree,
         AllTyped, Complete;
    var body := EncAll(m.body, 0, m.header.bigEndian);
    EmptySignature(m.body);
    ValidateExactly(m.header);
    if body.Ok? && (m.body == [] || ParseSignature(BodySignature(m)).Ok?) {
      var h := SentHeader(m, |body.value|);
      SentTyped(m);
      SentValidity(m, |body.value|);
      SentNulFree(m);
      HeaderExactly(h, m.header.bigEndian);
    }
  }

  /** A message that could be written but for a field its type demands is refused for the first one missing. */
  lemma IncompleteIsNamed(m: Message, code: u8)
    requires EncAll(m.body, 0, m.header.bigEndian).Ok? && (m.body == [] || ParseSignature(BodySignature(m)).Ok?)
    requires Missing(m.header, code) && forall less: u8 | less < code :: !Missing(m.header, less)
    ensures ToBytes(m) == Err(MissingHeaderField(code))
  {
    hide EncAll, EncHeader, ParseSignature, PrintAll, ValueTypes, SentFields, Validate, Missing;
    EmptySignature(m.body);
    ValidateExactly(m.header);
    SentValidity(m, |EncAll(m.body, 0, m.header.bigEndian).value|);
  }

  /** What a received body is worth: it can be written again exactly if it holds no NUL, and its signature
      is one the parser accepts. */
  lemma ReceivedBody(buf: seq<u8>, fds: seq<Fd>)
    requires FromBytes(buf, fds).Ok?
    ensures var m := FromBytes(buf, fds).value;
            && (EncAll(m.body, 0, m.header.bigEndian).Ok? <==> AllNulFree(m.body))
            && (m.body == [] || ParseSignature(BodySignature(m)).Ok?)
  {
    hide EncAll, DecAll, Read, ParseSignature, AllWellFormed, AllNulFree, NoEmptyStructs, SignatureOf, PrintAll,
         ValueTypes;
    var m := FromBytes(buf, fds).value;
    var be := m.header.bigEndian;
    var sig := SignatureOf(m.header.fields);
    NothingToWrite(be);
    NothingIsNulFree();
    if sig != [] {
      var offset := Read(buf).value.1;
      var body := buf[offset..offset + m.header.bodyLength];
      ParsedTypesAreReadable(sig);
      var tys := ParseSignature(sig).value;
      ReadThenWriteAll(body, 0, be, tys);
      SignatureInverse(sig, tys);
    }
  }

  lemma NothingIsNulFree()
    ensures AllNulFree([])
  {
  }

  lemma RelayedNulFree(fields: seq<HeaderField>, sender: text)
    ensures FieldsNulFree(Without(fields, {7}) + [Sender(sender)]) <==>
              FieldsNulFree(Without(fields, {7})) && 0 !in sender
  {
    var kept := Without(fields, {7});
    var all := kept + [Sender(sender)];
    assert Sender(sender) in all && forall f | f in kept :: f in all;
    assert NulFree(ToValue(Sender(sender))) <==> 0 !in sender;
  }

  /** Setting the sender does not matter to validation. */
  lemma SenderValidity(m: Message, sender: text)
    ensures Validate(WithSender(m, sender).header) == Validate(m.header)
  {
    hide Find, Without;
    var last := [Sender(sender)];
    forall code: u8 | code != 7
      ensures Find(WithSender(m, sender).header.fields, code) == Find(m.header.fields, code)
    {
      FindConcat(Without(m.header.fields, {7}), last, code);
      FindOther(m.header.fields, {7}, code);
      FindInOne(Sender(sender), code);
    }
  }

  lemma FindInOne(f: HeaderField, code: u8)
    ensures Find([f], code) == if FieldCode(f) == code then Some(f) else None
  {
    assert [f][1..] == [];
  }

  /** A message received from arbitrary bytes can be relayed if and only if it is valid for its type, holds no
      NUL outside the SENDER fields it came with, which the bus replaces, and its field array still fits. */
  lemma RelaySucceedsExactly(buf: seq<u8>, fds: seq<Fd>, sender: text)
    requires FromBytes(buf, fds).Ok?
    ensures var received := FromBytes(buf, fds).value;
            ToBytes(WithSender(received, sender)).Ok? <==>
              && Complete(received.header)
              && AllNulFree(received.body)
              && FieldsNulFree(Without(received.header.fields, {7})) && 0 !in sender
              && FieldsSize(SentFields(WithSender(received, sender))) <= 0x400_0000
  {
    hide EncAll, Read, ReadBody, ToBytes, Without, SentFields, FieldsSize, FieldsNulFree, AllNulFree, Validate,
         ParseSignature, PrintAll, ValueTypes, Typed, Complete;
    var received := FromBytes(buf, fds).value;
    var m := WithSender(received, sender);
    ReceivedBody(buf, fds);
    ReadFieldsAreWellFormed(buf);
    WellFormedFieldsAreTyped(received.header.fields);
    assert AllTyped(m.header.fields) by {
      SendersAreTyped(sender);
      assert forall f | f in m.header.fields :: f in received.header.fields || f == Sender(sender);
    }
    RelayedNulFree(received.header.fields, sender);
    SenderValidity(received, sender);
    ValidateExactly(received.header);
    ValidateExactly(m.header);
    ToBytesSucceedsExactly(m);
  }

  /** A bare header is a whole frame, and is received. */
  lemma BareFrame(h: MessageHeader)
    requires h.protocolVersion == PROTOCOL_VERSION && h.bodyLength == 0
    requires FieldsWellFormed(h.fields) && EncHeader(h, 0, h.bigEndian).Ok?
    requires SignatureOf(h.fields) == [] && UnixFdsOf(h.fields) == 0
    ensures FromBytes(Wire(EncHeader(h, 0, h.bigEndian).value), []) == Ok(Message(h, [], []))
  {
    hide EncHeader, Read, FieldsWellFormed, SignatureOf, UnixFdsOf, Wire;
    var head := EncHeader(h, 0, h.bigEndian).value;
    HeaderInFrame(head, []);
    assert Wire(head) + [] == Wire(head);
    HeaderRoundTrip(h, Wire(head));
  }

  /** Receiving does not validate: a method call without any field is received, and cannot be relayed. */
  lemma ReceivedButInvalid(serial: u32, sender: text)
    ensures var h := MessageHeader(false, MethodCall, 0, PROTOCOL_VERSION, 0, serial, []);
            && EncHeader(h, 0, false).Ok?
            && var buf := Wire(EncHeader(h, 0, false).value);
            && FromBytes(buf, []) == Ok(Message(h, [], []))
            && Validate(h) == Err(MissingHeaderField(1))
            && ToBytes(WithSender(Message(h, [], []), sender)).Err?
  {
    hide ToBytes, EncHeader, Wire, FieldsSize;
    var h := MessageHeader(false, MethodCall, 0, PROTOCOL_VERSION, 0, serial, []);
    NoFieldsNoBytes([]);
    HeaderExactly(h, false);
    BareFrame(h);
    RelaySucceedsExactly(Wire(EncHeader(h, 0, false).value), [], sender);
  }

  lemma SizeOfCons(f: HeaderField, rest: seq<HeaderField>)
    ensures FieldsSize([f] + rest) ==
            FieldSize(f) + if rest == [] then 0 else PadLen(FieldSize(f), 8) + FieldsSize(rest)
  {
    hide FieldSize, PadLen;
    var fields := [f] + rest;
    assert fields[1..] == rest;
  }

  lemma WithoutNone(f: HeaderField, codes: set<u8>)
    requires FieldCode(f) !in codes
    ensures Without([f], codes) == [f]
  {
    assert [f][1..] == [];
  }

  /** A reply whose field array takes exactly as much as an array may. */
  function FullReply(serial: u32, name: text): (h: MessageHeader) {
    MessageHeader(false, MethodReturn, 0, PROTOCOL_VERSION, 0, serial, [ReplySerial(1)] + [Interface(name)])
  }

  predicate FillsTheArray(name: text) {
    |name| == MAX_ARRAY_LEN - 17 && Ascii(name) && 0 !in name
  }

  lemma FullReplyFields(serial: u32, name: text)
    requires FillsTheArray(name)
    ensures var fields := FullReply(serial, name).fields;
            && FieldsWellFormed(fields) && AllTyped(fields) && FieldsNulFree(fields)
            && SignatureOf(fields) == [] && UnixFdsOf(fields) == 0 && Find(fields, 5).Some?
            && FieldsSize(fields) == MAX_ARRAY_LEN
  {
    hide ValidUtf8, Ascii, Find, FieldsSize;
    AsciiIsUtf8(name);
    forall code: u8 | code in {5, 8, 9}
      ensures Find([ReplySerial(1)] + [Interface(name)], code) == if code == 5 then Some(ReplySerial(1)) else None
    {
      FindConcat([ReplySerial(1)], [Interface(name)], code);
      FindInOne(ReplySerial(1), code);
      FindInOne(Interface(name), code);
    }
    SizeOfCons(ReplySerial(1), [Interface(name)]);
    SizeOfCons(Interface(name), []);
    assert [Interface(name)] + [] == [Interface(name)];
  }

  lemma FullReplySent(serial: u32, name: text, sender: text)
    requires FillsTheArray(name)
    ensures FieldsSize(SentFields(WithSender(Message(FullReply(serial, name), [], []), sender))) > MAX_ARRAY_LEN
  {
    hide Ascii, Without, FieldsSize, PrintAll, ValueTypes;
    var fields := FullReply(serial, name).fields;
    var last := [Sender(sender)];
    WithoutConcat([ReplySerial(1)], [Interface(name)], {7});
    WithoutNone(ReplySerial(1), {7});
    WithoutNone(Interface(name), {7});
    WithoutConcat(fields, last, COMPUTED);
    WithoutConcat([ReplySerial(1)], [Interface(name)], COMPUTED);
    WithoutNone(ReplySerial(1), COMPUTED);
    WithoutNone(Interface(name), COMPUTED);
    WithoutNone(Sender(sender), COMPUTED);
    EmptySignature([]);
    assert SentFields(WithSender(Message(FullReply(serial, name), [], []), sender)) == fields + last;
    assert fields + last == [ReplySerial(1)] + ([Interface(name)] + last);
    SizeOfCons(ReplySerial(1), [Interface(name)] + last);
    SizeOfCons(Interface(name), last);
    SizeOfCons(Sender(sender), []);
    assert last + [] == last;
  }

  /** A valid reply without any NUL whose field array is exactly at its limit is received, and no SENDER fits in
      any more. */
  lemma ReceivedButFull(serial: u32, name: text, sender: text)
    requires FillsTheArray(name)
    ensures var h := FullReply(serial, name);
            && EncHeader(h, 0, false).Ok?
            && FromBytes(Wire(EncHeader(h, 0, false).value), []) == Ok(Message(h, [], []))
            && Validate(h).Ok? && FieldsNulFree(h.fields) && FieldsSize(h.fields) == MAX_ARRAY_LEN
            && FieldsSize(SentFields(WithSender(Message(h, [], []), sender))) > MAX_ARRAY_LEN
            && ToBytes(WithSender(Message(h, [], []), sender)).Err?
  {
    hide ToBytes, EncHeader, Wire, FillsTheArray, SentFields, FieldsSize, FieldsNulFree, FieldsWellFormed, AllTyped,
         Find, Without;
    var h := FullReply(serial, name);
    FullReplyFields(serial, name);
    FullReplySent(serial, name, sender);
    HeaderExactly(h, false);
    BareFrame(h);
    RelaySucceedsExactly(Wire(EncHeader(h, 0, false).value), [], sender);
  }

  /** Such a name exists. */
  lemma FullName() returns (name: text)
    ensures FillsTheArray(name)
  {
    name := seq(MAX_ARRAY_LEN - 17, _ => 97);
  }

  lemma SendersAreTyped(sender: text)
    ensures Typed(Sender(sender))
  {
  }
}

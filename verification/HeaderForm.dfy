/** Message headers in terms of the format: every byte of the prefix, every field by its code and type. */
module HeaderForm {
  import opened Wrappers
  import opened Bytes
  import opened Types
  import opened WireSpec
  import opened WireProofs
  import opened WireReread
  import opened WireForm
  import opened Header
  import opened HeaderProofs

  // ---- The fields each message type must have ----

  predicate HasPath(fields: seq<HeaderField>) {
    exists f :: f in fields && f.Path?
  }

  predicate HasInterface(fields: seq<HeaderField>) {
    exists f :: f in fields && f.Interface?
  }

  predicate HasMember(fields: seq<HeaderField>) {
    exists f :: f in fields && f.Member?
  }

  predicate HasErrorName(fields: seq<HeaderField>) {
    exists f :: f in fields && f.ErrorName?
  }

  predicate HasReplySerial(fields: seq<HeaderField>) {
    exists f :: f in fields && f.ReplySerial?
  }

  /** The table of "Header Fields" in the specification. */
  predicate Complete(h: MessageHeader) {
    match h.messageType
    case MethodCall => HasPath(h.fields) && HasMember(h.fields)
    case Signal => HasPath(h.fields) && HasInterface(h.fields) && HasMember(h.fields)
    case Error => HasErrorName(h.fields) && HasReplySerial(h.fields)
    case MethodReturn => HasReplySerial(h.fields)
  }

  lemma {:induction false} FindExactly(fields: seq<HeaderField>, code: u8)
    ensures Find(fields, code).Some? <==> exists f :: f in fields && FieldCode(f) == code
  {
    if fields != [] {
      FindExactly(fields[1..], code);
      assert fields == [fields[0]] + fields[1..];
      assert fields[0] in fields;
    }
  }

  lemma FieldsExactly(fields: seq<HeaderField>)
    ensures Find(fields, 1).Some? <==> HasPath(fields)
    ensures Find(fields, 2).Some? <==> HasInterface(fields)
    ensures Find(fields, 3).Some? <==> HasMember(fields)
    ensures Find(fields, 4).Some? <==> HasErrorName(fields)
    ensures Find(fields, 5).Some? <==> HasReplySerial(fields)
  {
    hide Find;
    FindExactly(fields, 1);
    FindExactly(fields, 2);
    FindExactly(fields, 3);
    FindExactly(fields, 4);
    FindExactly(fields, 5);
  }

  /** The field of a code is demanded and not there. */
  predicate Missing(h: MessageHeader, code: u8) {
    match code
    case 1 => (h.messageType == MethodCall || h.messageType == Signal) && !HasPath(h.fields)
    case 2 => h.messageType == Signal && !HasInterface(h.fields)
    case 3 => (h.messageType == MethodCall || h.messageType == Signal) && !HasMember(h.fields)
    case 4 => h.messageType == MessageType.Error && !HasErrorName(h.fields)
    case 5 => (h.messageType == MessageType.Error || h.messageType == MethodReturn) && !HasReplySerial(h.fields)
    case _ => false
  }

  /** A header is valid exactly when it has every field its type demands; otherwise the first one missing is named,
      by its code. */
  lemma ValidateExactly(h: MessageHeader)
    ensures Validate(h).Ok? <==> Complete(h)
    ensures forall code :: Validate(h) == Err(MissingHeaderField(code)) <==>
              Missing(h, code) && forall less: u8 | less < code :: !Missing(h, less)
  {
    hide Find, HasPath, HasInterface, HasMember, HasErrorName, HasReplySerial;
    FieldsExactly(h.fields);
    var earlier := [Missing(h, 1), Missing(h, 2), Missing(h, 3), Missing(h, 4)];
  }

  // ---- Fields on the wire ----

  /** A pair of the field array. */
  type CodedValue = (u8, Value)

  function PairValue(p: CodedValue): (value: Value) {
    Value.Struct([Value.Byte(p.0), Value.Variant(p.1)])
  }

  function PairValues(pairs: seq<CodedValue>): (values: seq<Value>)
    ensures |values| == |pairs|
  {
    if pairs == [] then [] else [PairValue(pairs[0])] + PairValues(pairs[1..])
  }

  /** The field array: structs of a byte and a variant. */
  function FieldList(pairs: seq<CodedValue>): (value: Value) {
    Value.Array(Type.Struct([Type.Byte, Type.Variant]), PairValues(pairs))
  }

  /** Where a text is expected an object path will do. */
  predicate IsText(v: Value, s: text) {
    v == Value.String(s) || v == Value.ObjectPath(s)
  }

  /** Which field a pair stands for. */
  predicate Carries(p: CodedValue, f: HeaderField) {
    match f
    case Path(path) => p == (1, Value.ObjectPath(path))
    case Interface(s) => p.0 == 2 && IsText(p.1, s)
    case Member(s) => p.0 == 3 && IsText(p.1, s)
    case ErrorName(s) => p.0 == 4 && IsText(p.1, s)
    case ReplySerial(n) => p == (5, Value.UInt32(n))
    case Destination(s) => p.0 == 6 && IsText(p.1, s)
    case Sender(s) => p.0 == 7 && IsText(p.1, s)
    case Signature(sig) => p == (8, Value.Signature(sig))
    case UnixFds(n) => p == (9, Value.UInt32(n))
  }

  /** A field is read from a pair exactly when the pair carries it; codes that are not listed are skipped, and a
      listed one with a value of the wrong type is refused. */
  lemma FieldReadExactly(p: CodedValue)
    ensures forall f :: FieldOf(PairValue(p)) == Ok(Some(f)) <==> Carries(p, f)
    ensures FieldOf(PairValue(p)) == Ok(None) <==> p.0 == 0 || p.0 > 9
    ensures FieldOf(PairValue(p)).Err? ==> FieldOf(PairValue(p)) == Err(TypeMismatch(p.0))
  {
  }

  /** The fields of a list of pairs, in order. */
  predicate Collects(pairs: seq<CodedValue>, fields: seq<HeaderField>) {
    if pairs == [] then fields == []
    else if pairs[0].0 == 0 || pairs[0].0 > 9 then Collects(pairs[1..], fields)
    else fields != [] && Carries(pairs[0], fields[0]) && Collects(pairs[1..], fields[1..])
  }

  lemma {:induction false} FieldsReadExactly(pairs: seq<CodedValue>, fields: seq<HeaderField>)
    ensures FieldsOf(PairValues(pairs)) == Ok(fields) <==> Collects(pairs, fields)
  {
    hide FieldOf, Carries, PairValue;
    if pairs != [] {
      FieldReadExactly(pairs[0]);
      var values := PairValues(pairs);
      assert values[1..] == PairValues(pairs[1..]);
      var first, rest := FieldOf(values[0]), FieldsOf(values[1..]);
      FieldsReadExactly(pairs[1..], fields);
      if fields != [] {
        FieldsReadExactly(pairs[1..], fields[1..]);
        assert fields == [fields[0]] + fields[1..];
      }
      if first.Ok? && rest.Ok? {
        var piece := if first.value.Some? then [first.value.value] else [];
        assert [] + rest.value == rest.value;
        if first.value.Some? {
          assert (piece + rest.value)[1..] == rest.value;
        }
      }
    }
  }

  /** Every element of the array a header is read from is a pair. */
  lemma {:induction false} ElementsArePairs(elements: seq<Value>) returns (pairs: seq<CodedValue>)
    requires AllOfType(elements, Type.Struct([Type.Byte, Type.Variant]))
    ensures PairValues(pairs) == elements
  {
    if elements == [] {
      pairs := [];
    } else {
      var rest := ElementsArePairs(elements[1..]);
      var first := elements[0];
      PairMembers(first);
      pairs := [(first.members[0].b, first.members[1].inner)] + rest;
      assert pairs[1..] == rest;
      assert elements == [first] + elements[1..];
    }
  }

  lemma PairMembers(value: Value)
    requires ValueType(value) == Type.Struct([Type.Byte, Type.Variant])
    ensures value.Struct? && |value.members| == 2 && value.members[0].Byte? && value.members[1].Variant?
    ensures value == PairValue((value.members[0].b, value.members[1].inner))
  {
    var members := value.members;
    assert ValueTypes(members) == [ValueType(members[0])] + ValueTypes(members[1..]);
    assert ValueTypes(members[1..]) == [Type.Byte, Type.Variant][1..] == [Type.Variant];
    assert ValueTypes(members)[0] == Type.Byte;
    assert members[1..][0] == members[1];
    assert ValueTypes(members[1..])[0] == ValueType(members[1]);
    assert members == [members[0], members[1]];
  }

  // ---- The prefix ----

  /** The numbers of the message types. */
  function TypeNumber(t: MessageType): (n: nat) {
    match t
    case MethodCall => 1
    case MethodReturn => 2
    case Error => 3
    case Signal => 4
  }

  /** The first twelve bytes of a header, and the length of the field array behind them. */
  predicate Opens(buf: seq<u8>, h: MessageHeader) {
    && |buf| >= 16
    && buf[0] == (if h.bigEndian then 'B' else 'l') as int
    && buf[1] == TypeNumber(h.messageType)
    && buf[2] == h.flags
    && buf[3] == h.protocolVersion
    && Four(buf, 4, h.bigEndian) == h.bodyLength
    && Four(buf, 8, h.bigEndian) == h.serial
  }

  lemma WordSpelled(buf: seq<u8>, at: nat, be: bool)
    requires at + 4 <= |buf|
    ensures Word(buf, at, be) == Four(buf, at, be)
  {
    hide FixedValue;
    SpelledValue(buf, at, be, 4);
  }

  /** The prefix is read as what its bytes say, or refused for the first thing wrong with it. */
  lemma PrefixExactly(buf: seq<u8>, h: MessageHeader)
    ensures var p := ReadPrefix(buf);
            && (Opens(buf, h) && h.protocolVersion == 1 <==>
                  && p.Ok? && p.value.bigEndian == h.bigEndian && p.value.messageType == h.messageType
                  && p.value.flags == h.flags && p.value.protocolVersion == h.protocolVersion
                  && p.value.bodyLength == h.bodyLength && p.value.serial == h.serial)
            && (p.Ok? ==> |buf| >= 16 && p.value.fieldsLength == Four(buf, 12, p.value.bigEndian))
    ensures |buf| < 16 ==> ReadPrefix(buf) == Err(UnexpectedEof(16, |buf|))
    ensures |buf| >= 16 ==>
              if buf[0] != 'l' as int && buf[0] != 'B' as int then ReadPrefix(buf) == Err(BadByteOrder(buf[0]))
              else if buf[1] == 0 || buf[1] > 4 then ReadPrefix(buf) == Err(InvalidSignature)
              else if buf[3] != 1 then ReadPrefix(buf) == Err(BadProtocolVersion(buf[3]))
              else ReadPrefix(buf).Ok?
  {
    hide Word, Four;
    if |buf| >= 16 {
      forall at, be | at + 4 <= 16
        ensures Word(buf, at, be) == Four(buf, at, be)
      {
        WordSpelled(buf, at, be);
      }
    }
  }

  /** The frame length is known from sixteen bytes on: field array, padding and body. */
  lemma PeekExactly(buf: seq<u8>)
    ensures PeekFrameLen(buf) == Ok(None) <==> |buf| < 16
    ensures |buf| >= 16 && ReadPrefix(buf).Err? ==> PeekFrameLen(buf) == Err(ReadPrefix(buf).error)
    ensures |buf| >= 16 && ReadPrefix(buf).Ok? ==>
              var be := buf[0] == 'B' as int;
              PeekFrameLen(buf) == Ok(Some(Next(16 + Four(buf, 12, be), 8) + Four(buf, 4, be)))
  {
    hide Word, Four;
    if |buf| >= 16 {
      forall at, be | at + 4 <= 16
        ensures Word(buf, at, be) == Four(buf, at, be)
      {
        WordSpelled(buf, at, be);
      }
    }
  }

  // ---- Whole headers ----

  lemma FieldListIsReadable()
    ensures FIELD_TYPE == Type.Struct([Type.Byte, Type.Variant]) && NoEmptyStruct(Type.Array(FIELD_TYPE))
  {
    assert FIELD_TYPE.fields[1..] == [Type.Variant] && FIELD_TYPE.fields[1..][1..] == [];
  }

  /** The field array that is read at offset 12. */
  lemma FieldArrayExactly(buf: seq<u8>, be: bool, pairs: seq<CodedValue>, end: nat)
    requires |buf| >= 16
    ensures ReadFieldArray(buf, be) == Ok(Decoded(FieldList(pairs), end)) <==>
              Legal(FieldList(pairs)) && Laid(buf, 12, end, be, FieldList(pairs))
  {
    hide Dec, Laid, Legal, PairValues;
    FieldListIsReadable();
    ReadExactly(buf, 12, end, be, Type.Array(FIELD_TYPE), FieldList(pairs));
  }

  /** A legal field array of some pairs that carry the fields starts at offset 12 and, with its padding, ends at
      end. */
  ghost predicate HoldsFields(buf: seq<u8>, be: bool, fields: seq<HeaderField>, end: nat) {
    exists pairs: seq<CodedValue>, last: nat ::
      && Legal(FieldList(pairs)) && Laid(buf, 12, last, be, FieldList(pairs))
      && Collects(pairs, fields) && end == Next(last, 8) <= |buf|
  }

  /** Reading a header, in terms of the format alone. */
  lemma HeaderReadExactly(buf: seq<u8>, h: MessageHeader, end: nat)
    ensures Read(buf) == Ok((h, end)) <==>
              Opens(buf, h) && h.protocolVersion == 1 && HoldsFields(buf, h.bigEndian, h.fields, end)
  {
    hide ReadPrefix, ReadFieldArray, FieldsOf, Opens, Legal, Laid, Collects, FieldList, Next;
    PrefixExactly(buf, h);
    if |buf| >= 16 {
      if Read(buf) == Ok((h, end)) {
        HeaderHoldsFields(buf, h, end);
      }
      forall pairs: seq<CodedValue>, last: nat |
        && Legal(FieldList(pairs)) && Laid(buf, 12, last, h.bigEndian, FieldList(pairs))
        && Collects(pairs, h.fields) && end == Next(last, 8) <= |buf|
        ensures ReadPrefix(buf).Ok? && ReadPrefix(buf).value.bigEndian == h.bigEndian ==>
                  Read(buf).Ok? && Read(buf).value.0.fields == h.fields && Read(buf).value.1 == end
      {
        FieldArrayExactly(buf, h.bigEndian, pairs, last);
        FieldListElements(pairs);
        FieldsReadExactly(pairs, h.fields);
        NextIsPadded(last, 8);
      }
    } else {
      ShortHeader(buf);
    }
  }

  lemma ShortHeader(buf: seq<u8>)
    requires |buf| < 16
    ensures Read(buf).Err? && forall h :: !Opens(buf, h)
  {
  }

  lemma FieldListElements(pairs: seq<CodedValue>)
    ensures FieldList(pairs).Array? && FieldList(pairs).elements == PairValues(pairs)
  {
  }

  lemma HeaderHoldsFields(buf: seq<u8>, h: MessageHeader, end: nat)
    requires |buf| >= 16 && Read(buf) == Ok((h, end))
    ensures HoldsFields(buf, h.bigEndian, h.fields, end)
  {
    hide ReadPrefix, ReadFieldArray, FieldsOf, Legal, Laid, Collects, Next, Word, FieldList;
    var be := h.bigEndian;
    var raw := ReadFieldArray(buf, be).value;
    ReadArrayElements(buf, be);
    var pairs := ElementsArePairs(raw.value.elements);
    assert raw.value == FieldList(pairs) by { ListOfPairs(raw.value, pairs); }
    FieldArrayExactly(buf, be, pairs, raw.pos);
    FieldsReadExactly(pairs, h.fields);
    NextIsPadded(raw.pos, 8);
  }

  lemma ListOfPairs(value: Value, pairs: seq<CodedValue>)
    requires value.Array? && value.elemType == Type.Struct([Type.Byte, Type.Variant])
    requires value.elements == PairValues(pairs)
    ensures value == FieldList(pairs)
  {
  }

  lemma ReadArrayElements(buf: seq<u8>, be: bool)
    requires |buf| >= 16 && ReadFieldArray(buf, be).Ok?
    ensures var value := ReadFieldArray(buf, be).value.value;
            && value.Array? && value.elemType == Type.Struct([Type.Byte, Type.Variant])
            && AllOfType(value.elements, Type.Struct([Type.Byte, Type.Variant]))
  {
    hide Dec, Rewrites, AllWellFormed;
    FieldListIsReadable();
    ReadThenWrite(buf, 12, be, Type.Array(FIELD_TYPE));
  }

  // ---- What is written ----

  /** The pair a field is written as. */
  function PairOf(f: HeaderField): (p: CodedValue)
    ensures Carries(p, f)
  {
    match f
    case Path(path) => (1, Value.ObjectPath(path))
    case Interface(s) => (2, Value.String(s))
    case Member(s) => (3, Value.String(s))
    case ErrorName(s) => (4, Value.String(s))
    case ReplySerial(n) => (5, Value.UInt32(n))
    case Destination(s) => (6, Value.String(s))
    case Sender(s) => (7, Value.String(s))
    case Signature(sig) => (8, Value.Signature(sig))
    case UnixFds(n) => (9, Value.UInt32(n))
  }

  function PairsOf(fields: seq<HeaderField>): (pairs: seq<CodedValue>) {
    if fields == [] then [] else [PairOf(fields[0])] + PairsOf(fields[1..])
  }

  lemma {:induction false} WrittenFields(fields: seq<HeaderField>)
    ensures FieldValues(fields) == PairValues(PairsOf(fields))
  {
    if fields != [] {
      WrittenFields(fields[1..]);
      assert PairsOf(fields)[1..] == PairsOf(fields[1..]);
    }
  }

  lemma WrittenList(fields: seq<HeaderField>)
    ensures FieldArray(fields) == FieldList(PairsOf(fields))
  {
    WrittenFields(fields);
  }

  lemma WrittenOpens(h: MessageHeader, buf: seq<u8>)
    requires |buf| >= 16 && Holds(buf, 0, EncPrefix(h, 0, h.bigEndian))
    ensures Opens(buf, h)
  {
    hide Holds, EncFixed, Raw, FixedBytes, Four, Spelled;
    var be := h.bigEndian;
    var length, serial := EncFixed(4, be, 4, h.bodyLength), EncFixed(8, be, 4, h.serial);
    HoldsConcat(buf, 0, Raw(Marks(h)) + length, serial);
    HoldsConcat(buf, 0, Raw(Marks(h)), length);
    HoldsRaw(buf, 0, Marks(h));
    assert buf[0..4] == Marks(h);
    assert forall i | 0 <= i < 4 :: buf[i] == buf[0..4][i] == Marks(h)[i];
    CapacityOfWidths();
    FixedRead(buf, 4, be, 4, h.bodyLength);
    FixedRead(buf, 8, be, 4, h.serial);
    NumberExactly(buf, 4, 8, be, 4, h.bodyLength);
    NumberExactly(buf, 8, 12, be, 4, h.serial);
    FourSpelled(buf, 4, be);
    FourSpelled(buf, 8, be);
  }

  lemma FourSpelled(buf: seq<u8>, at: nat, be: bool)
    requires at + 4 <= |buf|
    ensures Spelled(buf, at, be, 4) == Four(buf, at, be)
  {
  }

  lemma ZeroPad(front: seq<Cell>, n: nat)
    ensures var cells := front + Padding(n, 8);
            forall i | |front| <= i < |cells| :: Wire(cells)[i] == 0
  {
  }

  /** Every byte of a written header: the prefix, its fields as pairs from offset 12 on, and zeros up to a multiple
      of eight. */
  lemma HeaderWritten(h: MessageHeader)
    requires EncHeader(h, 0, h.bigEndian).Ok? && FieldsWellFormed(h.fields)
    ensures var bytes := Wire(EncHeader(h, 0, h.bigEndian).value);
            && Opens(bytes, h)
            && exists last: nat ::
                 && Laid(bytes, 12, last, h.bigEndian, FieldList(PairsOf(h.fields)))
                 && last <= |bytes| == Next(last, 8)
                 && forall i | last <= i < |bytes| :: bytes[i] == 0
  {
    hide Enc, EncPrefix, FieldArray, FieldList, Padding, Wire, Holds, Opens, Laid, FieldsWellFormed, ReadFieldArray,
         Next;
    var be := h.bigEndian;
    var prefix := EncPrefix(h, 0, be);
    var fields := Enc(FieldArray(h.fields), 12, be).value;
    var last := 12 + |fields|;
    var cells := prefix + fields + Padding(last, 8);
    var bytes := Wire(cells);
    WireHolds([], cells, []);
    assert [] + bytes + [] == bytes;
    HoldsConcat(bytes, 0, prefix + fields, Padding(last, 8));
    HoldsConcat(bytes, 0, prefix, fields);
    FieldArrayReadBack(h.fields, bytes, be);
    WrittenOpens(h, bytes);
    WrittenList(h.fields);
    FieldArrayExactly(bytes, be, PairsOf(h.fields), last);
    NextIsPadded(last, 8);
    ZeroPad(prefix + fields, last);
  }
}

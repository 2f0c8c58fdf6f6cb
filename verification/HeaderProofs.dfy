/** The two frame calculations agree, and headers survive the round trip. */
module HeaderProofs {
  import opened Wrappers
  import opened Bytes
  import opened Types
  import opened SignatureSpec
  import opened WireSpec
  import opened WireProofs
  import opened WireReread
  import opened Header

  // ---- Where a frame ends ----

  /** What reading the field array amounts to: its length is the word at offset 12. */
  lemma FieldArrayEnd(buf: seq<u8>, be: bool)
    requires |buf| >= 16
    ensures var r := ReadFieldArray(buf, be);
            r.Ok? ==> r.value.value.Array? && r.value.pos == 16 + Word(buf, 12, be)
  {
    hide Dec, DecElements, DecFixed, Word;
    WordIsFixed(buf, 12, be);
    DecArray(buf, 12, be, FIELD_TYPE);
  }

  /** Peeking at a frame and reading its header agree on where the body ends, on every buffer. */
  lemma FrameLengthsAgree(buf: seq<u8>)
    requires PeekFrameLen(buf).Ok? && Read(buf).Ok?
    ensures var (h, off) := Read(buf).value;
            off % 8 == 0 && PeekFrameLen(buf) == Ok(Some(off + h.bodyLength))
  {
    hide ReadFieldArray, FieldsOf, Word;
    var p := ReadPrefix(buf).value;
    FieldArrayEnd(buf, p.bigEndian);
    var end := 16 + p.fieldsLength;
    assert (end + 7) / 8 * 8 == end + PadLen(end, 8);
  }

  /** The first 16 bytes decide the frame length. */
  lemma PeekIsLocal(a: seq<u8>, b: seq<u8>)
    requires |a| >= 16 && |b| >= 16 && a[..16] == b[..16]
    ensures PeekFrameLen(a) == PeekFrameLen(b)
  {
    hide FixedValue;
    assert forall i | 0 <= i < 16 :: a[i] == a[..16][i] == b[i];
    assert a[4..8] == a[..16][4..8] == b[4..8];
    assert a[8..12] == a[..16][8..12] == b[8..12];
    assert a[12..16] == a[..16][12..16] == b[12..16];
  }

  /** Cutting a buffer at the peeked length leaves a frame whose body slice is in range. */
  lemma CutFrameHoldsItsBody(buf: seq<u8>, n: nat)
    requires PeekFrameLen(buf) == Ok(Some(n)) && n <= |buf| && Read(buf[..n]).Ok?
    ensures var (h, off) := Read(buf[..n]).value;
            off % 8 == 0 && off + h.bodyLength == n == |buf[..n]|
  {
    var frame := buf[..n];
    assert |frame| >= 16;
    assert frame[..16] == buf[..16];
    PeekIsLocal(frame, buf);
    FrameLengthsAgree(frame);
  }

  // ---- Round trip ----

  predicate FieldWellFormed(f: HeaderField) {
    WellFormed(ToValue(f))
  }

  predicate FieldsWellFormed(fields: seq<HeaderField>) {
    forall f | f in fields :: FieldWellFormed(f)
  }

  lemma FieldTypeFacts(f: HeaderField)
    ensures ValueType(FieldValue(f)) == FIELD_TYPE
    ensures FieldWellFormed(f) ==> WellFormed(FieldValue(f))
    ensures FieldOf(FieldValue(f)) == Ok(Some(f))
  {
    hide ValidUtf8, IsValidObjectPath, ParseSignature;
    var inner := ToValue(f);
    assert WithinLimits(ValueType(inner));
    PairFacts(Value.Byte(FieldCode(f)), Value.Variant(inner));
  }

  lemma PairFacts(first: Value, second: Value)
    ensures ValueType(Value.Struct([first, second])) == Type.Struct([ValueType(first), ValueType(second)])
    ensures WellFormed(Value.Struct([first, second])) <==> WellFormed(first) && WellFormed(second)
  {
    var members := [first, second];
    assert members[1..] == [second] && members[1..][1..] == [];
    assert ValueTypes([second]) == [ValueType(second)] + ValueTypes([]);
    assert AllWellFormed([second]) <==> WellFormed(second) && AllWellFormed([]);
  }

  lemma {:induction false} FieldValuesFacts(fields: seq<HeaderField>)
    ensures FieldsWellFormed(fields) ==> AllWellFormed(FieldValues(fields))
    ensures AllOfType(FieldValues(fields), FIELD_TYPE)
    ensures FieldsOf(FieldValues(fields)) == Ok(fields)
  {
    hide FieldValue, FieldWellFormed, FieldOf, ValueType, WellFormed;
    if fields != [] {
      FieldTypeFacts(fields[0]);
      FieldValuesFacts(fields[1..]);
      assert FieldValues(fields)[1..] == FieldValues(fields[1..]);
      assert fields == [fields[0]] + fields[1..];
    }
  }

  lemma PrefixRead(buf: seq<u8>, h: MessageHeader)
    requires Holds(buf, 0, EncPrefix(h, 0, h.bigEndian)) && |buf| >= 16 && h.protocolVersion == PROTOCOL_VERSION
    ensures ReadPrefix(buf) ==
            Ok(Prefix(h.bigEndian, h.messageType, h.flags, h.protocolVersion, h.bodyLength, h.serial,
                      Word(buf, 12, h.bigEndian)))
  {
    hide Holds, EncFixed, DecFixed, Raw, Capacity, Word;
    var be := h.bigEndian;
    var head := [if be then 66 else 108, TypeCode(h.messageType), h.flags, h.protocolVersion];
    var length, serial := EncFixed(4, be, 4, h.bodyLength), EncFixed(8, be, 4, h.serial);
    HoldsConcat(buf, 0, Raw(head) + length, serial);
    HoldsConcat(buf, 0, Raw(head), length);
    HoldsRaw(buf, 0, head);
    CapacityOfWidths();
    FixedRead(buf, 4, be, 4, h.bodyLength);
    FixedRead(buf, 8, be, 4, h.serial);
    WordIsFixed(buf, 4, be);
    WordIsFixed(buf, 8, be);
    assert buf[0..4] == head;
    assert forall i | 0 <= i < 4 :: buf[i] == buf[0..4][i] == head[i];
  }

  lemma FieldArrayFacts(fields: seq<HeaderField>)
    ensures ValueType(FieldArray(fields)) == Type.Array(FIELD_TYPE) && NoEmptyStruct(Type.Array(FIELD_TYPE))
    ensures FieldsWellFormed(fields) ==> WellFormed(FieldArray(fields))
  {
    hide FieldValues, AllOfType, AllWellFormed, FieldsWellFormed;
    FieldValuesFacts(fields);
    assert FIELD_TYPE.fields[1..] == [Type.Variant] && FIELD_TYPE.fields[1..][1..] == [];
  }

  lemma FieldArrayReadBack(fields: seq<HeaderField>, buf: seq<u8>, be: bool)
    requires FieldsWellFormed(fields)
    requires var r := Enc(FieldArray(fields), 12, be); r.Ok? && Holds(buf, 12, r.value)
    ensures |buf| >= 16
    ensures var end := 12 + |Enc(FieldArray(fields), 12, be).value|;
            ReadFieldArray(buf, be) == Ok(Decoded(FieldArray(fields), end))
  {
    hide Holds, Enc, Dec, FieldValues, WellFormed, NoEmptyStruct, FieldsWellFormed;
    var whole := FieldArray(fields);
    FieldArrayFacts(fields);
    var cells := EncArrayParts(whole, 12, be);
    HoldsFits(buf, 12, Enc(whole, 12, be).value);
    WriteThenRead(whole, buf, 12, be);
  }

  /** A written header is read back, whatever follows it, and its end is a multiple of 8. */
  lemma HeaderRoundTrip(h: MessageHeader, buf: seq<u8>)
    requires h.protocolVersion == PROTOCOL_VERSION && FieldsWellFormed(h.fields)
    requires var r := EncHeader(h, 0, h.bigEndian); r.Ok? && Holds(buf, 0, r.value)
    ensures var end := |EncHeader(h, 0, h.bigEndian).value|;
            Read(buf) == Ok((h, end)) && PeekFrameLen(buf) == Ok(Some(end + h.bodyLength))
  {
    hide Holds, Enc, EncPrefix, FieldValues, FieldsOf, ReadPrefix, ReadFieldArray, Word, FieldsWellFormed;
    var be := h.bigEndian;
    var prefix := EncPrefix(h, 0, be);
    var fields := Enc(FieldArray(h.fields), 12, be).value;
    var end := 12 + |fields|;
    HoldsConcat(buf, 0, prefix + fields, Padding(end, 8));
    HoldsConcat(buf, 0, prefix, fields);
    HoldsFits(buf, end, Padding(end, 8));
    FieldArrayReadBack(h.fields, buf, be);
    PrefixRead(buf, h);
    FieldValuesFacts(h.fields);
    assert Read(buf) == Ok((h, end + PadLen(end, 8)));
    PeekAfterRead(buf);
  }

  lemma PeekAfterRead(buf: seq<u8>)
    requires Read(buf).Ok?
    ensures var (h, off) := Read(buf).value; PeekFrameLen(buf) == Ok(Some(off + h.bodyLength))
  {
    hide ReadFieldArray, FieldsOf, Word;
    FrameLengthsAgree(buf);
  }

  // ---- Fields of a header that was read ----

  lemma FieldFromValue(code: u8, value: Value)
    requires WellFormed(value)
    ensures var r := FromCodeAndValue(code, value);
            r.Ok? && r.value.Some? ==> FieldWellFormed(r.value.value) && FieldCode(r.value.value) == code
  {
    hide ValidUtf8, IsValidObjectPath, ParseSignature;
    if value.ObjectPath? {
      ObjectPathIsUtf8(value.path);
    }
  }

  lemma FieldFromElement(element: Value)
    requires WellFormed(element)
    ensures var r := FieldOf(element); r.Ok? && r.value.Some? ==> FieldWellFormed(r.value.value)
  {
    hide FromCodeAndValue, FieldWellFormed, ValidUtf8, IsValidObjectPath, ParseSignature, WithinLimits;
    if element.Struct? && |element.members| == 2 && element.members[0].Byte? {
      var second := element.members[1];
      assert element.members[1..][0] == second;
      assert AllWellFormed(element.members[1..]);
      assert WellFormed(second);
      FieldFromValue(element.members[0].b, if second.Variant? then second.inner else second);
    }
  }

  lemma {:induction false} FieldsFromElements(elements: seq<Value>)
    requires AllWellFormed(elements)
    ensures FieldsOf(elements).Ok? ==> FieldsWellFormed(FieldsOf(elements).value)
  {
    hide FieldOf, FieldWellFormed, WellFormed;
    if elements != [] {
      FieldFromElement(elements[0]);
      FieldsFromElements(elements[1..]);
    }
  }

  /** Every field of a header that was read is well formed, so it can be written again. */
  lemma ReadFieldsAreWellFormed(buf: seq<u8>)
    requires Read(buf).Ok?
    ensures FieldsWellFormed(Read(buf).value.0.fields)
  {
    hide Dec, FieldsOf, Word, Rewrites;
    var be := ReadPrefix(buf).value.bigEndian;
    ReadThenWrite(buf, 12, be, Type.Array(FIELD_TYPE));
    FieldArrayEnd(buf, be);
    FieldsFromElements(Dec(buf, 12, be, Type.Array(FIELD_TYPE)).value.value.elements);
  }
}

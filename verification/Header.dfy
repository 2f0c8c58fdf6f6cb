/** Message headers: fields as values, the fixed prefix, and the two ways to find where a frame ends. */
module Header {
  import opened Wrappers
  import opened Bytes
  import opened Types
  import opened WireSpec
  import WireProofs
  import opened Marshal
  import opened Unmarshal

  const PROTOCOL_VERSION: u8 := 1

  datatype MessageType = MethodCall | MethodReturn | Error | Signal

  function TypeCode(t: MessageType): (c: u8) {
    match t
    case MethodCall => 1
    case MethodReturn => 2
    case Error => 3
    case Signal => 4
  }

  function TypeOfCode(c: u8): (r: Result<MessageType, CoreError>)
    ensures r.Ok? <==> 1 <= c <= 4
    ensures r.Ok? ==> TypeCode(r.value) == c
  {
    match c
    case 1 => Ok(MethodCall)
    case 2 => Ok(MethodReturn)
    case 3 => Ok(MessageType.Error)
    case 4 => Ok(Signal)
    case _ => Err(InvalidSignature)
  }

  datatype HeaderField =
    | Path(path: text)
    | Interface(name: text)
    | Member(name: text)
    | ErrorName(name: text)
    | ReplySerial(number: u32)
    | Destination(name: text)
    | Sender(name: text)
    | Signature(sig: text)
    | UnixFds(number: u32)

  datatype MessageHeader = MessageHeader(
    bigEndian: bool,
    messageType: MessageType,
    flags: u8,
    protocolVersion: u8,
    bodyLength: u32,
    serial: u32,
    fields: seq<HeaderField>)

  function FieldCode(f: HeaderField): (c: u8) {
    match f
    case Path(_) => 1
    case Interface(_) => 2
    case Member(_) => 3
    case ErrorName(_) => 4
    case ReplySerial(_) => 5
    case Destination(_) => 6
    case Sender(_) => 7
    case Signature(_) => 8
    case UnixFds(_) => 9
  }

  function ToValue(f: HeaderField): (value: Value) {
    match f
    case Path(p) => Value.ObjectPath(p)
    case Interface(s) => Value.String(s)
    case Member(s) => Value.String(s)
    case ErrorName(s) => Value.String(s)
    case ReplySerial(n) => Value.UInt32(n)
    case Destination(s) => Value.String(s)
    case Sender(s) => Value.String(s)
    case Signature(sig) => Value.Signature(sig)
    case UnixFds(n) => Value.UInt32(n)
  }

  function ExpectString(value: Value, code: u8): (r: Result<text, CoreError>) {
    match value
    case String(s) => Ok(s)
    case ObjectPath(p) => Ok(p)
    case _ => Err(TypeMismatch(code))
  }

  /** Unknown field codes are skipped, known ones with the wrong type are refused. */
  function FromCodeAndValue(code: u8, value: Value): (r: Result<Option<HeaderField>, CoreError>) {
    match code
    case 1 => if value.ObjectPath? then Ok(Some(Path(value.path))) else Err(TypeMismatch(1))
    case 2 => var s :- ExpectString(value, 2); Ok(Some(Interface(s)))
    case 3 => var s :- ExpectString(value, 3); Ok(Some(Member(s)))
    case 4 => var s :- ExpectString(value, 4); Ok(Some(ErrorName(s)))
    case 5 => if value.UInt32? then Ok(Some(ReplySerial(value.u32))) else Err(TypeMismatch(5))
    case 6 => var s :- ExpectString(value, 6); Ok(Some(Destination(s)))
    case 7 => var s :- ExpectString(value, 7); Ok(Some(Sender(s)))
    case 8 => if value.Signature? then Ok(Some(HeaderField.Signature(value.sig))) else Err(TypeMismatch(8))
    case 9 => if value.UInt32? then Ok(Some(UnixFds(value.u32))) else Err(TypeMismatch(9))
    case _ => Ok(None)
  }

  // ---- Accessors: the first field of a kind ----

  function Find(fields: seq<HeaderField>, code: u8): (f: Option<HeaderField>)
    ensures f.Some? ==> f.value in fields && FieldCode(f.value) == code
  {
    if fields == [] then None
    else if FieldCode(fields[0]) == code then Some(fields[0])
    else Find(fields[1..], code)
  }

  function SignatureOf(fields: seq<HeaderField>): (sig: text) {
    var f := Find(fields, 8);
    if f.Some? then f.value.sig else []
  }

  function UnixFdsOf(fields: seq<HeaderField>): (n: u32) {
    var f := Find(fields, 9);
    if f.Some? then f.value.number else 0
  }

  /** The fields that are not of the given kinds, in order. */
  function Without(fields: seq<HeaderField>, codes: set<u8>): (rest: seq<HeaderField>)
    ensures forall f | f in rest :: f in fields && FieldCode(f) !in codes
  {
    if fields == [] then []
    else if FieldCode(fields[0]) in codes then Without(fields[1..], codes)
    else [fields[0]] + Without(fields[1..], codes)
  }

  /** Replaces every SENDER by one, at the end. */
  function SetSender(h: MessageHeader, sender: text): (r: MessageHeader) {
    h.(fields := Without(h.fields, {7}) + [Sender(sender)])
  }

  function Require(fields: seq<HeaderField>, code: u8): (r: Result<(), CoreError>) {
    if Find(fields, code).Some? then Ok(()) else Err(MissingHeaderField(code))
  }

  /** The fields each message type must have, checked in the order of the source. */
  function Validate(h: MessageHeader): (r: Result<(), CoreError>) {
    match h.messageType
    case MethodCall =>
      var _ :- Require(h.fields, 1);
      Require(h.fields, 3)
    case Signal =>
      var _ :- Require(h.fields, 1);
      var _ :- Require(h.fields, 2);
      Require(h.fields, 3)
    case Error =>
      var _ :- Require(h.fields, 4);
      Require(h.fields, 5)
    case MethodReturn => Require(h.fields, 5)
  }

  // ---- Writing ----

  const FIELD_TYPE: Type := Type.Struct([Type.Byte, Type.Variant])

  function FieldValue(f: HeaderField): (value: Value) {
    Value.Struct([Value.Byte(FieldCode(f)), Value.Variant(ToValue(f))])
  }

  function FieldValues(fields: seq<HeaderField>): (values: seq<Value>)
    ensures |values| == |fields|
  {
    if fields == [] then [] else [FieldValue(fields[0])] + FieldValues(fields[1..])
  }

  function FieldArray(fields: seq<HeaderField>): (value: Value) {
    Value.Array(FIELD_TYPE, FieldValues(fields))
  }

  /** Byte order mark, type, flags and version: one byte each. */
  function Marks(h: MessageHeader): (bs: seq<u8>)
    ensures |bs| == 4
  {
    [if h.bigEndian then 66 else 108, TypeCode(h.messageType), h.flags, h.protocolVersion]
  }

  /** The marks, then body length and serial. */
  function EncPrefix(h: MessageHeader, pos: nat, be: bool): (cells: seq<Cell>)
    ensures pos % 4 == 0 ==> |cells| == 12
  {
    var head := Raw(Marks(h));
    var length := EncFixed(pos + 4, be, 4, h.bodyLength);
    head + length + EncFixed(pos + 4 + |length|, be, 4, h.serial)
  }

  function EncHeader(h: MessageHeader, pos: nat, be: bool): (r: Result<seq<Cell>, CoreError>) {
    var prefix := EncPrefix(h, pos, be);
    var fields :- Enc(FieldArray(h.fields), pos + |prefix|, be);
    var end := pos + |prefix| + |fields|;
    Ok(prefix + fields + Padding(end, 8))
  }

  method WriteMarks(h: MessageHeader, m: Marshaler)
    modifies m
    ensures m.buf == old(m.buf) + Wire(Raw(Marks(h)))
  {
    hide Wire, Raw;
    FourBytes(m.buf, if h.bigEndian then 66 else 108, TypeCode(h.messageType), h.flags, h.protocolVersion);
    m.WriteU8(if h.bigEndian then 66 else 108);
    m.WriteU8(TypeCode(h.messageType));
    m.WriteU8(h.flags);
    m.WriteU8(h.protocolVersion);
  }

  method WritePrefix(h: MessageHeader, m: Marshaler)
    modifies m
    ensures m.buf == old(m.buf) + Wire(EncPrefix(h, |old(m.buf)|, m.bigEndian))
  {
    hide EncFixed, Wire, Raw;
    ghost var pos := |m.buf|;
    ghost var be := m.bigEndian;
    ghost var before := m.buf;
    WriteMarks(h, m);
    ghost var head := Raw(Marks(h));
    ghost var length := EncFixed(pos + 4, be, 4, h.bodyLength);
    m.WriteU32(h.bodyLength);
    Marshal.AppendWire(before, head, length);
    m.WriteU32(h.serial);
    Marshal.AppendWire(before, head + length, EncFixed(pos + 4 + |length|, be, 4, h.serial));
  }

  method Write(h: MessageHeader, m: Marshaler) returns (r: Result<(), CoreError>)
    modifies m
    ensures Marshal.Follows(old(m.buf), m.buf, r, EncHeader(h, |old(m.buf)|, m.bigEndian))
  {
    hide Enc, Wire, EncPrefix, FieldArray, Padding;
    ghost var pos := |m.buf|;
    ghost var prefix := EncPrefix(h, pos, m.bigEndian);
    WritePrefix(h, m);
    ghost var fields := Enc(FieldArray(h.fields), pos + |prefix|, m.bigEndian);
    var _ :- m.WriteValue(FieldArray(h.fields));
    WireProofs.WireConcat(prefix, fields.value);
    m.Align(8);
    WireProofs.WireConcat(prefix + fields.value, Padding(pos + |prefix| + |fields.value|, 8));
    return Ok(());
  }

  lemma FourBytes(before: seq<u8>, a: u8, b: u8, c: u8, d: u8)
    ensures before + Wire([Data(a)]) + Wire([Data(b)]) + Wire([Data(c)]) + Wire([Data(d)]) ==
            before + Wire(Raw([a, b, c, d]))
  {
  }

  // ---- Reading ----

  datatype Prefix = Prefix(
    bigEndian: bool, messageType: MessageType, flags: u8, protocolVersion: u8,
    bodyLength: u32, serial: u32, fieldsLength: u32)

  function Word(buf: seq<u8>, at: nat, be: bool): (x: u32)
    requires at + 4 <= |buf|
  {
    CapacityOfWidths();
    FixedValue(be, buf[at..at + 4])
  }

  function ReadPrefix(buf: seq<u8>): (r: Result<Prefix, CoreError>)
    ensures r.Ok? ==> |buf| >= 16 && r.value.protocolVersion == PROTOCOL_VERSION
  {
    if |buf| < 16 then Err(UnexpectedEof(16, |buf|))
    else if buf[0] != 108 && buf[0] != 66 then Err(BadByteOrder(buf[0]))
    else
      var be := buf[0] == 66;
      var messageType :- TypeOfCode(buf[1]);
      if buf[3] != PROTOCOL_VERSION then Err(BadProtocolVersion(buf[3]))
      else Ok(Prefix(be, messageType, buf[2], buf[3], Word(buf, 4, be), Word(buf, 8, be), Word(buf, 12, be)))
  }

  /** The length of the frame at the start of the buffer, once 16 bytes are there. */
  function PeekFrameLen(buf: seq<u8>): (r: Result<Option<nat>, CoreError>)
  {
    if |buf| < 16 then Ok(None)
    else
      var prefix :- ReadPrefix(buf);
      var beforePad := 16 + prefix.fieldsLength;
      Ok(Some((beforePad + 7) / 8 * 8 + prefix.bodyLength))
  }

  /** One element of the field array: skipped if it is not a pair of a byte and something. */
  function FieldOf(element: Value): (r: Result<Option<HeaderField>, CoreError>)
  {
    if !element.Struct? || |element.members| != 2 || !element.members[0].Byte? then Ok(None)
    else
      var second := element.members[1];
      FromCodeAndValue(element.members[0].b, if second.Variant? then second.inner else second)
  }

  function FieldsOf(elements: seq<Value>): (r: Result<seq<HeaderField>, CoreError>)
  {
    if elements == [] then Ok([])
    else
      var first :- FieldOf(elements[0]);
      var rest :- FieldsOf(elements[1..]);
      Ok((if first.Some? then [first.value] else []) + rest)
  }

  /** The field array of a header, as a value. */
  function ReadFieldArray(buf: seq<u8>, be: bool): (r: Result<Decoded<Value>, CoreError>)
    requires |buf| >= 16
    ensures r.Ok? ==> r.value.pos <= |buf|
  {
    Dec(buf, 12, be, Type.Array(FIELD_TYPE))
  }

  function Read(buf: seq<u8>): (r: Result<(MessageHeader, nat), CoreError>)
    ensures r.Ok? ==> r.value.1 <= |buf| && r.value.0.protocolVersion == PROTOCOL_VERSION
  {
    var p :- ReadPrefix(buf);
    var raw :- ReadFieldArray(buf, p.bigEndian);
    var fields :- FieldsOf(if raw.value.Array? then raw.value.elements else []);
    var end :- DecAlign(buf, raw.pos, 8);
    Ok((MessageHeader(p.bigEndian, p.messageType, p.flags, p.protocolVersion, p.bodyLength, p.serial, fields), end))
  }

  method CollectFields(elements: seq<Value>) returns (r: Result<seq<HeaderField>, CoreError>)
    ensures r == FieldsOf(elements)
  {
    hide FieldOf;
    var fields: seq<HeaderField> := [];
    ghost var all := FieldsOf(elements);
    assert all.Ok? ==> [] + all.value == all.value;
    for i := 0 to |elements|
      invariant match FieldsOf(elements[i..])
                case Ok(rest) => all == Ok(fields + rest)
                case Err(e) => all == Err(e)
    {
      assert elements[i..][0] == elements[i] && elements[i..][1..] == elements[i + 1..];
      var field :- FieldOf(elements[i]);
      var piece := if field.Some? then [field.value] else [];
      ghost var rest := FieldsOf(elements[i + 1..]);
      assert rest.Ok? ==> fields + (piece + rest.value) == (fields + piece) + rest.value;
      fields := fields + piece;
    }
    assert fields + [] == fields;
    return Ok(fields);
  }

  method ReadHeader(buf: seq<u8>) returns (r: Result<(MessageHeader, nat), CoreError>)
    ensures r == Read(buf)
  {
    hide Dec, DecFixed, FieldsOf, ReadPrefix, Word;
    var p :- ReadPrefix(buf);
    var u := new Unmarshaler(buf, p.bigEndian);
    u.pos := 4;
    WordIsFixed(buf, 4, p.bigEndian);
    WordIsFixed(buf, 8, p.bigEndian);
    var bodyLength := u.ReadU32();
    var serial := u.ReadU32();
    assert bodyLength.Ok? && serial.Ok?;
    var raw :- u.ReadValue(Type.Array(FIELD_TYPE));
    var fields :- CollectFields(if raw.Array? then raw.elements else []);
    var _ :- u.Align(8);
    return Ok((MessageHeader(p.bigEndian, p.messageType, p.flags, p.protocolVersion, p.bodyLength, p.serial, fields),
               u.pos));
  }

  lemma WordIsFixed(buf: seq<u8>, at: nat, be: bool)
    requires at + 4 <= |buf| && at % 4 == 0
    ensures DecFixed(buf, at, be, 4) == Ok(Decoded(Word(buf, at, be), at + 4))
  {
  }
}

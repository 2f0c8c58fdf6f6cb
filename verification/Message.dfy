/** Whole messages: serialised with a recomputed signature and descriptor count, and parsed back. */
module Message {
  import opened Wrappers
  import opened Bytes
  import opened Types
  import opened SignatureSpec
  import opened WireSpec
  import WireProofs
  import opened Header
  import Marshal
  import Unmarshal

  type Fd = x: int | -0x8000_0000 <= x < 0x8000_0000

  datatype Message = Message(header: MessageHeader, body: seq<Value>, fds: seq<Fd>)

  const COMPUTED: set<u8> := {8, 9} // SIGNATURE and UNIX_FDS

  function BodySignature(m: Message): (sig: text) {
    PrintAll(ValueTypes(m.body))
  }

  /** The fields as sent: everything but SIGNATURE and UNIX_FDS, then those two recomputed. */
  function SentFields(m: Message): (fields: seq<HeaderField>) {
    Without(m.header.fields, COMPUTED)
    + (if BodySignature(m) == [] then [] else [HeaderField.Signature(BodySignature(m))])
    + (if m.fds == [] then [] else [UnixFds(|m.fds| % 0x1_0000_0000)])
  }

  function SentHeader(m: Message, bodyLength: nat): (h: MessageHeader) {
    m.header.(bodyLength := bodyLength % 0x1_0000_0000, fields := SentFields(m))
  }

  function ToBytes(m: Message): (r: Result<seq<u8>, CoreError>)
  {
    var be := m.header.bigEndian;
    var body :- EncAll(m.body, 0, be);
    var _ :- if BodySignature(m) == [] then Ok([]) else ParseSignature(BodySignature(m));
    var header := SentHeader(m, |body|);
    var _ :- Validate(header);
    var head :- EncHeader(header, 0, be);
    Ok(Wire(head) + Wire(body))
  }

  /** The body of a frame whose header has been read; the slice itself fails if it is too short. */
  function ReadBody(buf: seq<u8>, header: MessageHeader, offset: nat): (r: Result<seq<Value>, CoreError>)
  {
    if offset + header.bodyLength > |buf| then Err(SliceOutOfRange)
    else if SignatureOf(header.fields) == [] then Ok([])
    else Unmarshal.DecBody(buf[offset..offset + header.bodyLength], SignatureOf(header.fields), header.bigEndian)
  }

  function FromBytes(buf: seq<u8>, fds: seq<Fd>): (r: Result<Message, CoreError>)
  {
    var (header, offset) :- Read(buf);
    var body :- ReadBody(buf, header, offset);
    if |fds| < UnixFdsOf(header.fields) then Err(FdIndexOutOfRange(UnixFdsOf(header.fields), |fds|))
    else Ok(Message(header, body, fds))
  }

  function WithSender(m: Message, sender: text): (r: Message) {
    m.(header := SetSender(m.header, sender))
  }

  method Serialize(m: Message) returns (r: Result<seq<u8>, CoreError>)
    ensures r == ToBytes(m)
  {
    hide EncAll, ParseSignature, EncHeader, Validate, Wire;
    var marshaled :- Marshal.MarshalBody(m.body, m.header.bigEndian);
    var (body, sig) := marshaled;
    var fields := Without(m.header.fields, COMPUTED);
    if sig != [] {
      var _ :- ParseSignature(sig);
      fields := fields + [HeaderField.Signature(sig)];
    }
    if m.fds != [] {
      fields := fields + [UnixFds(|m.fds| % 0x1_0000_0000)];
    }
    var header := m.header.(bodyLength := |body| % 0x1_0000_0000, fields := fields);
    assert fields == SentFields(m);
    var _ :- Validate(header);
    var out := new Marshal.Marshaler(header.bigEndian);
    ghost var head := EncHeader(header, 0, header.bigEndian);
    var _ :- Header.Write(header, out);
    assert [] + Wire(head.value) == Wire(head.value);
    out.Extend(body);
    WireProofs.WireRaw(body);
    return Ok(out.buf);
  }

  method Deserialize(buf: seq<u8>, fds: seq<Fd>) returns (r: Result<Message, CoreError>)
    ensures r == FromBytes(buf, fds)
  {
    hide Read, SignatureOf, Unmarshal.DecBody;
    var read :- ReadHeader(buf);
    var (header, offset) := read;
    if offset + header.bodyLength > |buf| {
      return Err(SliceOutOfRange);
    }
    var bodyBuf := buf[offset..offset + header.bodyLength];
    var sig := SignatureOf(header.fields);
    var body: seq<Value> := [];
    if sig != [] {
      body :- Unmarshal.UnmarshalBody(bodyBuf, sig, header.bigEndian);
    }
    var declared := UnixFdsOf(header.fields);
    if |fds| < declared {
      return Err(FdIndexOutOfRange(declared, |fds|));
    }
    return Ok(Message(header, body, fds));
  }
}

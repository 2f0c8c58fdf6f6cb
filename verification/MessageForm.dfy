/** Whole messages in terms of the format. */
module MessageForm {
  import opened Wrappers
  import opened Bytes
  import opened Types
  import opened SignatureSpec
  import opened WireSpec
  import opened WireReread
  import opened WireForm
  import opened Header
  import opened HeaderForm
  import opened Message
  import Unmarshal

  /** The signature a header declares: that of its first SIGNATURE field, none if there is none. */
  function DeclaredSignature(fields: seq<HeaderField>): (sig: text) {
    if fields == [] then []
    else if fields[0].Signature? then fields[0].sig
    else DeclaredSignature(fields[1..])
  }

  /** The descriptors a header declares: the number in its first UNIX_FDS field, none if there is none. */
  function DeclaredFds(fields: seq<HeaderField>): (n: nat) {
    if fields == [] then 0
    else if fields[0].UnixFds? then fields[0].number
    else DeclaredFds(fields[1..])
  }

  lemma {:induction false} DeclaredExactly(fields: seq<HeaderField>)
    ensures SignatureOf(fields) == DeclaredSignature(fields) && UnixFdsOf(fields) == DeclaredFds(fields)
  {
    if fields != [] {
      DeclaredExactly(fields[1..]);
    }
  }

  lemma AllReadExactly(buf: seq<u8>, end: nat, be: bool, tys: seq<Type>, values: seq<Value>)
    requires NoEmptyStructs(tys)
    ensures DecAll(buf, 0, be, tys) == Ok(Decoded(values, end)) <==>
              ValueTypes(values) == tys && AllLegal(values) && AllLaid(buf, 0, end, be, values)
  {
    hide DecAll, AllLaid, AllLegal, AllWellFormed, NoEmptyStructs, ValueTypes;
    AllLegalExactly(values);
    ReadThenWriteAll(buf, 0, be, tys);
    if ValueTypes(values) == tys && AllWellFormed(values) {
      AllExactly(buf, 0, end, be, values);
    }
  }

  /** The bytes of a body begin with legal values of the declared types; nothing is read without a signature. */
  ghost predicate HoldsBody(bytes: seq<u8>, be: bool, sig: text, body: seq<Value>) {
    if sig == [] then body == []
    else
      && |sig| <= 255 && sig == PrintAll(ValueTypes(body)) && AllWithinLimits(ValueTypes(body))
      && AllLegal(body) && exists last: nat :: AllLaid(bytes, 0, last, be, body)
  }

  lemma BodyReadExactly(bytes: seq<u8>, be: bool, sig: text, body: seq<Value>)
    requires sig != []
    ensures Unmarshal.DecBody(bytes, sig, be) == Ok(body) <==> HoldsBody(bytes, be, sig, body)
  {
    hide DecAll, AllLaid, AllLegal, NoEmptyStructs, ValueTypes, PrintAll, ParseSignature, AllWithinLimits;
    var parsed := ParseSignature(sig);
    ParsedTypesAreReadable(sig);
    SignatureInverse(sig, ValueTypes(body));
    if parsed.Ok? {
      var tys := parsed.value;
      var r := DecAll(bytes, 0, be, tys);
      if r.Ok? {
        AllReadExactly(bytes, r.value.pos, be, tys, r.value.value);
        SignatureInverse(sig, tys);
      }
      forall last: nat
        ensures r == Ok(Decoded(body, last)) <==>
                  ValueTypes(body) == tys && AllLegal(body) && AllLaid(bytes, 0, last, be, body)
      {
        AllReadExactly(bytes, last, be, tys, body);
      }
    }
  }

  /** Receiving, in terms of the format alone: a message is received from a buffer and some descriptors exactly when
      the buffer opens with its header, its body stands behind the header, and no fewer descriptors came than the
      header declares. */
  lemma ReceiveExactly(buf: seq<u8>, fds: seq<Fd>, m: Message)
    ensures FromBytes(buf, fds) == Ok(m) <==>
              && Opens(buf, m.header) && m.header.protocolVersion == 1 && m.fds == fds
              && DeclaredFds(m.header.fields) <= |fds|
              && exists offset: nat ::
                   && HoldsFields(buf, m.header.bigEndian, m.header.fields, offset)
                   && offset + m.header.bodyLength <= |buf|
                   && HoldsBody(buf[offset..offset + m.header.bodyLength], m.header.bigEndian,
                                DeclaredSignature(m.header.fields), m.body)
  {
    hide Read, Opens, HoldsFields, HoldsBody, SignatureOf, UnixFdsOf, Unmarshal.DecBody, DeclaredSignature, DeclaredFds;
    var r := Read(buf);
    if r.Ok? {
      HeaderReadExactly(buf, r.value.0, r.value.1);
      DeclaredExactly(r.value.0.fields);
      BodyExactly(buf, r.value.0, r.value.1, m.body);
    }
    forall offset: nat
      ensures r == Ok((m.header, offset)) <==>
                Opens(buf, m.header) && m.header.protocolVersion == 1
                && HoldsFields(buf, m.header.bigEndian, m.header.fields, offset)
    {
      HeaderReadExactly(buf, m.header, offset);
    }
  }

  lemma BodyExactly(buf: seq<u8>, h: MessageHeader, offset: nat, body: seq<Value>)
    ensures ReadBody(buf, h, offset) == Ok(body) <==>
              && offset + h.bodyLength <= |buf|
              && HoldsBody(buf[offset..offset + h.bodyLength], h.bigEndian, DeclaredSignature(h.fields), body)
  {
    hide SignatureOf, Unmarshal.DecBody, DeclaredSignature;
    DeclaredExactly(h.fields);
    var sig := SignatureOf(h.fields);
    if offset + h.bodyLength <= |buf| && sig != [] {
      BodyReadExactly(buf[offset..offset + h.bodyLength], h.bigEndian, sig, body);
    }
  }

  /** Why a frame with a good header is refused: its body reaches past the buffer, its body is not what the signature
      declares, or too few descriptors came. */
  lemma ReceiveErrors(buf: seq<u8>, fds: seq<Fd>)
    ensures Read(buf).Err? ==> FromBytes(buf, fds) == Err(Read(buf).error)
    ensures Read(buf).Ok? ==>
              var (h, offset) := Read(buf).value;
              && (offset + h.bodyLength > |buf| ==> FromBytes(buf, fds) == Err(SliceOutOfRange))
              && (ReadBody(buf, h, offset).Ok? && |fds| < DeclaredFds(h.fields) ==>
                    FromBytes(buf, fds) == Err(FdIndexOutOfRange(DeclaredFds(h.fields), |fds|)))
  {
    hide Read, SignatureOf, UnixFdsOf, Unmarshal.DecBody, DeclaredFds;
    if Read(buf).Ok? {
      DeclaredExactly(Read(buf).value.0.fields);
    }
  }
}

/** The writer: a byte buffer that is appended to, padded and, for array lengths, patched. */
module Marshal {
  import opened Wrappers
  import opened Bytes
  import opened Types
  import opened WireSpec
  import opened WireProofs
  import WireLayout

  /** The buffer has grown by what the specification says, or the same error is reported. */
  predicate Follows(before: seq<u8>, after: seq<u8>, r: Result<(), CoreError>, expected: Result<seq<Cell>, CoreError>) {
    match expected
    case Ok(cells) => r == Ok(()) && after == before + Wire(cells)
    case Err(e) => r == Err(e)
  }

  class Marshaler {
    var buf: seq<u8>
    const bigEndian: bool

    constructor (bigEndian: bool)
      ensures this.bigEndian == bigEndian && buf == []
    {
      this.bigEndian := bigEndian;
      buf := [];
    }

    method Align(n: nat)
      requires IsAlignment(n)
      modifies `buf
      ensures buf == old(buf) + Wire(Padding(|old(buf)|, n))
    {
      var rem := |buf| % n;
      if rem != 0 {
        buf := buf + seq(n - rem, _ => 0);
      }
    }

    method Extend(bs: seq<u8>)
      modifies `buf
      ensures buf == old(buf) + Wire(Raw(bs))
    {
      WireRaw(bs);
      buf := buf + bs;
    }

    method WriteFixed(n: nat, x: nat)
      requires IsAlignment(n)
      modifies `buf
      ensures buf == old(buf) + Wire(EncFixed(|old(buf)|, bigEndian, n, x))
    {
      var start := |buf|;
      Align(n);
      Extend(FixedBytes(bigEndian, n, x));
      WireConcat(Padding(start, n), Raw(FixedBytes(bigEndian, n, x)));
    }

    method WriteU8(v: u8)
      modifies `buf
      ensures buf == old(buf) + Wire([Data(v)])
    {
      buf := buf + [v];
      assert Wire([Data(v)]) == [v];
    }

    method WriteU16(v: u16)
      modifies `buf
      ensures buf == old(buf) + Wire(EncFixed(|old(buf)|, bigEndian, 2, v))
    {
      WriteFixed(2, v);
    }

    method WriteI16(v: i16)
      modifies `buf
      ensures buf == old(buf) + Wire(EncFixed(|old(buf)|, bigEndian, 2, v % 0x1_0000))
    {
      WriteU16(v % 0x1_0000);
    }

    method WriteU32(v: u32)
      modifies `buf
      ensures buf == old(buf) + Wire(EncFixed(|old(buf)|, bigEndian, 4, v))
    {
      WriteFixed(4, v);
    }

    method WriteI32(v: i32)
      modifies `buf
      ensures buf == old(buf) + Wire(EncFixed(|old(buf)|, bigEndian, 4, v % 0x1_0000_0000))
    {
      WriteU32(v % 0x1_0000_0000);
    }

    method WriteU64(v: u64)
      modifies `buf
      ensures buf == old(buf) + Wire(EncFixed(|old(buf)|, bigEndian, 8, v))
    {
      WriteFixed(8, v);
    }

    method WriteI64(v: i64)
      modifies `buf
      ensures buf == old(buf) + Wire(EncFixed(|old(buf)|, bigEndian, 8, v % 0x1_0000_0000_0000_0000))
    {
      WriteU64(v % 0x1_0000_0000_0000_0000);
    }

    /** Overwrites four bytes in place. */
    method PatchU32(at: nat, v: u32)
      requires at + 4 <= |buf|
      modifies `buf
      ensures buf == old(buf)[..at] + FixedBytes(bigEndian, 4, v) + old(buf)[at + 4..]
    {
      buf := buf[..at] + FixedBytes(bigEndian, 4, v) + buf[at + 4..];
    }

    method WriteRawString(s: text) returns (r: Result<(), CoreError>)
      modifies `buf
      ensures Follows(old(buf), buf, r, EncString(s, |old(buf)|, bigEndian))
    {
      if 0 in s {
        return Err(EmbeddedNul);
      }
      var start := |buf|;
      WriteU32(|s| % 0x1_0000_0000);
      Extend(s + [0]);
      WireConcat(EncFixed(start, bigEndian, 4, |s| % 0x1_0000_0000), Raw(s + [0]));
      return Ok(());
    }

    method WriteSignatureStr(s: text) returns (r: Result<(), CoreError>)
      modifies `buf
      ensures Follows(old(buf), buf, r, EncSignature(s))
    {
      if |s| > MAX_SIGNATURE_LEN {
        return Err(SignatureTooLong(|s|));
      }
      Extend([|s|] + s + [0]);
      return Ok(());
    }

    method WriteValue(value: Value) returns (r: Result<(), CoreError>)
      modifies `buf
      ensures Follows(old(buf), buf, r, Enc(value, |old(buf)|, bigEndian))
      decreases value, 1, 1
    {
      hide EncFixed, EncString, EncSignature, EncAll, EncArray, Wire, Raw;
      match value
      case String(s) => r := WriteRawString(s);
      case ObjectPath(s) => r := WriteRawString(s);
      case Signature(s) => r := WriteSignatureStr(s);
      case Array(_, _) => r := WriteArray(value);
      case Struct(members) => r := WriteStruct(members);
      case DictEntry(k, v) => r := WriteDictEntry(k, v);
      case Variant(inner) => r := WriteVariant(inner);
      case Boolean(v) =>
        WriteU32(if v then 1 else 0);
        return Ok(());
      case _ =>
        WriteNumber(value);
        return Ok(());
    }

    method WriteNumber(value: Value)
      requires IsNumber(ValueType(value))
      modifies `buf
      ensures buf == old(buf) + Wire(EncFixed(|old(buf)|, bigEndian, Width(ValueType(value)), Pattern(value)))
    {
      hide EncFixed, Wire;
      match value
      case Byte(v) =>
        ByteIsFixed(|buf|, bigEndian, v);
        WriteU8(v);
      case Int16(v) => WriteI16(v);
      case UInt16(v) => WriteU16(v);
      case Int32(v) => WriteI32(v);
      case UInt32(v) => WriteU32(v);
      case Int64(v) => WriteI64(v);
      case UInt64(v) => WriteU64(v);
      case Double(v) => WriteU64(v);
      case UnixFd(v) => WriteU32(v);
    }

    method WriteStruct(members: seq<Value>) returns (r: Result<(), CoreError>)
      modifies `buf
      ensures Follows(old(buf), buf, r, Enc(Value.Struct(members), |old(buf)|, bigEndian))
      decreases Value.Struct(members), 1, 0
    {
      hide EncAll, Wire, EncFixed, EncSignature, EncString;
      var start := |buf|;
      Align(8);
      ghost var cells := EncAll(members, |buf|, bigEndian);
      var _ :- WriteValues(members);
      WireConcat(Padding(start, 8), cells.value);
      return Ok(());
    }

    method WriteDictEntry(k: Value, v: Value) returns (r: Result<(), CoreError>)
      modifies `buf
      ensures Follows(old(buf), buf, r, Enc(Value.DictEntry(k, v), |old(buf)|, bigEndian))
      decreases Value.DictEntry(k, v), 1, 0
    {
      hide Enc, Wire;
      EncDictEntry(k, v, |buf|, bigEndian);
      var start := |buf|;
      Align(8);
      ghost var key := Enc(k, |buf|, bigEndian);
      var _ :- WriteValue(k);
      ghost var val := Enc(v, |buf|, bigEndian);
      WireConcat(Padding(start, 8), key.value);
      var _ :- WriteValue(v);
      WireConcat(Padding(start, 8) + key.value, val.value);
      return Ok(());
    }

    method WriteVariant(inner: Value) returns (r: Result<(), CoreError>)
      modifies `buf
      ensures Follows(old(buf), buf, r, Enc(Value.Variant(inner), |old(buf)|, bigEndian))
      decreases Value.Variant(inner), 1, 0
    {
      hide EncFixed, EncString, EncSignature, EncAll, EncArray, Wire, Print;
      var text := Print(ValueType(inner));
      ghost var sig := EncSignature(text);
      var _ :- WriteSignatureStr(text);
      ghost var cells := Enc(inner, |buf|, bigEndian);
      var _ :- WriteValue(inner);
      WireConcat(sig.value, cells.value);
      return Ok(());
    }

    /** The length is written as zero first and patched once the elements are in place. */
    method WriteArray(value: Value) returns (r: Result<(), CoreError>)
      requires value.Array?
      modifies `buf
      ensures Follows(old(buf), buf, r, Enc(value, |old(buf)|, bigEndian))
      decreases value, 1, 0
    {
      hide Enc, EncFixed, EncAll, Wire, Raw, Padding, FixedBytes;
      WireLayout.EncContainers(value, |buf|, bigEndian);
      var pos := |buf|;
      Align(4);
      var lenPos := |buf|;
      WriteU32(0);
      var afterLength := |buf|;
      Align(Alignment(value.elemType));
      var start := |buf|;
      ghost var cells := EncAll(value.elements, start, bigEndian);
      assert start == ArrayStart(pos, value.elemType);
      var _ :- WriteValues(value.elements);
      var byteLen := |buf| - start;
      if byteLen > MAX_ARRAY_LEN {
        return Err(ArrayTooLong(byteLen));
      }
      PatchU32(lenPos, byteLen);
      PatchedHead(old(buf), pos, bigEndian, Alignment(value.elemType), byteLen, Wire(cells.value));
      WireConcat(EncArrayHead(pos, bigEndian, value.elemType, byteLen), cells.value);
      return Ok(());
    }

    method WriteValues(values: seq<Value>) returns (r: Result<(), CoreError>)
      modifies `buf
      ensures Follows(old(buf), buf, r, EncAll(values, |old(buf)|, bigEndian))
      decreases values, 0
    {
      hide Enc, EncAll, Wire, Behind;
      ghost var start := |buf|;
      ghost var done: seq<Cell> := [];
      BehindNothing(EncAll(values, start, bigEndian));
      assert values[0..] == values && Wire([]) == [];
      for i := 0 to |values|
        invariant buf == old(buf) + Wire(done)
        invariant EncAll(values, start, bigEndian) == Behind(done, EncAll(values[i..], |buf|, bigEndian))
      {
        EncAllStep(done, values, i, |buf|, bigEndian);
        ghost var first := Enc(values[i], |buf|, bigEndian);
        var _ :- WriteValue(values[i]);
        AppendWire(old(buf), done, first.value);
        done := done + first.value;
      }
      EncAllEnd(done, values[|values|..], |buf|, bigEndian);
      return Ok(());
    }
  }

  /** What remains to be written, behind the cells already written. */
  function Behind(done: seq<Cell>, r: Result<seq<Cell>, CoreError>): (b: Result<seq<Cell>, CoreError>) {
    if r.Err? then r else Ok(done + r.value)
  }

  lemma BehindNothing(r: Result<seq<Cell>, CoreError>)
    ensures Behind([], r) == r
  {
    if r.Ok? {
      assert [] + r.value == r.value;
    }
  }

  lemma EncAllStep(done: seq<Cell>, values: seq<Value>, i: nat, pos: nat, be: bool)
    requires i < |values|
    ensures Behind(done, EncAll(values[i..], pos, be)) ==
            var first := Enc(values[i], pos, be);
            if first.Err? then first else Behind(done + first.value, EncAll(values[i + 1..], pos + |first.value|, be))
  {
    hide Enc;
    var here := values[i..];
    assert here[0] == values[i] && here[1..] == values[i + 1..];
    var first := Enc(values[i], pos, be);
    if first.Ok? {
      var rest := EncAll(values[i + 1..], pos + |first.value|, be);
      if rest.Ok? {
        assert done + (first.value + rest.value) == (done + first.value) + rest.value;
      }
    }
  }

  lemma EncAllEnd(done: seq<Cell>, values: seq<Value>, pos: nat, be: bool)
    requires values == []
    ensures Behind(done, EncAll(values, pos, be)) == Ok(done)
  {
    assert done + [] == done;
  }

  lemma AppendWire(before: seq<u8>, a: seq<Cell>, b: seq<Cell>)
    ensures before + Wire(a) + Wire(b) == before + Wire(a + b)
  {
    hide Wire;
    WireConcat(a, b);
  }

  lemma ByteIsFixed(pos: nat, be: bool, v: u8)
    ensures EncFixed(pos, be, 1, v) == [Data(v)]
  {
    assert LittleEndian(1, v) == [v] + LittleEndian(0, v / 0x100) == [v];
    assert Reverse([v]) == [v];
    assert FixedBytes(be, 1, v) == [v];
    assert Padding(pos, 1) == [];
  }

  /** Writing a zero length and patching it later leaves the same bytes as writing it at once. */
  lemma PatchedHead(before: seq<u8>, pos: nat, be: bool, align: nat, length: u32, elements: seq<u8>)
    requires pos == |before| && IsAlignment(align)
    ensures var lenPos := pos + PadLen(pos, 4);
            var padded := Wire(Padding(lenPos + 4, align));
            var written := before + Wire(Padding(pos, 4)) + Wire(EncFixed(lenPos, be, 4, 0)) + padded + elements;
            written[..lenPos] + FixedBytes(be, 4, length) + written[lenPos + 4..] ==
              before + (Wire(EncFixed(pos, be, 4, length) + Padding(lenPos + 4, align)) + elements)
  {
    hide FixedBytes, Wire, Raw, Padding, PadLen;
    var lenPos := pos + PadLen(pos, 4);
    var bytes := FixedBytes(be, 4, length);
    var front, back := before + Wire(Padding(pos, 4)), Wire(Padding(lenPos + 4, align)) + elements;
    WireConcat(EncFixed(pos, be, 4, length), Padding(lenPos + 4, align));
    WireConcat(Padding(pos, 4), Raw(bytes));
    WireRaw(bytes);
    AlignedAtOnce(pos);
    SpliceMiddle(front, Wire(EncFixed(lenPos, be, 4, 0)), Wire(Padding(lenPos + 4, align)), elements);
    Regroup(before, Wire(Padding(pos, 4)), bytes, Wire(Padding(lenPos + 4, align)), elements);
  }

  lemma AlignedAtOnce(pos: nat)
    ensures PadLen(pos + PadLen(pos, 4), 4) == 0
  {
  }

  lemma Regroup(a: seq<u8>, b: seq<u8>, c: seq<u8>, d: seq<u8>, e: seq<u8>)
    ensures (a + b) + c + (d + e) == a + (((b + c) + d) + e)
  {
  }

  lemma SpliceMiddle(a: seq<u8>, b: seq<u8>, c: seq<u8>, d: seq<u8>)
    ensures (a + b + c + d)[..|a|] == a && (a + b + c + d)[|a| + |b|..] == c + d
  {
  }

  /** The body of a message and its signature. */
  method MarshalBody(values: seq<Value>, bigEndian: bool) returns (r: Result<(seq<u8>, text), CoreError>)
    ensures match EncAll(values, 0, bigEndian)
            case Ok(cells) => r == Ok((Wire(cells), PrintAll(ValueTypes(values))))
            case Err(e) => r == Err(e)
  {
    var m := new Marshaler(bigEndian);
    hide EncAll, Wire, ValueTypes, PrintAll;
    ghost var cells := EncAll(values, 0, bigEndian);
    var _ :- m.WriteValues(values);
    assert [] + Wire(cells.value) == Wire(cells.value);
    return Ok((m.buf, PrintAll(ValueTypes(values))));
  }
}

/** The reader: a cursor over a byte buffer. */
module Unmarshal {
  import opened Wrappers
  import opened Bytes
  import opened Types
  import opened SignatureSpec
  import opened WireSpec
  import WireProofs
  import Signature

  /** The outcome and the new cursor are what the specification says. */
  predicate Follows<T(==)>(r: Result<T, CoreError>, pos: nat, expected: Result<Decoded<T>, CoreError>) {
    match expected
    case Ok(d) => r == Ok(d.value) && pos == d.pos
    case Err(e) => r == Err(e)
  }

  class Unmarshaler {
    const buf: seq<u8>
    const bigEndian: bool
    var pos: nat

    ghost predicate Valid()
      reads this
    {
      pos <= |buf|
    }

    constructor (buf: seq<u8>, bigEndian: bool)
      ensures Valid() && this.buf == buf && this.bigEndian == bigEndian && pos == 0
    {
      this.buf, this.bigEndian, pos := buf, bigEndian, 0;
    }

    method Need(n: nat) returns (r: Result<(), CoreError>)
      requires Valid()
      ensures r == if pos + n > |buf| then Err(UnexpectedEof(n, |buf| - pos)) else Ok(())
    {
      if pos + n > |buf| {
        return Err(UnexpectedEof(n, |buf| - pos));
      }
      return Ok(());
    }

    method Align(n: nat) returns (r: Result<(), CoreError>)
      requires Valid() && IsAlignment(n)
      modifies `pos
      ensures Valid() && old(pos) <= pos
      ensures match DecAlign(buf, old(pos), n)
              case Ok(at) => r == Ok(()) && pos == at
              case Err(e) => r == Err(e) && pos == old(pos)
    {
      var rem := pos % n;
      if rem != 0 {
        var pad := n - rem;
        var _ :- Need(pad);
        pos := pos + pad;
      }
      return Ok(());
    }

    method ReadU8() returns (r: Result<u8, CoreError>)
      requires Valid()
      modifies `pos
      ensures Valid() && old(pos) <= pos
      ensures if old(pos) < |buf| then r == Ok(buf[old(pos)]) && pos == old(pos) + 1
              else r == Err(UnexpectedEof(1, 0))
    {
      var _ :- Need(1);
      var v := buf[pos];
      pos := pos + 1;
      return Ok(v);
    }

    /** An aligned number of n bytes. */
    method ReadFixed(n: nat) returns (r: Result<nat, CoreError>)
      requires Valid() && IsAlignment(n)
      modifies `pos
      ensures Valid() && old(pos) <= pos
      ensures Follows(r, pos, DecFixed(buf, old(pos), bigEndian, n))
      ensures r.Ok? ==> r.value < Capacity(n)
    {
      var _ :- Align(n);
      var _ :- Need(n);
      var bytes := buf[pos..pos + n];
      pos := pos + n;
      return Ok(FixedValue(bigEndian, bytes));
    }

    method ReadU16() returns (r: Result<u16, CoreError>)
      requires Valid()
      modifies `pos
      ensures Valid() && old(pos) <= pos
      ensures Follows(r, pos, DecFixed(buf, old(pos), bigEndian, 2))
    {
      CapacityOfWidths();
      r := ReadFixed(2);
    }

    method ReadI16() returns (r: Result<i16, CoreError>)
      requires Valid()
      modifies `pos
      ensures Valid() && old(pos) <= pos
      ensures Follows(r, pos, DecSigned(buf, old(pos), bigEndian, 2, 0x8000))
    {
      var v :- ReadU16();
      return Ok(SignedOf(v, 0x8000));
    }

    method ReadU32() returns (r: Result<u32, CoreError>)
      requires Valid()
      modifies `pos
      ensures Valid() && old(pos) <= pos
      ensures Follows(r, pos, DecFixed(buf, old(pos), bigEndian, 4))
    {
      CapacityOfWidths();
      r := ReadFixed(4);
    }

    method ReadI32() returns (r: Result<i32, CoreError>)
      requires Valid()
      modifies `pos
      ensures Valid() && old(pos) <= pos
      ensures Follows(r, pos, DecSigned(buf, old(pos), bigEndian, 4, 0x8000_0000))
    {
      var v :- ReadU32();
      return Ok(SignedOf(v, 0x8000_0000));
    }

    method ReadU64() returns (r: Result<u64, CoreError>)
      requires Valid()
      modifies `pos
      ensures Valid() && old(pos) <= pos
      ensures Follows(r, pos, DecFixed(buf, old(pos), bigEndian, 8))
    {
      CapacityOfWidths();
      r := ReadFixed(8);
    }

    method ReadI64() returns (r: Result<i64, CoreError>)
      requires Valid()
      modifies `pos
      ensures Valid() && old(pos) <= pos
      ensures Follows(r, pos, DecSigned(buf, old(pos), bigEndian, 8, 0x8000_0000_0000_0000))
    {
      var v :- ReadU64();
      return Ok(SignedOf(v, 0x8000_0000_0000_0000));
    }

    /** len bytes of UTF-8 and a NUL. */
    method ReadText(len: nat) returns (r: Result<text, CoreError>)
      requires Valid()
      modifies `pos
      ensures Valid() && old(pos) <= pos
      ensures Follows(r, pos, DecText(buf, old(pos), len))
    {
      var _ :- Need(len + 1);
      var s := buf[pos..pos + len];
      if !ValidUtf8(s) {
        return Err(InvalidUtf8);
      }
      if buf[pos + len] != 0 {
        return Err(InvalidSignature);
      }
      pos := pos + (len + 1);
      return Ok(s);
    }

    method ReadRawString() returns (r: Result<text, CoreError>)
      requires Valid()
      modifies `pos
      ensures Valid() && old(pos) <= pos
      ensures Follows(r, pos, DecString(buf, old(pos), bigEndian))
    {
      var len :- ReadU32();
      r := ReadText(len);
    }

    method ReadSignatureStr() returns (r: Result<text, CoreError>)
      requires Valid()
      modifies `pos
      ensures Valid() && old(pos) <= pos
      ensures Follows(r, pos, DecSignature(buf, old(pos)))
    {
      var len :- ReadU8();
      r := ReadText(len);
    }

    method ReadValue(ty: Type) returns (r: Result<Value, CoreError>)
      requires Valid() && NoEmptyStruct(ty)
      modifies `pos
      ensures Valid() && old(pos) <= pos
      ensures Follows(r, pos, Dec(buf, old(pos), bigEndian, ty))
      decreases |buf| - pos, ty, 1, 1
    {
      hide Dec;
      match ty
      case Array(elem) => r := ReadArray(elem);
      case Struct(fields) => r := ReadStruct(fields);
      case DictEntry(key, val) => r := ReadDictEntry(key, val);
      case Variant => r := ReadVariant();
      case _ => r := ReadBasic(ty);
    }

    method ReadBasic(ty: Type) returns (r: Result<Value, CoreError>)
      requires Valid() && IsBasic(ty)
      modifies `pos
      ensures Valid() && old(pos) <= pos
      ensures Follows(r, pos, Dec(buf, old(pos), bigEndian, ty))
    {
      hide DecFixed, DecString, DecSignature, ParseSignature, IsValidObjectPath, Capacity;
      CapacityOfWidths();
      match ty
      case Boolean =>
        var raw :- ReadU32();
        if raw == 0 {
          return Ok(Value.Boolean(false));
        } else if raw == 1 {
          return Ok(Value.Boolean(true));
        }
        return Err(InvalidBoolean(raw));
      case String => var s :- ReadRawString(); return Ok(Value.String(s));
      case ObjectPath =>
        var s :- ReadRawString();
        if !IsValidObjectPath(s) {
          return Err(InvalidObjectPath(s));
        }
        return Ok(Value.ObjectPath(s));
      case Signature =>
        var s :- ReadSignatureStr();
        var _ :- Signature.ParseSignature(s);
        return Ok(Value.Signature(s));
      case Byte | Int16 | UInt16 | Int32 | UInt32 | Int64 | UInt64 | Double | UnixFd => r := ReadNumber(ty);
    }

    method ReadNumber(ty: Type) returns (r: Result<Value, CoreError>)
      requires Valid() && IsNumber(ty)
      modifies `pos
      ensures Valid() && old(pos) <= pos
      ensures Follows(r, pos, Dec(buf, old(pos), bigEndian, ty))
    {
      hide DecFixed, Capacity;
      CapacityOfWidths();
      match ty
      case Byte =>
        ByteIsFixed(buf, pos, bigEndian);
        var v :- ReadU8();
        return Ok(Value.Byte(v));
      case Int16 => var v :- ReadI16(); return Ok(Value.Int16(v));
      case UInt16 => var v :- ReadU16(); return Ok(Value.UInt16(v));
      case Int32 => var v :- ReadI32(); return Ok(Value.Int32(v));
      case UInt32 => var v :- ReadU32(); return Ok(Value.UInt32(v));
      case Int64 => var v :- ReadI64(); return Ok(Value.Int64(v));
      case UInt64 => var v :- ReadU64(); return Ok(Value.UInt64(v));
      case Double => var v :- ReadU64(); return Ok(Value.Double(v));
      case UnixFd => var v :- ReadU32(); return Ok(Value.UnixFd(v));
    }

    method ReadArray(elem: Type) returns (r: Result<Value, CoreError>)
      requires Valid() && NoEmptyStruct(elem)
      modifies `pos
      ensures Valid() && old(pos) <= pos
      ensures Follows(r, pos, Dec(buf, old(pos), bigEndian, Type.Array(elem)))
      decreases |buf| - pos, Type.Array(elem), 1, 0
    {
      hide Dec, DecFixed, DecElements, NoEmptyStruct, Capacity;
      WireProofs.DecArray(buf, pos, bigEndian, elem);
      var byteLen :- ReadU32();
      if byteLen > MAX_ARRAY_LEN {
        return Err(ArrayTooLong(byteLen));
      }
      var _ :- Align(Alignment(elem));
      var _ :- Need(byteLen);
      var end := pos + byteLen;
      var elements :- ReadElements(elem, end);
      if pos != end {
        return Err(InvalidSignature);
      }
      return Ok(Value.Array(elem, elements));
    }

    /** The element loop: it ends because every element takes at least one byte. */
    method ReadElements(elem: Type, end: nat) returns (r: Result<seq<Value>, CoreError>)
      requires Valid() && NoEmptyStruct(elem)
      modifies `pos
      ensures Valid() && old(pos) <= pos
      ensures Follows(r, pos, DecElements(buf, old(pos), end, bigEndian, elem))
      decreases |buf| - pos, elem, 2, 0
    {
      hide Dec, DecElements, NoEmptyStruct, Behind;
      ghost var start := pos;
      var elements: seq<Value> := [];
      BehindNothing(DecElements(buf, pos, end, bigEndian, elem));
      while pos < end
        invariant Valid() && start <= pos
        invariant DecElements(buf, start, end, bigEndian, elem) ==
                  Behind(elements, DecElements(buf, pos, end, bigEndian, elem))
        decreases |buf| - pos
      {
        DecElementsStep(elements, buf, pos, end, bigEndian, elem);
        var element :- ReadValue(elem);
        elements := elements + [element];
      }
      DecElementsEnd(elements, buf, pos, end, bigEndian, elem);
      return Ok(elements);
    }

    method ReadStruct(fields: seq<Type>) returns (r: Result<Value, CoreError>)
      requires Valid() && fields != [] && NoEmptyStructs(fields)
      modifies `pos
      ensures Valid() && old(pos) <= pos
      ensures Follows(r, pos, Dec(buf, old(pos), bigEndian, Type.Struct(fields)))
      decreases |buf| - pos, Type.Struct(fields), 1, 0
    {
      hide DecAll, DecAlign;
      var _ :- Align(8);
      var members :- ReadValues(fields);
      return Ok(Value.Struct(members));
    }

    method ReadDictEntry(key: Type, val: Type) returns (r: Result<Value, CoreError>)
      requires Valid() && NoEmptyStruct(key) && NoEmptyStruct(val)
      modifies `pos
      ensures Valid() && old(pos) <= pos
      ensures Follows(r, pos, Dec(buf, old(pos), bigEndian, Type.DictEntry(key, val)))
      decreases |buf| - pos, Type.DictEntry(key, val), 1, 0
    {
      hide Dec, DecAlign, NoEmptyStruct;
      WireProofs.DecDictEntry(buf, pos, bigEndian, key, val);
      var _ :- Align(8);
      var k :- ReadValue(key);
      var v :- ReadValue(val);
      return Ok(Value.DictEntry(k, v));
    }

    method ReadVariant() returns (r: Result<Value, CoreError>)
      requires Valid()
      modifies `pos
      ensures Valid() && old(pos) <= pos
      ensures Follows(r, pos, Dec(buf, old(pos), bigEndian, Type.Variant))
      decreases |buf| - pos, Type.Variant, 1, 0
    {
      hide Dec, DecSignature, NoEmptyStruct;
      WireProofs.DecVariant(buf, pos, bigEndian);
      var sig :- ReadSignatureStr();
      ParsedTypesAreReadable(sig);
      var ty :- Signature.ParseSingleCompleteType(sig);
      var inner :- ReadValue(ty);
      return Ok(Value.Variant(inner));
    }

    method ReadValues(tys: seq<Type>) returns (r: Result<seq<Value>, CoreError>)
      requires Valid() && NoEmptyStructs(tys)
      modifies `pos
      ensures Valid() && old(pos) <= pos
      ensures Follows(r, pos, DecAll(buf, old(pos), bigEndian, tys))
      decreases |buf| - pos, tys, 0
    {
      hide Dec, DecAll, NoEmptyStruct, NoEmptyStructs, Behind;
      ghost var start := pos;
      var values: seq<Value> := [];
      BehindNothing(DecAll(buf, pos, bigEndian, tys));
      assert tys[0..] == tys;
      for i := 0 to |tys|
        invariant Valid() && start <= pos
        invariant NoEmptyStructs(tys[i..])
        invariant DecAll(buf, start, bigEndian, tys) == Behind(values, DecAll(buf, pos, bigEndian, tys[i..]))
      {
        DecAllStep(values, buf, pos, bigEndian, tys, i);
        var value :- ReadValue(tys[i]);
        values := values + [value];
      }
      DecAllEnd(values, buf, pos, bigEndian, tys[|tys|..]);
      return Ok(values);
    }
  }

  function DecSigned(buf: seq<u8>, pos: nat, be: bool, n: nat, half: nat): (r: Result<Decoded<int>, CoreError>)
    requires pos <= |buf| && IsAlignment(n)
  {
    var x :- DecFixed(buf, pos, be, n);
    Ok(Decoded(SignedOf(x.value, half), x.pos))
  }

  lemma ByteIsFixed(buf: seq<u8>, pos: nat, be: bool)
    requires pos <= |buf|
    ensures DecFixed(buf, pos, be, 1) ==
            if pos < |buf| then Ok(Decoded(buf[pos], pos + 1)) else Err(UnexpectedEof(1, 0))
  {
    if pos < |buf| {
      var bs := buf[pos..pos + 1];
      assert bs == [buf[pos]] && Reverse(bs) == bs;
      assert LittleEndianValue(bs) == bs[0] + 0x100 * LittleEndianValue(bs[1..]) == bs[0];
    }
  }

  /** What remains to be read, behind the values already read. */
  function Behind(done: seq<Value>, r: Result<Decoded<seq<Value>>, CoreError>)
    : (b: Result<Decoded<seq<Value>>, CoreError>)
  {
    if r.Err? then r else Ok(Decoded(done + r.value.value, r.value.pos))
  }

  lemma BehindNothing(r: Result<Decoded<seq<Value>>, CoreError>)
    ensures Behind([], r) == r
  {
    if r.Ok? {
      assert [] + r.value.value == r.value.value;
    }
  }

  lemma DecElementsStep(done: seq<Value>, buf: seq<u8>, pos: nat, end: nat, be: bool, elem: Type)
    requires pos < end && pos <= |buf| && NoEmptyStruct(elem)
    ensures Behind(done, DecElements(buf, pos, end, be, elem)) ==
            var first := Dec(buf, pos, be, elem);
            if first.Err? then Err(first.error)
            else Behind(done + [first.value.value], DecElements(buf, first.value.pos, end, be, elem))
  {
    hide Dec, NoEmptyStruct;
    var first := Dec(buf, pos, be, elem);
    if first.Ok? {
      var rest := DecElements(buf, first.value.pos, end, be, elem);
      if rest.Ok? {
        assert done + ([first.value.value] + rest.value.value) == done + [first.value.value] + rest.value.value;
      }
    }
  }

  lemma DecElementsEnd(done: seq<Value>, buf: seq<u8>, pos: nat, end: nat, be: bool, elem: Type)
    requires end <= pos <= |buf| && NoEmptyStruct(elem)
    ensures Behind(done, DecElements(buf, pos, end, be, elem)) == Ok(Decoded(done, pos))
  {
    assert done + [] == done;
  }

  lemma DecAllStep(done: seq<Value>, buf: seq<u8>, pos: nat, be: bool, tys: seq<Type>, i: nat)
    requires i < |tys| && pos <= |buf| && NoEmptyStructs(tys[i..])
    ensures NoEmptyStruct(tys[i]) && NoEmptyStructs(tys[i + 1..])
    ensures Behind(done, DecAll(buf, pos, be, tys[i..])) ==
            var first := Dec(buf, pos, be, tys[i]);
            if first.Err? then Err(first.error)
            else Behind(done + [first.value.value], DecAll(buf, first.value.pos, be, tys[i + 1..]))
  {
    hide Dec, NoEmptyStruct;
    var here := tys[i..];
    assert here[0] == tys[i] && here[1..] == tys[i + 1..];
    var first := Dec(buf, pos, be, tys[i]);
    if first.Ok? {
      var rest := DecAll(buf, first.value.pos, be, tys[i + 1..]);
      if rest.Ok? {
        assert done + ([first.value.value] + rest.value.value) == done + [first.value.value] + rest.value.value;
      }
    }
  }

  lemma DecAllEnd(done: seq<Value>, buf: seq<u8>, pos: nat, be: bool, tys: seq<Type>)
    requires tys == [] && pos <= |buf| && NoEmptyStructs(tys)
    ensures Behind(done, DecAll(buf, pos, be, tys)) == Ok(Decoded(done, pos))
  {
    assert done + [] == done;
  }

  /** A body read by its signature; bytes behind the last value are ignored. */
  function DecBody(buf: seq<u8>, signature: text, be: bool): (r: Result<seq<Value>, CoreError>)
  {
    var tys :- ParseSignature(signature);
    ParsedTypesAreReadable(signature);
    var values :- DecAll(buf, 0, be, tys);
    Ok(values.value)
  }

  method UnmarshalBody(buf: seq<u8>, signature: text, bigEndian: bool) returns (r: Result<seq<Value>, CoreError>)
    ensures r == DecBody(buf, signature, bigEndian)
  {
    hide DecAll, ParseSignature;
    ParsedTypesAreReadable(signature);
    var tys :- Signature.ParseSignature(signature);
    var u := new Unmarshaler(buf, bigEndian);
    r := u.ReadValues(tys);
  }
}

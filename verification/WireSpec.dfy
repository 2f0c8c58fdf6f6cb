/**
 The wire format as two functions of the absolute offset: what the writer appends for a value,
 and what the reader makes of the bytes at an offset.

 The writer's output is a sequence of cells. Padding is a cell of its own, so that "the same bytes
 except for padding" can be said; on the wire a padding cell is a zero byte.
 */
module WireSpec {
  import opened Wrappers
  import opened Bytes
  import opened Types
  import opened SignatureSpec

  datatype Cell = Pad | Data(byte: u8)

  function Raw(bs: seq<u8>): (cells: seq<Cell>)
    ensures |cells| == |bs|
  {
    seq(|bs|, i requires 0 <= i < |bs| => Data(bs[i]))
  }

  /** The bytes of a sequence of cells. */
  function Wire(cells: seq<Cell>): (bs: seq<u8>)
    ensures |bs| == |cells|
  {
    seq(|cells|, i requires 0 <= i < |cells| => if cells[i].Data? then cells[i].byte else 0)
  }

  /** The buffer holds the cells at pos, whatever it has in the padding. */
  predicate Holds(buf: seq<u8>, pos: nat, cells: seq<Cell>) {
    && pos + |cells| <= |buf|
    && forall i | 0 <= i < |cells| :: cells[i].Data? ==> buf[pos + i] == cells[i].byte
  }

  /** The alignments of the format. */
  predicate IsAlignment(n: nat) {
    n == 1 || n == 2 || n == 4 || n == 8
  }

  function PadLen(pos: nat, n: nat): (k: nat)
    requires IsAlignment(n)
    ensures k < n && (pos + k) % n == 0
  {
    if pos % n == 0 then 0 else n - pos % n
  }

  function Padding(pos: nat, n: nat): (cells: seq<Cell>)
    requires IsAlignment(n)
    ensures |cells| == PadLen(pos, n)
  {
    seq(PadLen(pos, n), _ => Pad)
  }

  // ---- Numbers of fixed width ----

  predicate IsNumber(ty: Type) {
    ty.Byte? || ty.Int16? || ty.UInt16? || ty.Int32? || ty.UInt32? || ty.Int64? || ty.UInt64? ||
    ty.Double? || ty.UnixFd?
  }

  function Width(ty: Type): (n: nat)
    requires IsNumber(ty)
    ensures n == Alignment(ty)
  {
    match ty
    case Byte => 1
    case Int16 | UInt16 => 2
    case Int32 | UInt32 | UnixFd => 4
    case Int64 | UInt64 | Double => 8
  }

  /** The unsigned pattern of a number: signed values in two's complement. */
  function Pattern(value: Value): (x: nat)
    requires IsNumber(ValueType(value))
  {
    match value
    case Byte(b) => b
    case Int16(x) => x % 0x1_0000
    case UInt16(x) => x
    case Int32(x) => x % 0x1_0000_0000
    case UInt32(x) => x
    case Int64(x) => x % 0x1_0000_0000_0000_0000
    case UInt64(x) => x
    case Double(bits) => bits
    case UnixFd(fd) => fd
  }

  function SignedOf(x: nat, half: nat): (r: int) {
    if x < half then x else x - 2 * half
  }

  function NumberOf(ty: Type, x: nat): (value: Value)
    requires IsNumber(ty) && x < Capacity(Width(ty))
  {
    CapacityOfWidths();
    match ty
    case Byte => Value.Byte(x)
    case Int16 => Value.Int16(SignedOf(x, 0x8000))
    case UInt16 => Value.UInt16(x)
    case Int32 => Value.Int32(SignedOf(x, 0x8000_0000))
    case UInt32 => Value.UInt32(x)
    case Int64 => Value.Int64(SignedOf(x, 0x8000_0000_0000_0000))
    case UInt64 => Value.UInt64(x)
    case Double => Value.Double(x)
    case UnixFd => Value.UnixFd(x)
  }

  // ---- The writer ----

  function EncFixed(pos: nat, be: bool, n: nat, x: nat): (cells: seq<Cell>)
    requires IsAlignment(n)
    ensures |cells| == PadLen(pos, n) + n
  {
    Padding(pos, n) + Raw(FixedBytes(be, n, x))
  }

  /** A string: its length as u32 (truncated), its bytes, a NUL. */
  function EncString(s: text, pos: nat, be: bool): (r: Result<seq<Cell>, CoreError>)
  {
    if 0 in s then Err(EmbeddedNul)
    else Ok(EncFixed(pos, be, 4, |s| % 0x1_0000_0000) + Raw(s + [0]))
  }

  /** A signature: its length as one byte, its bytes, a NUL; no alignment. */
  function EncSignature(s: text): (r: Result<seq<Cell>, CoreError>)
  {
    if |s| > MAX_SIGNATURE_LEN then Err(SignatureTooLong(|s|))
    else Ok(Raw([|s|] + s + [0]))
  }

  /** Where the elements of an array written at pos start. */
  function ArrayStart(pos: nat, elemType: Type): (start: nat)
    ensures start >= pos + 4
  {
    var afterLength := pos + PadLen(pos, 4) + 4;
    afterLength + PadLen(afterLength, Alignment(elemType))
  }

  /** The length field and padding in front of the elements. */
  function EncArrayHead(pos: nat, be: bool, elemType: Type, length: nat): (cells: seq<Cell>)
    ensures pos + |cells| == ArrayStart(pos, elemType)
  {
    var afterLength := pos + PadLen(pos, 4) + 4;
    EncFixed(pos, be, 4, length) + Padding(afterLength, Alignment(elemType))
  }

  function Enc(value: Value, pos: nat, be: bool): (r: Result<seq<Cell>, CoreError>)
    decreases value, 1
  {
    if IsNumber(ValueType(value)) then Ok(EncFixed(pos, be, Width(ValueType(value)), Pattern(value)))
    else match value
    case Boolean(flag) => Ok(EncFixed(pos, be, 4, if flag then 1 else 0))
    case String(s) => EncString(s, pos, be)
    case ObjectPath(s) => EncString(s, pos, be)
    case Signature(s) => EncSignature(s)
    case Array(elemType, elements) => EncArray(elemType, EncAll(elements, ArrayStart(pos, elemType), be), pos, be)
    case Struct(members) =>
      var cells :- EncAll(members, pos + PadLen(pos, 8), be);
      Ok(Padding(pos, 8) + cells)
    case DictEntry(k, v) =>
      var keyPos := pos + PadLen(pos, 8);
      var key :- Enc(k, keyPos, be);
      var val :- Enc(v, keyPos + |key|, be);
      Ok(Padding(pos, 8) + key + val)
    case Variant(inner) =>
      var sig :- EncSignature(Print(ValueType(inner)));
      var cells :- Enc(inner, pos + |sig|, be);
      Ok(sig + cells)
  }

  /** An array, given its encoded elements. */
  function EncArray(elemType: Type, elements: Result<seq<Cell>, CoreError>, pos: nat, be: bool)
    : (r: Result<seq<Cell>, CoreError>)
  {
    var cells :- elements;
    if |cells| > MAX_ARRAY_LEN then Err(ArrayTooLong(|cells|))
    else Ok(EncArrayHead(pos, be, elemType, |cells|) + cells)
  }

  function EncAll(values: seq<Value>, pos: nat, be: bool): (r: Result<seq<Cell>, CoreError>)
    decreases values, 0
  {
    if values == [] then Ok([])
    else
      var first :- Enc(values[0], pos, be);
      var rest :- EncAll(values[1..], pos + |first|, be);
      Ok(first + rest)
  }

  // ---- The reader ----

  datatype Decoded<+T> = Decoded(value: T, pos: nat)

  function DecAlign(buf: seq<u8>, pos: nat, n: nat): (r: Result<nat, CoreError>)
    requires pos <= |buf| && IsAlignment(n)
    ensures r.Ok? ==> r.value == pos + PadLen(pos, n) && pos <= r.value <= |buf|
  {
    if pos + PadLen(pos, n) > |buf| then Err(UnexpectedEof(PadLen(pos, n), |buf| - pos))
    else Ok(pos + PadLen(pos, n))
  }

  function DecFixed(buf: seq<u8>, pos: nat, be: bool, n: nat): (r: Result<Decoded<nat>, CoreError>)
    requires pos <= |buf| && IsAlignment(n)
    ensures r.Ok? ==> pos < r.value.pos <= |buf| && r.value.value < Capacity(n)
  {
    var at :- DecAlign(buf, pos, n);
    if at + n > |buf| then Err(UnexpectedEof(n, |buf| - at))
    else Ok(Decoded(FixedValue(be, buf[at..at + n]), at + n))
  }

  /** len bytes of text and a NUL, starting at pos. */
  function DecText(buf: seq<u8>, pos: nat, len: nat): (r: Result<Decoded<text>, CoreError>)
    requires pos <= |buf|
    ensures r.Ok? ==> pos < r.value.pos <= |buf|
  {
    if pos + len + 1 > |buf| then Err(UnexpectedEof(len + 1, |buf| - pos))
    else
      var s := buf[pos..pos + len];
      if !ValidUtf8(s) then Err(InvalidUtf8)
      else if buf[pos + len] != 0 then Err(InvalidSignature)
      else Ok(Decoded(s, pos + len + 1))
  }

  function DecString(buf: seq<u8>, pos: nat, be: bool): (r: Result<Decoded<text>, CoreError>)
    requires pos <= |buf|
    ensures r.Ok? ==> pos < r.value.pos <= |buf|
  {
    var len :- DecFixed(buf, pos, be, 4);
    DecText(buf, len.pos, len.value)
  }

  function DecSignature(buf: seq<u8>, pos: nat): (r: Result<Decoded<text>, CoreError>)
    requires pos <= |buf|
    ensures r.Ok? ==> pos < r.value.pos <= |buf|
  {
    if pos + 1 > |buf| then Err(UnexpectedEof(1, |buf| - pos))
    else DecText(buf, pos + 1, buf[pos])
  }

  /** A type the reader is handed: it came from the signature parser. */
  function DecVariantType(buf: seq<u8>, pos: nat): (r: Result<Decoded<Type>, CoreError>)
    requires pos <= |buf|
    ensures r.Ok? ==> pos < r.value.pos <= |buf| && NoEmptyStruct(r.value.value)
  {
    var sig :- DecSignature(buf, pos);
    ParsedTypesAreReadable(sig.value);
    var ty :- ParseSingle(sig.value);
    Ok(Decoded(ty, sig.pos))
  }

  /** The array length and the offset of the first element. */
  function DecArrayHead(buf: seq<u8>, pos: nat, be: bool, elemType: Type): (r: Result<Decoded<nat>, CoreError>)
    requires pos <= |buf|
    ensures r.Ok? ==> pos < r.value.pos && r.value.pos + r.value.value <= |buf|
  {
    var len :- DecFixed(buf, pos, be, 4);
    if len.value > MAX_ARRAY_LEN then Err(ArrayTooLong(len.value))
    else
      var start :- DecAlign(buf, len.pos, Alignment(elemType));
      if start + len.value > |buf| then Err(UnexpectedEof(len.value, |buf| - start))
      else Ok(Decoded(len.value, start))
  }

  function DecBoolean(raw: Decoded<nat>): (r: Result<Decoded<Value>, CoreError>)
    requires raw.value < 0x1_0000_0000
    ensures r.Ok? ==> r.value.pos == raw.pos
  {
    if raw.value == 0 then Ok(Decoded(Value.Boolean(false), raw.pos))
    else if raw.value == 1 then Ok(Decoded(Value.Boolean(true), raw.pos))
    else Err(InvalidBoolean(raw.value))
  }

  function Dec(buf: seq<u8>, pos: nat, be: bool, ty: Type): (r: Result<Decoded<Value>, CoreError>)
    requires pos <= |buf| && NoEmptyStruct(ty)
    ensures r.Ok? ==> pos < r.value.pos <= |buf|
    decreases |buf| - pos, ty, 1
  {
    if IsNumber(ty) then
      var x :- DecFixed(buf, pos, be, Width(ty));
      Ok(Decoded(NumberOf(ty, x.value), x.pos))
    else match ty
    case Boolean =>
      var raw :- DecFixed(buf, pos, be, 4);
      CapacityOfWidths();
      DecBoolean(raw)
    case String =>
      var s :- DecString(buf, pos, be);
      Ok(Decoded(Value.String(s.value), s.pos))
    case ObjectPath =>
      var s :- DecString(buf, pos, be);
      if !IsValidObjectPath(s.value) then Err(InvalidObjectPath(s.value))
      else Ok(Decoded(Value.ObjectPath(s.value), s.pos))
    case Signature =>
      var s :- DecSignature(buf, pos);
      var _ :- ParseSignature(s.value);
      Ok(Decoded(Value.Signature(s.value), s.pos))
    case Array(elem) =>
      var head :- DecArrayHead(buf, pos, be, elem);
      var end := head.pos + head.value;
      var elements :- DecElements(buf, head.pos, end, be, elem);
      if elements.pos != end then Err(InvalidSignature)
      else Ok(Decoded(Value.Array(elem, elements.value), end))
    case Struct(fields) =>
      var start :- DecAlign(buf, pos, 8);
      var members :- DecAll(buf, start, be, fields);
      Ok(Decoded(Value.Struct(members.value), members.pos))
    case DictEntry(key, val) =>
      var start :- DecAlign(buf, pos, 8);
      var k :- Dec(buf, start, be, key);
      var v :- Dec(buf, k.pos, be, val);
      Ok(Decoded(Value.DictEntry(k.value, v.value), v.pos))
    case Variant =>
      var inner :- DecVariantType(buf, pos);
      var v :- Dec(buf, inner.pos, be, inner.value);
      Ok(Decoded(Value.Variant(v.value), v.pos))
  }

  /** Elements until the cursor reaches end; a last element may run past it. */
  function DecElements(buf: seq<u8>, pos: nat, end: nat, be: bool, elem: Type)
    : (r: Result<Decoded<seq<Value>>, CoreError>)
    requires pos <= |buf| && NoEmptyStruct(elem)
    ensures r.Ok? ==> pos <= r.value.pos <= |buf|
    decreases |buf| - pos, elem, 2
  {
    if pos >= end then Ok(Decoded([], pos))
    else
      var first :- Dec(buf, pos, be, elem);
      var rest :- DecElements(buf, first.pos, end, be, elem);
      Ok(Decoded([first.value] + rest.value, rest.pos))
  }

  function DecAll(buf: seq<u8>, pos: nat, be: bool, tys: seq<Type>): (r: Result<Decoded<seq<Value>>, CoreError>)
    requires pos <= |buf| && NoEmptyStructs(tys)
    ensures r.Ok? ==> pos <= r.value.pos <= |buf|
    ensures r.Ok? && tys != [] ==> pos < r.value.pos
    decreases |buf| - pos, tys, 0
  {
    if tys == [] then Ok(Decoded([], pos))
    else
      var first :- Dec(buf, pos, be, tys[0]);
      var rest :- DecAll(buf, first.pos, be, tys[1..]);
      Ok(Decoded([first.value] + rest.value, rest.pos))
  }

  // ---- Which values the writer and reader are meant for ----

  /** What Rust's types and the D-Bus type rules demand of a value, at any depth. */
  predicate WellFormed(value: Value)
    decreases value, 1
  {
    match value
    case String(s) => ValidUtf8(s) && |s| < 0x1_0000_0000
    case ObjectPath(s) => IsValidObjectPath(s) && |s| < 0x1_0000_0000
    case Signature(s) => ParseSignature(s).Ok?
    case Array(elemType, elements) =>
      AllWellFormed(elements) && AllOfType(elements, elemType)
    case Struct(members) => AllWellFormed(members)
    case DictEntry(k, v) => WellFormed(k) && WellFormed(v)
    case Variant(inner) => WellFormed(inner) && WithinLimits(ValueType(inner))
    case _ => true
  }

  predicate AllWellFormed(values: seq<Value>)
    decreases values, 0
  {
    values == [] || (WellFormed(values[0]) && AllWellFormed(values[1..]))
  }

  predicate AllOfType(values: seq<Value>, ty: Type) {
    values == [] || (ValueType(values[0]) == ty && AllOfType(values[1..], ty))
  }

  /** No string inside contains a NUL byte. */
  predicate NulFree(value: Value)
    decreases value, 1
  {
    match value
    case String(s) => 0 !in s
    case Array(_, elements) => AllNulFree(elements)
    case Struct(members) => AllNulFree(members)
    case DictEntry(k, v) => NulFree(k) && NulFree(v)
    case Variant(inner) => NulFree(inner)
    case _ => true
  }

  predicate AllNulFree(values: seq<Value>)
    decreases values, 0
  {
    values == [] || (NulFree(values[0]) && AllNulFree(values[1..]))
  }
}

/** The D-Bus type system: types, values, alignment, signatures as printed text, object paths. */
module Types {
  import opened Bytes

  const MAX_ARRAY_DEPTH: nat := 32
  const MAX_STRUCT_DEPTH: nat := 32
  const MAX_SIGNATURE_LEN: nat := 255
  const MAX_ARRAY_LEN: nat := 67_108_864
  const DEFAULT_MAX_MESSAGE_LEN: u32 := 134_217_728

  /** Errors of the core crate; diagnostic strings are dropped. */
  datatype CoreError =
    | InvalidSignature
    | SignatureTooLong(length: nat)
    | NestingTooDeep
    | InvalidObjectPath(path: text)
    | InvalidUtf8
    | EmbeddedNul
    | UnexpectedEof(needed: nat, have: nat)
    | InvalidBoolean(raw: u32)
    | ArrayTooLong(length: nat)
    | BadByteOrder(marker: u8)
    | BadProtocolVersion(version: u8)
    | MissingHeaderField(code: u8)
    | TypeMismatch(code: u8)
    | FdIndexOutOfRange(declared: nat, have: nat)
    | SliceOutOfRange  // the slice expression itself panics

  datatype Type =
    | Byte | Boolean | Int16 | UInt16 | Int32 | UInt32 | Int64 | UInt64 | Double
    | String | ObjectPath | Signature | UnixFd
    | Array(elem: Type)
    | Struct(fields: seq<Type>)
    | DictEntry(key: Type, val: Type)
    | Variant

  /** Doubles are kept as their 64-bit pattern, file descriptors as the raw 32-bit slot. */
  datatype Value =
    | Byte(b: u8)
    | Boolean(flag: bool)
    | Int16(i16: i16)
    | UInt16(u16: u16)
    | Int32(i32: i32)
    | UInt32(u32: u32)
    | Int64(i64: i64)
    | UInt64(u64: u64)
    | Double(bits: u64)
    | String(str: text)
    | ObjectPath(path: text)
    | Signature(sig: text)
    | UnixFd(fd: u32)
    | Array(elemType: Type, elements: seq<Value>)
    | Struct(members: seq<Value>)
    | DictEntry(k: Value, v: Value)
    | Variant(inner: Value)

  function Alignment(ty: Type): (n: nat)
    ensures n == 1 || n == 2 || n == 4 || n == 8
  {
    match ty
    case Byte | Signature | Variant => 1
    case Int16 | UInt16 => 2
    case Boolean | Int32 | UInt32 | UnixFd | String | ObjectPath | Array(_) => 4
    case Int64 | UInt64 | Double | Struct(_) | DictEntry(_, _) => 8
  }

  predicate IsBasic(ty: Type) {
    !ty.Array? && !ty.Struct? && !ty.DictEntry? && !ty.Variant?
  }

  /** The one-byte type code, in ASCII. */
  function Code(ty: Type): (c: u8)
    ensures c < 0x80
  {
    match ty
    case Byte => 121 // y
    case Boolean => 98 // b
    case Int16 => 110 // n
    case UInt16 => 113 // q
    case Int32 => 105 // i
    case UInt32 => 117 // u
    case Int64 => 120 // x
    case UInt64 => 116 // t
    case Double => 100 // d
    case String => 115 // s
    case ObjectPath => 111 // o
    case Signature => 103 // g
    case UnixFd => 104 // h
    case Array(_) => 97 // a
    case Struct(_) => 40 // (
    case DictEntry(_, _) => 123 // {
    case Variant => 118 // v
  }

  const OPEN_ARRAY: u8 := 97
  const OPEN_PAREN: u8 := 40
  const OPEN_BRACE: u8 := 123
  const CLOSE_PAREN: u8 := 41
  const CLOSE_BRACE: u8 := 125

  /** The signature text of a type. */
  function Print(ty: Type): (s: text)
    decreases ty, 1
  {
    match ty
    case Array(elem) => [Code(ty)] + Print(elem)
    case Struct(fields) => [Code(ty)] + PrintAll(fields) + [CLOSE_PAREN]
    case DictEntry(key, val) => [Code(ty)] + Print(key) + Print(val) + [CLOSE_BRACE]
    case _ => [Code(ty)]
  }

  function PrintAll(tys: seq<Type>): (s: text)
    decreases tys, 0
  {
    if tys == [] then [] else Print(tys[0]) + PrintAll(tys[1..])
  }

  function ValueType(value: Value): (ty: Type)
    decreases value, 1
  {
    match value
    case Byte(_) => Type.Byte
    case Boolean(_) => Type.Boolean
    case Int16(_) => Type.Int16
    case UInt16(_) => Type.UInt16
    case Int32(_) => Type.Int32
    case UInt32(_) => Type.UInt32
    case Int64(_) => Type.Int64
    case UInt64(_) => Type.UInt64
    case Double(_) => Type.Double
    case String(_) => Type.String
    case ObjectPath(_) => Type.ObjectPath
    case Signature(_) => Type.Signature
    case UnixFd(_) => Type.UnixFd
    case Array(elemType, _) => Type.Array(elemType)
    case Struct(members) => Type.Struct(ValueTypes(members))
    case DictEntry(k, v) => Type.DictEntry(ValueType(k), ValueType(v))
    case Variant(_) => Type.Variant
  }

  function ValueTypes(values: seq<Value>): (tys: seq<Type>)
    ensures |tys| == |values|
    decreases values, 0
  {
    if values == [] then [] else [ValueType(values[0])] + ValueTypes(values[1..])
  }

  /** No struct type without fields, at any depth. */
  predicate NoEmptyStruct(ty: Type)
    decreases ty, 1
  {
    match ty
    case Array(elem) => NoEmptyStruct(elem)
    case Struct(fields) => fields != [] && NoEmptyStructs(fields)
    case DictEntry(key, val) => NoEmptyStruct(key) && NoEmptyStruct(val)
    case _ => true
  }

  predicate NoEmptyStructs(tys: seq<Type>)
    decreases tys, 0
  {
    tys == [] || (NoEmptyStruct(tys[0]) && NoEmptyStructs(tys[1..]))
  }

  const SLASH: u8 := 47

  predicate PathChar(b: u8) {
    || 48 <= b <= 57 // 0-9
    || 65 <= b <= 90 // A-Z
    || 97 <= b <= 122 // a-z
    || b == 95 // _
  }

  predicate Segment(s: text) {
    s != [] && forall i | 0 <= i < |s| :: PathChar(s[i])
  }

  /** Object path validity as the source decides it: split at slashes, check each segment. */
  predicate IsValidObjectPath(s: text) {
    && s != []
    && s[0] == SLASH
    && (|| s == [SLASH]
        || (&& s[|s| - 1] != SLASH
            && var segments := Split(s[1..], SLASH);
               forall i | 0 <= i < |segments| :: Segment(segments[i])))
  }

  /** The grammar of the specification, character by character: after the leading slash only
      path characters and slashes, no two adjacent slashes, none at the end. */
  predicate PathTail(s: text) {
    s != [] && PathChar(s[0]) &&
    (|| |s| == 1
     || PathTail(s[1..])
     || (s[1] == SLASH && PathTail(s[2..])))
  }

  predicate AllSegments(pieces: seq<text>) {
    forall piece | piece in pieces :: Segment(piece)
  }

  lemma AllSegmentsCons(first: text, rest: seq<text>)
    ensures AllSegments([first] + rest) <==> Segment(first) && AllSegments(rest)
  {
    var pieces := [first] + rest;
    assert first in pieces && forall piece | piece in rest :: piece in pieces;
    assert forall piece | piece in pieces :: piece == first || piece in rest;
  }

  lemma SegmentCons(b: u8, rest: text)
    ensures Segment([b] + rest) <==> PathChar(b) && (rest == [] || Segment(rest))
  {
    var s := [b] + rest;
    assert s[0] == b && forall i | 0 <= i < |rest| :: s[i + 1] == rest[i];
    assert forall i | 0 < i < |s| :: s[i] == rest[i - 1];
  }

  lemma {:induction false} SegmentsIffTail(s: text)
    ensures AllSegments(Split(s, SLASH)) <==> PathTail(s)
  {
    hide Segment, AllSegments, PathChar;
    assert !Segment([]) && AllSegments([]) && !PathChar(SLASH) by {
      NothingInSegments();
    }
    if s == [] {
      assert Split(s, SLASH) == [[]] + [];
      AllSegmentsCons([], []);
    } else {
      var rest := Split(s[1..], SLASH);
      var first, later := rest[0], rest[1..];
      assert rest == [first] + later;
      AllSegmentsCons([], rest);
      AllSegmentsCons([s[0]] + first, later);
      AllSegmentsCons(first, later);
      SegmentCons(s[0], first);
      SegmentsIffTail(s[1..]);
      if |s| > 1 {
        assert s[1..][1..] == s[2..];
        SegmentsIffTail(s[2..]);
        assert s[1] == SLASH ==> later == Split(s[2..], SLASH);
      }
    }
  }

  lemma NothingInSegments()
    ensures !Segment([]) && AllSegments([]) && !PathChar(SLASH)
  {
  }

  /** The split-based check decides exactly the grammar. */
  lemma ObjectPathGrammar(s: text)
    ensures IsValidObjectPath(s) <==> (s != [] && s[0] == SLASH && (|s| == 1 || PathTail(s[1..])))
  {
    hide Segment;
    if s != [] && s[0] == SLASH {
      SegmentsIffTail(s[1..]);
      var segments := Split(s[1..], SLASH);
      assert (forall i | 0 <= i < |segments| :: Segment(segments[i])) <==> AllSegments(segments);
      if |s| > 1 && PathTail(s[1..]) {
        TailEndsInPathChar(s[1..]);
      }
    }
  }

  lemma {:induction false} TailEndsInPathChar(s: text)
    requires PathTail(s)
    ensures PathChar(s[|s| - 1]) && Ascii(s)
  {
    if |s| > 1 {
      if PathTail(s[1..]) {
        TailEndsInPathChar(s[1..]);
      } else {
        TailEndsInPathChar(s[2..]);
        assert s[2..][|s| - 3] == s[|s| - 1];
        assert forall i | 2 <= i < |s| :: s[i] == s[2..][i - 2];
      }
    }
  }

  lemma ObjectPathIsUtf8(s: text)
    requires IsValidObjectPath(s)
    ensures Ascii(s) && ValidUtf8(s)
  {
    ObjectPathGrammar(s);
    if |s| > 1 {
      TailEndsInPathChar(s[1..]);
    }
    AsciiIsUtf8(s);
  }

  lemma {:induction false} PrintIsAscii(ty: Type)
    ensures Print(ty) != [] && Ascii(Print(ty))
    ensures Print(ty)[0] == Code(ty)
    decreases ty, 1
  {
    match ty
    case Array(elem) => PrintIsAscii(elem);
    case Struct(fields) => PrintAllIsAscii(fields);
    case DictEntry(key, val) => PrintIsAscii(key); PrintIsAscii(val);
    case _ =>
  }

  lemma {:induction false} PrintAllIsAscii(tys: seq<Type>)
    ensures Ascii(PrintAll(tys))
    ensures tys != [] ==> PrintAll(tys) != []
    decreases tys, 0
  {
    if tys != [] {
      PrintIsAscii(tys[0]);
      PrintAllIsAscii(tys[1..]);
    }
  }
}

/** Where things stand on the wire: alignment, and independence of the absolute offset beyond it. */
module WireLayout {
  import opened Wrappers
  import opened Bytes
  import opened Types
  import opened Text
  import opened WireSpec
  import opened WireProofs

  lemma ModShift(pos: nat, k: nat)
    ensures (pos + 8 * k) % 2 == pos % 2 && (pos + 8 * k) % 4 == pos % 4 && (pos + 8 * k) % 8 == pos % 8
  {
    var q, r := pos / 8, pos % 8;
    assert pos + 8 * k == 8 * (q + k) + r;
    LowBits(q, r);
    LowBits(q + k, r);
  }

  lemma LowBits(q: nat, r: nat)
    requires r < 8
    ensures (8 * q + r) % 2 == r % 2 && (8 * q + r) % 4 == r % 4 && (8 * q + r) % 8 == r
  {
    assert 8 * q + r == 2 * (4 * q + r / 2) + r % 2;
    Remainder2(4 * q + r / 2, r % 2);
    assert 8 * q + r == 4 * (2 * q + r / 4) + r % 4;
    Remainder4(2 * q + r / 4, r % 4);
    Remainder8(q, r);
  }

  lemma Remainder2(q: nat, r: nat)
    requires r < 2
    ensures (2 * q + r) % 2 == r
  {
  }

  lemma Remainder4(q: nat, r: nat)
    requires r < 4
    ensures (4 * q + r) % 4 == r
  {
  }

  lemma Remainder8(q: nat, r: nat)
    requires r < 8
    ensures (8 * q + r) % 8 == r
  {
  }

  lemma NoPadding(pos: nat, n: nat)
    requires IsAlignment(n) && pos % 8 == 0
    ensures PadLen(pos, n) == 0
  {
    LowBits(pos / 8, 0);
  }

  lemma PadLenShift(pos: nat, n: nat, k: nat)
    requires IsAlignment(n)
    ensures PadLen(pos + 8 * k, n) == PadLen(pos, n) && Padding(pos + 8 * k, n) == Padding(pos, n)
  {
    ModShift(pos, k);
    if n == 1 {
    } else if n == 2 {
    } else if n == 4 {
    }
  }

  lemma EncFixedShift(pos: nat, be: bool, n: nat, x: nat, k: nat)
    requires IsAlignment(n)
    ensures EncFixed(pos + 8 * k, be, n, x) == EncFixed(pos, be, n, x)
  {
    PadLenShift(pos, n, k);
  }

  lemma EncArrayHeadShift(pos: nat, be: bool, elemType: Type, length: nat, k: nat)
    ensures EncArrayHead(pos + 8 * k, be, elemType, length) == EncArrayHead(pos, be, elemType, length)
    ensures ArrayStart(pos + 8 * k, elemType) == ArrayStart(pos, elemType) + 8 * k
  {
    PadLenShift(pos, 4, k);
    EncFixedShift(pos, be, 4, length, k);
    PadLenShift(pos + PadLen(pos, 4) + 4, Alignment(elemType), k);
  }

  lemma EncContainers(value: Value, pos: nat, be: bool)
    ensures value.Array? ==>
              Enc(value, pos, be) ==
              EncArray(value.elemType, EncAll(value.elements, ArrayStart(pos, value.elemType), be), pos, be)
    ensures value.Struct? ==>
              var cells := EncAll(value.members, pos + PadLen(pos, 8), be);
              Enc(value, pos, be) == if cells.Err? then cells else Ok(Padding(pos, 8) + cells.value)
    ensures value.Variant? ==>
              var sig := EncSignature(Print(ValueType(value.inner)));
              Enc(value, pos, be) ==
              if sig.Err? then sig
              else var cells := Enc(value.inner, pos + |sig.value|, be);
                   if cells.Err? then cells else Ok(sig.value + cells.value)
  {
    hide PadLen, Padding, EncFixed, EncString, EncAll, EncSignature, EncArray, ArrayStart, Print;
  }

  lemma EncShiftBasic(value: Value, pos: nat, be: bool, k: nat)
    requires !value.Array? && !value.Struct? && !value.DictEntry? && !value.Variant?
    ensures Enc(value, pos + 8 * k, be) == Enc(value, pos, be)
  {
    hide EncFixed, EncSignature;
    forall n, x: nat | IsAlignment(n)
      ensures EncFixed(pos + 8 * k, be, n, x) == EncFixed(pos, be, n, x)
    {
      EncFixedShift(pos, be, n, x, k);
    }
  }

  lemma {:induction false} EncArrayShift(value: Value, pos: nat, be: bool, k: nat)
    requires value.Array?
    ensures Enc(value, pos + 8 * k, be) == Enc(value, pos, be)
    decreases value, 0
  {
    hide Enc, EncAll, EncArrayHead, ArrayStart;
    var elements := EncAll(value.elements, ArrayStart(pos, value.elemType), be);
    EncContainers(value, pos, be);
    EncContainers(value, pos + 8 * k, be);
    EncArrayHeadShift(pos, be, value.elemType, if elements.Ok? then |elements.value| else 0, k);
    EncAllShift(value.elements, ArrayStart(pos, value.elemType), be, k);
  }

  /** Encoding depends on the offset only modulo 8: a body marshalled in a buffer of its own is the body
      marshalled in place behind any header that ends on an 8-byte boundary. */
  lemma {:induction false} EncShift(value: Value, pos: nat, be: bool, k: nat)
    ensures Enc(value, pos + 8 * k, be) == Enc(value, pos, be)
    decreases value, 1
  {
    hide Enc, EncAll, PadLen, Padding, EncSignature, Print, ArrayStart, EncArray;
    EncContainers(value, pos, be);
    EncContainers(value, pos + 8 * k, be);
    PadLenShift(pos, 8, k);
    match value
    case Array(_, _) => EncArrayShift(value, pos, be, k);
    case Struct(members) => EncAllShift(members, pos + PadLen(pos, 8), be, k);
    case DictEntry(key, val) =>
      var keyPos := pos + PadLen(pos, 8);
      EncDictEntry(key, val, pos, be);
      EncDictEntry(key, val, pos + 8 * k, be);
      EncShift(key, keyPos, be, k);
      if Enc(key, keyPos, be).Ok? {
        EncShift(val, keyPos + |Enc(key, keyPos, be).value|, be, k);
      }
    case Variant(inner) =>
      var sig := EncSignature(Print(ValueType(inner)));
      if sig.Ok? {
        EncShift(inner, pos + |sig.value|, be, k);
      }
    case _ => EncShiftBasic(value, pos, be, k);
  }

  lemma {:induction false} EncAllShift(values: seq<Value>, pos: nat, be: bool, k: nat)
    ensures EncAll(values, pos + 8 * k, be) == EncAll(values, pos, be)
    decreases values, 0
  {
    hide Enc;
    if values != [] {
      EncShift(values[0], pos, be, k);
      var first := Enc(values[0], pos, be);
      if first.Ok? {
        EncAllShift(values[1..], pos + |first.value|, be, k);
      }
    }
  }

  /** The cells of a value start with exactly the padding its type's alignment asks for. */
  predicate StartsAligned(cells: seq<Cell>, pos: nat, n: nat)
    requires IsAlignment(n)
  {
    var pad := PadLen(pos, n);
    && pad <= |cells|
    && (forall i | 0 <= i < pad :: cells[i].Pad?)
    && (pad < |cells| ==> cells[pad].Data?)
  }

  lemma FixedStartsAligned(pos: nat, be: bool, n: nat, x: nat, rest: seq<Cell>)
    requires IsAlignment(n)
    ensures StartsAligned(EncFixed(pos, be, n, x) + rest, pos, n)
  {
    hide FixedBytes;
    var cells := EncFixed(pos, be, n, x) + rest;
    assert cells[PadLen(pos, n)] == Raw(FixedBytes(be, n, x))[0];
  }

  lemma BasicStartsAligned(value: Value, pos: nat, be: bool)
    requires !value.Array? && !value.Struct? && !value.DictEntry? && !value.Variant?
    ensures Enc(value, pos, be).Ok? ==> StartsAligned(Enc(value, pos, be).value, pos, Alignment(ValueType(value)))
  {
    hide FixedBytes, EncFixed, StartsAligned;
    if IsNumber(ValueType(value)) {
      var n := Width(ValueType(value));
      FixedStartsAligned(pos, be, n, Pattern(value), []);
      assert EncFixed(pos, be, n, Pattern(value)) + [] == EncFixed(pos, be, n, Pattern(value));
    } else if value.Boolean? {
      var x := if value.flag then 1 else 0;
      FixedStartsAligned(pos, be, 4, x, []);
      assert EncFixed(pos, be, 4, x) + [] == EncFixed(pos, be, 4, x);
    } else if value.Signature? {
      ByteStartsAligned(Raw([|value.sig| % 0x100] + value.sig + [0]), pos);
    } else {
      var s := if value.String? then value.str else value.path;
      FixedStartsAligned(pos, be, 4, |s| % 0x1_0000_0000, Raw(s + [0]));
    }
  }

  lemma ByteStartsAligned(cells: seq<Cell>, pos: nat)
    requires cells != [] && cells[0].Data?
    ensures StartsAligned(cells, pos, 1)
  {
  }

  lemma PaddedStartsAligned(pos: nat, n: nat, cells: seq<Cell>)
    requires IsAlignment(n) && (cells != [] ==> cells[0].Data?)
    ensures StartsAligned(Padding(pos, n) + cells, pos, n)
  {
  }

  lemma ArrayStartsAligned(value: Value, pos: nat, be: bool)
    requires value.Array?
    ensures Enc(value, pos, be).Ok? ==> StartsAligned(Enc(value, pos, be).value, pos, 4)
  {
    hide Enc, EncAll, EncFixed, ArrayStart, StartsAligned, Padding, PadLen;
    if Enc(value, pos, be).Ok? {
      EncContainers(value, pos, be);
      var cells := EncAll(value.elements, ArrayStart(pos, value.elemType), be).value;
      var rest := Padding(pos + PadLen(pos, 4) + 4, Alignment(value.elemType)) + cells;
      FixedStartsAligned(pos, be, 4, |cells|, rest);
      assert EncArrayHead(pos, be, value.elemType, |cells|) + cells == EncFixed(pos, be, 4, |cells|) + rest;
    }
  }

  lemma VariantStartsAligned(value: Value, pos: nat, be: bool)
    requires value.Variant?
    ensures Enc(value, pos, be).Ok? ==> StartsAligned(Enc(value, pos, be).value, pos, 1)
  {
    hide Enc, StartsAligned, Print;
    if Enc(value, pos, be).Ok? {
      EncContainers(value, pos, be);
      ByteStartsAligned(Enc(value, pos, be).value, pos);
    }
  }

  /** Every value starts at its natural alignment, after padding and nothing else. */
  lemma {:induction false} EncStartsAligned(value: Value, pos: nat, be: bool)
    ensures Enc(value, pos, be).Ok? ==> StartsAligned(Enc(value, pos, be).value, pos, Alignment(ValueType(value)))
    decreases value, 1
  {
    hide Enc, EncAll, Print, EncFixed, ArrayStart, StartsAligned, Padding, PadLen, Raw, EncArray, EncSignature;
    if Enc(value, pos, be).Ok? {
      EncContainers(value, pos, be);
      match value
      case Array(_, _) => ArrayStartsAligned(value, pos, be);
      case Struct(members) =>
        var start := pos + PadLen(pos, 8);
        EncAllStartsWithData(members, start, be);
        PaddedStartsAligned(pos, 8, EncAll(members, start, be).value);
      case DictEntry(key, val) =>
        var start := pos + PadLen(pos, 8);
        EncDictEntry(key, val, pos, be);
        DictEntryStartsWithData(key, val, start, be);
        var k := Enc(key, start, be).value;
        var v := Enc(val, start + |k|, be).value;
        PaddedStartsAligned(pos, 8, k + v);
        assert Padding(pos, 8) + (k + v) == Padding(pos, 8) + k + v;
      case Variant(_) => VariantStartsAligned(value, pos, be);
      case _ => BasicStartsAligned(value, pos, be);
    }
  }

  lemma {:induction false} EncStartsWithData(value: Value, pos: nat, be: bool)
    requires pos % 8 == 0 && Enc(value, pos, be).Ok?
    ensures Enc(value, pos, be).value != [] ==> Enc(value, pos, be).value[0].Data?
    decreases value, 2
  {
    hide Enc, PadLen, ValueType, Alignment;
    EncStartsAligned(value, pos, be);
    NoPadding(pos, Alignment(ValueType(value)));
  }

  lemma {:induction false} DictEntryStartsWithData(key: Value, val: Value, pos: nat, be: bool)
    requires pos % 8 == 0 && Enc(key, pos, be).Ok? && Enc(val, pos + |Enc(key, pos, be).value|, be).Ok?
    ensures var k := Enc(key, pos, be).value;
            var v := Enc(val, pos + |k|, be).value;
            k + v != [] ==> (k + v)[0].Data?
    decreases Value.DictEntry(key, val), 0
  {
    hide Enc;
    EncStartsWithData(key, pos, be);
    var k := Enc(key, pos, be).value;
    if k == [] {
      EncStartsWithData(val, pos, be);
    }
  }

  lemma {:induction false} EncAllStartsWithData(values: seq<Value>, pos: nat, be: bool)
    requires pos % 8 == 0
    ensures var cells := EncAll(values, pos, be); cells.Ok? && cells.value != [] ==> cells.value[0].Data?
    decreases values, 0
  {
    hide Enc;
    if values != [] && EncAll(values, pos, be).Ok? {
      EncStartsWithData(values[0], pos, be);
      if Enc(values[0], pos, be).value == [] {
        EncAllStartsWithData(values[1..], pos, be);
      }
    }
  }

  /** The type codes, spelled as in the D-Bus Specification. */
  lemma BasicTypeCodes()
    ensures Print(Type.Byte) == Txt("y") && Print(Type.Boolean) == Txt("b") && Print(Type.Int16) == Txt("n")
    ensures Print(Type.UInt16) == Txt("q") && Print(Type.Int32) == Txt("i") && Print(Type.UInt32) == Txt("u")
    ensures Print(Type.Int64) == Txt("x") && Print(Type.UInt64) == Txt("t") && Print(Type.Double) == Txt("d")
    ensures Print(Type.String) == Txt("s") && Print(Type.ObjectPath) == Txt("o") && Print(Type.Signature) == Txt("g")
    ensures Print(Type.UnixFd) == Txt("h") && Print(Type.Variant) == Txt("v")
  {
  }

  /** The container codes stand around or in front of what they contain. */
  lemma ContainerTypeCodes(elem: Type, fields: seq<Type>, key: Type, val: Type)
    ensures Print(Type.Array(elem)) == Txt("a") + Print(elem)
    ensures Print(Type.Struct(fields)) == Txt("(") + PrintAll(fields) + Txt(")")
    ensures Print(Type.DictEntry(key, val)) == Txt("{") + Print(key) + Print(val) + Txt("}")
  {
    assert Txt("a") == [97] && Txt("(") == [40] && Txt(")") == [41] && Txt("{") == [123] && Txt("}") == [125];
  }
}

/** The reader and the writer describe the same relation between values and bytes. */
module WireProofs {
  import opened Wrappers
  import opened Bytes
  import opened Types
  import opened SignatureSpec
  import opened WireSpec

  lemma HoldsConcat(buf: seq<u8>, pos: nat, a: seq<Cell>, b: seq<Cell>)
    ensures Holds(buf, pos, a + b) <==> Holds(buf, pos, a) && Holds(buf, pos + |a|, b)
  {
    var c := a + b;
    if Holds(buf, pos, c) {
      forall i | 0 <= i < |a| && a[i].Data? ensures buf[pos + i] == a[i].byte {
        assert c[i] == a[i];
      }
      forall i | 0 <= i < |b| && b[i].Data? ensures buf[pos + |a| + i] == b[i].byte {
        assert c[|a| + i] == b[i];
      }
    }
    if Holds(buf, pos, a) && Holds(buf, pos + |a|, b) {
      forall i | 0 <= i < |c| && c[i].Data? ensures buf[pos + i] == c[i].byte {
        if i >= |a| {
          assert c[i] == b[i - |a|];
        }
      }
    }
  }

  lemma HoldsRaw(buf: seq<u8>, pos: nat, bs: seq<u8>)
    ensures Holds(buf, pos, Raw(bs)) <==> pos + |bs| <= |buf| && buf[pos..pos + |bs|] == bs
  {
    var cells := Raw(bs);
    if pos + |bs| <= |buf| {
      assert forall i | 0 <= i < |bs| :: cells[i] == Data(bs[i]);
      if Holds(buf, pos, cells) {
        assert buf[pos..pos + |bs|] == bs;
      }
    }
  }

  lemma HoldsFits(buf: seq<u8>, pos: nat, cells: seq<Cell>)
    requires Holds(buf, pos, cells)
    ensures pos + |cells| <= |buf|
  {
  }

  lemma HoldsPadding(buf: seq<u8>, pos: nat, n: nat)
    requires IsAlignment(n)
    ensures Holds(buf, pos, Padding(pos, n)) <==> pos + PadLen(pos, n) <= |buf|
  {
  }

  /** A buffer ending in the wire form of cells holds them, and zero padding is as good as any. */
  lemma WireHolds(prefix: seq<u8>, cells: seq<Cell>, rest: seq<u8>)
    ensures Holds(prefix + Wire(cells) + rest, |prefix|, cells)
  {
  }

  lemma WireConcat(a: seq<Cell>, b: seq<Cell>)
    ensures Wire(a + b) == Wire(a) + Wire(b)
  {
  }

  lemma WireRaw(bs: seq<u8>)
    ensures Wire(Raw(bs)) == bs
  {
  }

  // ---- Numbers ----

  lemma FixedRead(buf: seq<u8>, pos: nat, be: bool, n: nat, x: nat)
    requires IsAlignment(n) && x < Capacity(n) && pos <= |buf|
    requires Holds(buf, pos, EncFixed(pos, be, n, x))
    ensures DecFixed(buf, pos, be, n) == Ok(Decoded(x, pos + |EncFixed(pos, be, n, x)|))
  {
    hide Holds, FixedBytes, FixedValue, Raw, Padding, PadLen, Capacity;
    var at := pos + PadLen(pos, n);
    HoldsConcat(buf, pos, Padding(pos, n), Raw(FixedBytes(be, n, x)));
    HoldsRaw(buf, at, FixedBytes(be, n, x));
    FixedInverse(be, n, x);
  }

  lemma FixedWritten(buf: seq<u8>, pos: nat, be: bool, n: nat)
    requires IsAlignment(n) && pos <= |buf|
    ensures var r := DecFixed(buf, pos, be, n);
            r.Ok? ==> var cells := EncFixed(pos, be, n, r.value.value);
                      r.value.pos == pos + |cells| && Holds(buf, pos, cells)
  {
    hide Holds, FixedBytes, FixedValue, Raw, Padding, PadLen, Capacity;
    var r := DecFixed(buf, pos, be, n);
    if r.Ok? {
      var at := pos + PadLen(pos, n);
      var bs := buf[at..at + n];
      FixedUnique(be, bs);
      HoldsRaw(buf, at, bs);
      HoldsPadding(buf, pos, n);
      HoldsConcat(buf, pos, Padding(pos, n), Raw(bs));
    }
  }

  lemma NumberOfPattern(value: Value)
    requires IsNumber(ValueType(value))
    ensures Pattern(value) < Capacity(Width(ValueType(value)))
    ensures NumberOf(ValueType(value), Pattern(value)) == value
  {
    CapacityOfWidths();
  }

  lemma PatternOfNumber(ty: Type, x: nat)
    requires IsNumber(ty) && x < Capacity(Width(ty))
    ensures ValueType(NumberOf(ty, x)) == ty && Pattern(NumberOf(ty, x)) == x
    ensures WellFormed(NumberOf(ty, x)) && NulFree(NumberOf(ty, x))
  {
    CapacityOfWidths();
  }

  // ---- Text ----

  lemma TextRead(buf: seq<u8>, pos: nat, s: text)
    requires pos <= |buf| && ValidUtf8(s) && Holds(buf, pos, Raw(s + [0]))
    ensures DecText(buf, pos, |s|) == Ok(Decoded(s, pos + |s| + 1))
  {
    hide ValidUtf8, Raw, Holds;
    HoldsRaw(buf, pos, s + [0]);
    FrontOfSlice(buf, pos, s, 0);
  }

  lemma FrontOfSlice(buf: seq<u8>, pos: nat, s: seq<u8>, last: u8)
    requires pos + |s| + 1 <= |buf| && buf[pos..pos + |s| + 1] == s + [last]
    ensures buf[pos..pos + |s|] == s && buf[pos + |s|] == last
  {
    var there := buf[pos..pos + |s| + 1];
    assert there[..|s|] == s && there[|s|] == last;
    assert buf[pos..pos + |s|] == there[..|s|];
  }

  lemma TextWritten(buf: seq<u8>, pos: nat, len: nat)
    requires pos <= |buf|
    ensures var r := DecText(buf, pos, len);
            r.Ok? ==> var s := r.value.value;
                      |s| == len && ValidUtf8(s) && r.value.pos == pos + len + 1 && Holds(buf, pos, Raw(s + [0]))
  {
    hide ValidUtf8, Raw, Holds;
    var r := DecText(buf, pos, len);
    if r.Ok? {
      assert buf[pos..pos + len + 1] == buf[pos..pos + len] + [buf[pos + len]];
      HoldsRaw(buf, pos, r.value.value + [0]);
    }
  }

  lemma StringRead(buf: seq<u8>, pos: nat, be: bool, s: text)
    requires pos <= |buf| && ValidUtf8(s) && |s| < 0x1_0000_0000
    requires var r := EncString(s, pos, be); r.Ok? && Holds(buf, pos, r.value)
    ensures DecString(buf, pos, be) == Ok(Decoded(s, pos + |EncString(s, pos, be).value|))
  {
    hide ValidUtf8, DecFixed, DecText, Holds, EncFixed;
    CapacityOfWidths();
    HoldsConcat(buf, pos, EncFixed(pos, be, 4, |s|), Raw(s + [0]));
    FixedRead(buf, pos, be, 4, |s|);
    TextRead(buf, pos + |EncFixed(pos, be, 4, |s|)|, s);
  }

  lemma StringWritten(buf: seq<u8>, pos: nat, be: bool)
    requires pos <= |buf|
    ensures var r := DecString(buf, pos, be);
            r.Ok? ==> var s := r.value.value;
                      && ValidUtf8(s) && |s| < 0x1_0000_0000
                      && (0 !in s ==> var w := EncString(s, pos, be);
                            w.Ok? && r.value.pos == pos + |w.value| && Holds(buf, pos, w.value))
  {
    hide ValidUtf8, DecFixed, DecText, Holds, EncFixed;
    var r := DecString(buf, pos, be);
    if r.Ok? {
      var len := DecFixed(buf, pos, be, 4).value;
      CapacityOfWidths();
      FixedWritten(buf, pos, be, 4);
      TextWritten(buf, len.pos, len.value);
      HoldsConcat(buf, pos, EncFixed(pos, be, 4, len.value), Raw(r.value.value + [0]));
    }
  }

  lemma SignatureRead(buf: seq<u8>, pos: nat, s: text)
    requires pos <= |buf| && ValidUtf8(s) && |s| <= MAX_SIGNATURE_LEN
    requires Holds(buf, pos, Raw([|s|] + s + [0]))
    ensures DecSignature(buf, pos) == Ok(Decoded(s, pos + |s| + 2))
  {
    hide ValidUtf8, Holds, DecText;
    assert [|s|] + s + [0] == [|s|] + (s + [0]);
    assert Raw([|s|] + s + [0]) == Raw([|s|]) + Raw(s + [0]);
    HoldsConcat(buf, pos, Raw([|s|]), Raw(s + [0]));
    HoldsRaw(buf, pos, [|s|]);
    assert buf[pos] == buf[pos..pos + 1][0];
    TextRead(buf, pos + 1, s);
  }

  lemma SignatureWritten(buf: seq<u8>, pos: nat)
    requires pos <= |buf|
    ensures var r := DecSignature(buf, pos);
            r.Ok? ==> var s := r.value.value;
                      && |s| <= MAX_SIGNATURE_LEN && r.value.pos == pos + |s| + 2
                      && Holds(buf, pos, Raw([|s|] + s + [0]))
  {
    hide ValidUtf8, Holds, DecText;
    var r := DecSignature(buf, pos);
    if r.Ok? {
      var s := r.value.value;
      TextWritten(buf, pos + 1, buf[pos]);
      assert buf[pos..pos + 1] == [|s|];
      HoldsRaw(buf, pos, [|s|]);
      HoldsConcat(buf, pos, Raw([|s|]), Raw(s + [0]));
      assert [|s|] + s + [0] == [|s|] + (s + [0]);
      assert Raw([|s|] + s + [0]) == Raw([|s|]) + Raw(s + [0]);
    }
  }

  /** A variant's type code is read back exactly when the type is within the limits. */
  lemma VariantTypeRead(buf: seq<u8>, pos: nat, ty: Type)
    requires pos <= |buf| && WithinLimits(ty)
    requires var r := EncSignature(Print(ty)); r.Ok? && Holds(buf, pos, r.value)
    ensures NoEmptyStruct(ty)
    ensures DecVariantType(buf, pos) == Ok(Decoded(ty, pos + |EncSignature(Print(ty)).value|))
  {
    hide ValidUtf8, Holds, Print, DecSignature, ParseSingle, Grammatical;
    PrintIsAscii(ty);
    AsciiIsUtf8(Print(ty));
    SignatureRead(buf, pos, Print(ty));
    SingleInverse(Print(ty), ty);
    GrammaticalHasNoEmptyStruct(ty, false);
  }

  lemma VariantTypeWritten(buf: seq<u8>, pos: nat)
    requires pos <= |buf|
    ensures var r := DecVariantType(buf, pos);
            r.Ok? ==> var ty := r.value.value; var w := EncSignature(Print(ty));
                      && WithinLimits(ty) && w.Ok?
                      && r.value.pos == pos + |w.value| && Holds(buf, pos, w.value)
  {
    hide ValidUtf8, Holds, Print, DecSignature, ParseSingle, WithinLimits;
    var r := DecVariantType(buf, pos);
    if r.Ok? {
      SignatureWritten(buf, pos);
      SingleInverse(DecSignature(buf, pos).value.value, r.value.value);
    }
  }

  lemma ArrayHeadRead(buf: seq<u8>, pos: nat, be: bool, elem: Type, length: nat)
    requires pos <= |buf| && length <= MAX_ARRAY_LEN
    requires Holds(buf, pos, EncArrayHead(pos, be, elem, length))
    requires ArrayStart(pos, elem) + length <= |buf|
    ensures DecArrayHead(buf, pos, be, elem) == Ok(Decoded(length, ArrayStart(pos, elem)))
  {
    hide Holds, DecFixed, EncFixed, Capacity;
    CapacityOfWidths();
    var afterLength := pos + PadLen(pos, 4) + 4;
    HoldsConcat(buf, pos, EncFixed(pos, be, 4, length), Padding(afterLength, Alignment(elem)));
    FixedRead(buf, pos, be, 4, length);
  }

  lemma ArrayHeadWritten(buf: seq<u8>, pos: nat, be: bool, elem: Type)
    requires pos <= |buf|
    ensures var r := DecArrayHead(buf, pos, be, elem);
            r.Ok? ==> && r.value.value <= MAX_ARRAY_LEN && r.value.pos == ArrayStart(pos, elem)
                      && Holds(buf, pos, EncArrayHead(pos, be, elem, r.value.value))
  {
    hide Holds, DecFixed, Capacity, FixedBytes;
    var r := DecArrayHead(buf, pos, be, elem);
    if r.Ok? {
      var length := r.value.value;
      var afterLength := pos + PadLen(pos, 4) + 4;
      FixedWritten(buf, pos, be, 4);
      assert Holds(buf, afterLength, Padding(afterLength, Alignment(elem))) by {
        HoldsPadding(buf, afterLength, Alignment(elem));
      }
      HoldsConcat(buf, pos, EncFixed(pos, be, 4, length), Padding(afterLength, Alignment(elem)));
    }
  }

  // ---- Reading what was written ----

  predicate ReadsAs(buf: seq<u8>, pos: nat, be: bool, value: Value, cells: seq<Cell>)
    requires pos <= |buf| && NoEmptyStruct(ValueType(value))
  {
    Dec(buf, pos, be, ValueType(value)) == Ok(Decoded(value, pos + |cells|))
  }

  lemma EncDictEntry(k: Value, v: Value, pos: nat, be: bool)
    ensures var keyPos := pos + PadLen(pos, 8);
            var key := Enc(k, keyPos, be);
            Enc(Value.DictEntry(k, v), pos, be) ==
            if key.Err? then key
            else var val := Enc(v, keyPos + |key.value|, be);
                 if val.Err? then val else Ok(Padding(pos, 8) + key.value + val.value)
  {
    hide PadLen, Padding, EncFixed, EncString, EncAll, EncSignature, EncArray, ArrayStart, Print, Width, Pattern;
  }

  lemma EncVariantParts(value: Value, pos: nat, be: bool) returns (sig: seq<Cell>, cells: seq<Cell>)
    requires value.Variant? && Enc(value, pos, be).Ok?
    ensures EncSignature(Print(ValueType(value.inner))) == Ok(sig)
    ensures Enc(value.inner, pos + |sig|, be) == Ok(cells)
    ensures Enc(value, pos, be) == Ok(sig + cells)
  {
    hide PadLen, EncFixed, EncString, EncAll, EncSignature;
    sig := EncSignature(Print(ValueType(value.inner))).value;
    cells := Enc(value.inner, pos + |sig|, be).value;
  }

  lemma EncArrayParts(value: Value, pos: nat, be: bool) returns (cells: seq<Cell>)
    requires value.Array? && Enc(value, pos, be).Ok?
    ensures EncAll(value.elements, ArrayStart(pos, value.elemType), be) == Ok(cells)
    ensures |cells| <= MAX_ARRAY_LEN
    ensures Enc(value, pos, be) == Ok(EncArrayHead(pos, be, value.elemType, |cells|) + cells)
  {
    hide PadLen, EncFixed, EncAll;
    cells := EncAll(value.elements, ArrayStart(pos, value.elemType), be).value;
  }

  lemma EncStructParts(value: Value, pos: nat, be: bool) returns (cells: seq<Cell>)
    requires value.Struct? && Enc(value, pos, be).Ok?
    ensures EncAll(value.members, pos + PadLen(pos, 8), be) == Ok(cells)
    ensures Enc(value, pos, be) == Ok(Padding(pos, 8) + cells)
  {
    hide PadLen, EncFixed, EncAll;
    cells := EncAll(value.members, pos + PadLen(pos, 8), be).value;
  }

  // The reader's outcome for each container, in terms of its parts.

  lemma DecStruct(buf: seq<u8>, pos: nat, be: bool, fields: seq<Type>)
    requires pos <= |buf| && fields != [] && NoEmptyStructs(fields)
    ensures var start := DecAlign(buf, pos, 8);
            Dec(buf, pos, be, Type.Struct(fields)) ==
            if start.Err? then Err(start.error)
            else var members := DecAll(buf, start.value, be, fields);
                 if members.Err? then Err(members.error)
                 else Ok(Decoded(Value.Struct(members.value.value), members.value.pos))
  {
    hide DecAll, DecAlign;
  }

  lemma DecDictEntry(buf: seq<u8>, pos: nat, be: bool, key: Type, val: Type)
    requires pos <= |buf| && NoEmptyStruct(key) && NoEmptyStruct(val)
    ensures var start := DecAlign(buf, pos, 8);
            Dec(buf, pos, be, Type.DictEntry(key, val)) ==
            if start.Err? then Err(start.error)
            else var k := Dec(buf, start.value, be, key);
                 if k.Err? then k
                 else var v := Dec(buf, k.value.pos, be, val);
                      if v.Err? then v
                      else Ok(Decoded(Value.DictEntry(k.value.value, v.value.value), v.value.pos))
  {
    hide DecAll, DecElements, DecArrayHead, DecVariantType, DecString, DecFixed, DecSignature, DecAlign;
  }

  lemma DecArray(buf: seq<u8>, pos: nat, be: bool, elem: Type)
    requires pos <= |buf| && NoEmptyStruct(elem)
    ensures var head := DecArrayHead(buf, pos, be, elem);
            Dec(buf, pos, be, Type.Array(elem)) ==
            if head.Err? then Err(head.error)
            else var end := head.value.pos + head.value.value;
                 var elements := DecElements(buf, head.value.pos, end, be, elem);
                 if elements.Err? then Err(elements.error)
                 else if elements.value.pos != end then Err(InvalidSignature)
                 else Ok(Decoded(Value.Array(elem, elements.value.value), end))
  {
    hide DecArrayHead, DecElements;
  }

  lemma DecVariant(buf: seq<u8>, pos: nat, be: bool)
    requires pos <= |buf|
    ensures var ty := DecVariantType(buf, pos);
            Dec(buf, pos, be, Type.Variant) ==
            if ty.Err? then Err(ty.error)
            else var inner := Dec(buf, ty.value.pos, be, ty.value.value);
                 if inner.Err? then inner
                 else Ok(Decoded(Value.Variant(inner.value.value), inner.value.pos))
  {
    hide DecVariantType, DecAll, DecElements, DecArrayHead, DecString, DecFixed, DecSignature, NoEmptyStruct;
  }

  /** The round trip, at any offset of any buffer that holds the value's cells. */
  lemma {:induction false} WriteThenRead(value: Value, buf: seq<u8>, pos: nat, be: bool)
    requires pos <= |buf| && WellFormed(value) && NoEmptyStruct(ValueType(value))
    requires var r := Enc(value, pos, be); r.Ok? && Holds(buf, pos, r.value)
    ensures ReadsAs(buf, pos, be, value, Enc(value, pos, be).value)
    decreases value, 1, 1
  {
    hide Enc, Dec, Holds, WellFormed, NoEmptyStruct, ReadsAs;
    match value
    case Array(_, _) => WriteThenReadArray(value, buf, pos, be);
    case Struct(_) => WriteThenReadStruct(value, buf, pos, be);
    case DictEntry(_, _) => WriteThenReadDictEntry(value, buf, pos, be);
    case Variant(_) => WriteThenReadVariant(value, buf, pos, be);
    case _ => WriteThenReadBasic(value, buf, pos, be);
  }

  lemma SignatureIsUtf8(s: text)
    requires ParseSignature(s).Ok?
    ensures ValidUtf8(s) && |s| <= MAX_SIGNATURE_LEN
  {
    AsciiIsUtf8(s);
  }

  lemma WriteThenReadBasic(value: Value, buf: seq<u8>, pos: nat, be: bool)
    requires IsBasic(ValueType(value))
    requires pos <= |buf| && WellFormed(value)
    requires var r := Enc(value, pos, be); r.Ok? && Holds(buf, pos, r.value)
    ensures ReadsAs(buf, pos, be, value, Enc(value, pos, be).value)
  {
    hide Holds, DecFixed, DecString, EncFixed, EncString, DecSignature, IsValidObjectPath, ParseSignature, ValidUtf8;
    var ty := ValueType(value);
    if IsNumber(ty) {
      NumberOfPattern(value);
      FixedRead(buf, pos, be, Width(ty), Pattern(value));
    } else {
      match value
      case Boolean(flag) =>
        CapacityOfWidths();
        FixedRead(buf, pos, be, 4, if flag then 1 else 0);
      case String(s) =>
        StringRead(buf, pos, be, s);
      case ObjectPath(s) =>
        ObjectPathIsUtf8(s);
        StringRead(buf, pos, be, s);
      case Signature(s) =>
        SignatureIsUtf8(s);
        SignatureRead(buf, pos, s);
    }
  }

  lemma {:induction false} WriteThenReadStruct(value: Value, buf: seq<u8>, pos: nat, be: bool)
    requires value.Struct?
    requires pos <= |buf| && WellFormed(value) && NoEmptyStruct(ValueType(value))
    requires var r := Enc(value, pos, be); r.Ok? && Holds(buf, pos, r.value)
    ensures ReadsAs(buf, pos, be, value, Enc(value, pos, be).value)
    decreases value, 1, 0
  {
    hide Enc, Dec, Holds, EncAll, DecAll;
    var cells := EncStructParts(value, pos, be);
    var start := pos + PadLen(pos, 8);
    HoldsConcat(buf, pos, Padding(pos, 8), cells);
    HoldsFits(buf, start, cells);
    WriteThenReadAll(value.members, buf, start, be);
    DecStruct(buf, pos, be, ValueTypes(value.members));
  }

  lemma {:induction false} WriteThenReadVariant(value: Value, buf: seq<u8>, pos: nat, be: bool)
    requires value.Variant?
    requires pos <= |buf| && WellFormed(value)
    requires var r := Enc(value, pos, be); r.Ok? && Holds(buf, pos, r.value)
    ensures ReadsAs(buf, pos, be, value, Enc(value, pos, be).value)
    decreases value, 1, 0
  {
    hide Enc, Dec, Holds, DecVariantType, NoEmptyStruct, EncSignature, Print, WithinLimits;
    var sig, cells := EncVariantParts(value, pos, be);
    var inner := value.inner;
    var ty := ValueType(inner);
    var start := pos + |sig|;
    HoldsConcat(buf, pos, sig, cells);
    HoldsFits(buf, start, cells);
    VariantTypeRead(buf, pos, ty);
    WriteThenRead(inner, buf, start, be);
    DecVariant(buf, pos, be);
  }

  lemma {:induction false} WriteThenReadDictEntry(value: Value, buf: seq<u8>, pos: nat, be: bool)
    requires value.DictEntry?
    requires pos <= |buf| && WellFormed(value) && NoEmptyStruct(ValueType(value))
    requires var r := Enc(value, pos, be); r.Ok? && Holds(buf, pos, r.value)
    ensures ReadsAs(buf, pos, be, value, Enc(value, pos, be).value)
    decreases value, 1, 0
  {
    hide Enc, Dec, Holds, PadLen;
    EncDictEntry(value.k, value.v, pos, be);
    var keyPos := pos + PadLen(pos, 8);
    var key := Enc(value.k, keyPos, be).value;
    var valPos := keyPos + |key|;
    var val := Enc(value.v, valPos, be).value;
    HoldsConcat(buf, pos, Padding(pos, 8) + key, val);
    HoldsConcat(buf, pos, Padding(pos, 8), key);
    HoldsFits(buf, valPos, val);
    WriteThenRead(value.k, buf, keyPos, be);
    WriteThenRead(value.v, buf, valPos, be);
    DecDictEntry(buf, pos, be, ValueType(value.k), ValueType(value.v));
  }

  lemma {:induction false} WriteThenReadArray(value: Value, buf: seq<u8>, pos: nat, be: bool)
    requires value.Array?
    requires pos <= |buf| && WellFormed(value) && NoEmptyStruct(ValueType(value))
    requires var r := Enc(value, pos, be); r.Ok? && Holds(buf, pos, r.value)
    ensures ReadsAs(buf, pos, be, value, Enc(value, pos, be).value)
    decreases value, 1, 0
  {
    hide Enc, Dec, Holds, EncAll, DecElements, DecArrayHead, EncArrayHead, ArrayStart;
    var cells := EncArrayParts(value, pos, be);
    var elem := value.elemType;
    var start := ArrayStart(pos, elem);
    HoldsConcat(buf, pos, EncArrayHead(pos, be, elem, |cells|), cells);
    HoldsFits(buf, start, cells);
    ArrayHeadRead(buf, pos, be, elem, |cells|);
    WriteThenReadElements(value.elements, buf, start, be, elem);
    DecArray(buf, pos, be, elem);
  }

  lemma {:induction false} WriteThenReadElements(values: seq<Value>, buf: seq<u8>, pos: nat, be: bool, elem: Type)
    requires pos <= |buf| && AllWellFormed(values) && AllOfType(values, elem) && NoEmptyStruct(elem)
    requires var r := EncAll(values, pos, be); r.Ok? && Holds(buf, pos, r.value)
    ensures var end := pos + |EncAll(values, pos, be).value|;
            DecElements(buf, pos, end, be, elem) == Ok(Decoded(values, end))
    decreases values, 0
  {
    hide Holds, Dec, Enc, ValueType, WellFormed, NoEmptyStruct;
    if values != [] {
      var first := Enc(values[0], pos, be).value;
      var rest := EncAll(values[1..], pos + |first|, be).value;
      HoldsConcat(buf, pos, first, rest);
      WriteThenRead(values[0], buf, pos, be);
      WriteThenReadElements(values[1..], buf, pos + |first|, be, elem);
      assert values == [values[0]] + values[1..];
    }
  }

  lemma {:induction false} WriteThenReadAll(values: seq<Value>, buf: seq<u8>, pos: nat, be: bool)
    requires pos <= |buf| && AllWellFormed(values) && NoEmptyStructs(ValueTypes(values))
    requires var r := EncAll(values, pos, be); r.Ok? && Holds(buf, pos, r.value)
    ensures DecAll(buf, pos, be, ValueTypes(values)) ==
            Ok(Decoded(values, pos + |EncAll(values, pos, be).value|))
    decreases values, 0
  {
    hide Holds, Dec, Enc, ValueType, WellFormed, NoEmptyStruct;
    if values != [] {
      var first := Enc(values[0], pos, be).value;
      var rest := EncAll(values[1..], pos + |first|, be).value;
      assert ValueTypes(values) == [ValueType(values[0])] + ValueTypes(values[1..]);
      HoldsConcat(buf, pos, first, rest);
      WriteThenRead(values[0], buf, pos, be);
      WriteThenReadAll(values[1..], buf, pos + |first|, be);
      assert values == [values[0]] + values[1..];
    }
  }
}

/**
 The format spelled out byte by byte, as the D-Bus Specification describes it in "Marshaling (Wire Format)":
 a reference that shares nothing with the reader and the writer. Padding is any byte.
 */
module WireForm {
  import opened Wrappers
  import opened Bytes
  import opened Types
  import opened Text
  import opened SignatureSpec
  import opened WireSpec
  import opened WireProofs
  import opened WireReread
  import WireLayout
  import opened ObjectPaths
  import opened Utf8

  /** The first multiple of n from pos on. */
  function Next(pos: nat, n: nat): (at: nat)
    requires n > 0
  {
    (pos + (n - 1)) / n * n
  }

  function At(buf: seq<u8>, i: nat): (b: nat)
    requires i < |buf|
  {
    buf[i]
  }

  function Two(buf: seq<u8>, at: nat, be: bool): (x: nat)
    requires at + 2 <= |buf|
  {
    if be then 0x100 * At(buf, at) + At(buf, at + 1) else At(buf, at) + 0x100 * At(buf, at + 1)
  }

  function Four(buf: seq<u8>, at: nat, be: bool): (x: nat)
    requires at + 4 <= |buf|
  {
    if be then 0x100_0000 * At(buf, at) + 0x1_0000 * At(buf, at + 1) + 0x100 * At(buf, at + 2) + At(buf, at + 3)
    else At(buf, at) + 0x100 * At(buf, at + 1) + 0x1_0000 * At(buf, at + 2) + 0x100_0000 * At(buf, at + 3)
  }

  function Eight(buf: seq<u8>, at: nat, be: bool): (x: nat)
    requires at + 8 <= |buf|
  {
    if be then 0x1_0000_0000 * Four(buf, at, be) + Four(buf, at + 4, be)
    else Four(buf, at, be) + 0x1_0000_0000 * Four(buf, at + 4, be)
  }

  function Spelled(buf: seq<u8>, at: nat, be: bool, n: nat): (x: nat)
    requires IsAlignment(n) && at + n <= |buf|
  {
    if n == 1 then At(buf, at)
    else if n == 2 then Two(buf, at, be)
    else if n == 4 then Four(buf, at, be)
    else Eight(buf, at, be)
  }

  /** An aligned number of n bytes, unsigned, between pos and end. */
  predicate Number(buf: seq<u8>, pos: nat, end: nat, be: bool, n: nat, x: int)
    requires IsAlignment(n)
  {
    end == Next(pos, n) + n <= |buf| && x == Spelled(buf, Next(pos, n), be, n)
  }

  /** Text and a NUL. */
  predicate Terminated(buf: seq<u8>, pos: nat, end: nat, s: text) {
    && end == pos + |s| + 1 <= |buf|
    && buf[pos..pos + |s|] == s && buf[pos + |s|] == 0
  }

  /** The alignment of a type, by its code. */
  function AlignmentOf(ty: Type): (n: nat)
    ensures IsAlignment(n)
  {
    var code := Print(ty);
    if code == Txt("y") || code == Txt("g") || code == Txt("v") then 1
    else if code == Txt("n") || code == Txt("q") then 2
    else if code == Txt("x") || code == Txt("t") || code == Txt("d") || ty.Struct? || ty.DictEntry? then 8
    else 4
  }

  /** The bytes from pos up to end are the value, in the given byte order. */
  ghost predicate Laid(buf: seq<u8>, pos: nat, end: nat, be: bool, value: Value)
    decreases value, 1
  {
    match value
    case Byte(b) => Number(buf, pos, end, be, 1, b)
    case Boolean(flag) => Number(buf, pos, end, be, 4, if flag then 1 else 0)
    case Int16(x) => Number(buf, pos, end, be, 2, if x < 0 then x + 0x1_0000 else x)
    case UInt16(x) => Number(buf, pos, end, be, 2, x)
    case Int32(x) => Number(buf, pos, end, be, 4, if x < 0 then x + 0x1_0000_0000 else x)
    case UInt32(x) => Number(buf, pos, end, be, 4, x)
    case Int64(x) => Number(buf, pos, end, be, 8, if x < 0 then x + 0x1_0000_0000_0000_0000 else x)
    case UInt64(x) => Number(buf, pos, end, be, 8, x)
    case Double(bits) => Number(buf, pos, end, be, 8, bits)
    case UnixFd(fd) => Number(buf, pos, end, be, 4, fd)
    case String(s) =>
      var text := Next(pos, 4) + 4;
      Number(buf, pos, text, be, 4, |s|) && Terminated(buf, text, end, s)
    case ObjectPath(s) =>
      var text := Next(pos, 4) + 4;
      Number(buf, pos, text, be, 4, |s|) && Terminated(buf, text, end, s)
    case Signature(s) => Number(buf, pos, pos + 1, be, 1, |s|) && Terminated(buf, pos + 1, end, s)
    case Array(elemType, elements) =>
      var first := Next(Next(pos, 4) + 4, AlignmentOf(elemType));
      && first <= end <= |buf| && end - first <= 0x400_0000
      && Number(buf, pos, Next(pos, 4) + 4, be, 4, end - first)
      && AllLaid(buf, first, end, be, elements)
    case Struct(members) => Next(pos, 8) <= |buf| && AllLaid(buf, Next(pos, 8), end, be, members)
    case DictEntry(k, v) =>
      && Next(pos, 8) <= |buf|
      && exists mid: nat :: mid <= |buf| && Laid(buf, Next(pos, 8), mid, be, k) && Laid(buf, mid, end, be, v)
    case Variant(inner) =>
      var sig := Print(ValueType(inner));
      && Number(buf, pos, pos + 1, be, 1, |sig|) && Terminated(buf, pos + 1, pos + |sig| + 2, sig)
      && Laid(buf, pos + |sig| + 2, end, be, inner)
  }

  /** One value behind the other. */
  ghost predicate AllLaid(buf: seq<u8>, pos: nat, end: nat, be: bool, values: seq<Value>)
    decreases values, 0
  {
    if values == [] then pos == end <= |buf|
    else
      exists mid: nat :: mid <= |buf| && Laid(buf, pos, mid, be, values[0]) && AllLaid(buf, mid, end, be, values[1..])
  }

  // ---- Numbers and text ----

  lemma NextIsPadded(pos: nat, n: nat)
    requires IsAlignment(n)
    ensures Next(pos, n) == pos + PadLen(pos, n)
  {
    if n == 1 {
    } else if n == 2 {
      assert (pos + 1) / 2 == pos / 2 + pos % 2;
    } else if n == 4 {
      assert (pos + 3) / 4 == pos / 4 + (if pos % 4 == 0 then 0 else 1);
    } else {
      assert (pos + 7) / 8 == pos / 8 + (if pos % 8 == 0 then 0 else 1);
    }
  }

  lemma TwoValue(be: bool, bs: seq<u8>)
    requires |bs| == 2
    ensures FixedValue(be, bs) == Two(bs, 0, be)
  {
    var ordered := if be then Reverse(bs) else bs;
    assert ordered[1..] == [ordered[1]] && [ordered[1]][1..] == [];
    assert LittleEndianValue([ordered[1]]) == ordered[1] + 0x100 * LittleEndianValue([]);
  }

  lemma FourOf(bs: seq<u8>)
    requires |bs| == 4
    ensures LittleEndianValue(bs) == Four(bs, 0, false)
  {
    assert bs[1..][1..] == bs[2..] && bs[2..][1..] == bs[3..] && bs[3..][1..] == [];
    assert LittleEndianValue(bs[3..]) == bs[3] + 0x100 * LittleEndianValue([]);
    assert LittleEndianValue(bs[2..]) == bs[2] + 0x100 * LittleEndianValue(bs[3..]);
    assert LittleEndianValue(bs[1..]) == bs[1] + 0x100 * LittleEndianValue(bs[2..]);
  }

  lemma FourValue(be: bool, bs: seq<u8>)
    requires |bs| == 4
    ensures FixedValue(be, bs) == Four(bs, 0, be)
  {
    hide LittleEndianValue;
    FourOf(if be then Reverse(bs) else bs);
  }

  lemma EightOf(bs: seq<u8>)
    requires |bs| == 8
    ensures LittleEndianValue(bs) == Four(bs, 0, false) + 0x1_0000_0000 * Four(bs, 4, false)
  {
    assert bs[1..][1..] == bs[2..] && bs[2..][1..] == bs[3..] && bs[3..][1..] == bs[4..];
    FourOf(bs[4..]);
    assert LittleEndianValue(bs[3..]) == bs[3] + 0x100 * LittleEndianValue(bs[4..]);
    assert LittleEndianValue(bs[2..]) == bs[2] + 0x100 * LittleEndianValue(bs[3..]);
    assert LittleEndianValue(bs[1..]) == bs[1] + 0x100 * LittleEndianValue(bs[2..]);
  }

  lemma EightValue(be: bool, bs: seq<u8>)
    requires |bs| == 8
    ensures FixedValue(be, bs) == Eight(bs, 0, be)
  {
    hide LittleEndianValue;
    EightOf(if be then Reverse(bs) else bs);
  }

  lemma OneValue(be: bool, b: u8)
    ensures FixedValue(be, [b]) == b
  {
    assert Reverse([b]) == [b];
    assert [b][1..] == [];
  }

  lemma SpelledValue(buf: seq<u8>, at: nat, be: bool, n: nat)
    requires IsAlignment(n) && at + n <= |buf|
    ensures FixedValue(be, buf[at..at + n]) == Spelled(buf, at, be, n)
  {
    hide FixedValue;
    var bs := buf[at..at + n];
    if n == 1 {
      assert bs == [buf[at]];
      OneValue(be, buf[at]);
    } else if n == 2 {
      TwoValue(be, bs);
    } else if n == 4 {
      FourValue(be, bs);
    } else {
      EightValue(be, bs);
      assert Four(bs, 0, be) == Four(buf, at, be) && Four(bs, 4, be) == Four(buf, at + 4, be);
    }
  }

  /** The number the reader finds is the one the bytes spell. */
  lemma NumberExactly(buf: seq<u8>, pos: nat, end: nat, be: bool, n: nat, x: nat)
    requires pos <= |buf| && IsAlignment(n)
    ensures DecFixed(buf, pos, be, n) == Ok(Decoded(x, end)) <==> Number(buf, pos, end, be, n, x)
  {
    hide FixedValue, Spelled, Next;
    NextIsPadded(pos, n);
    if Next(pos, n) + n <= |buf| {
      SpelledValue(buf, Next(pos, n), be, n);
    }
  }

  lemma TextExactly(buf: seq<u8>, pos: nat, end: nat, s: text)
    requires pos <= |buf| && ValidUtf8(s)
    ensures DecText(buf, pos, |s|) == Ok(Decoded(s, end)) <==> Terminated(buf, pos, end, s)
  {
    hide ValidUtf8;
  }

  lemma StringExactly(buf: seq<u8>, pos: nat, end: nat, be: bool, s: text)
    requires pos <= |buf| && ValidUtf8(s) && |s| < 0x1_0000_0000
    ensures DecString(buf, pos, be) == Ok(Decoded(s, end)) <==>
              Number(buf, pos, Next(pos, 4) + 4, be, 4, |s|) && Terminated(buf, Next(pos, 4) + 4, end, s)
  {
    hide ValidUtf8, DecFixed, DecText, Number, Terminated;
    var len := DecFixed(buf, pos, be, 4);
    NumberExactly(buf, pos, Next(pos, 4) + 4, be, 4, |s|);
    FixedEnd(buf, pos, be, 4);
    if len.Ok? {
      TextExactly(buf, len.value.pos, end, s);
      TextLength(buf, len.value.pos, len.value.value);
    }
  }

  lemma FixedEnd(buf: seq<u8>, pos: nat, be: bool, n: nat)
    requires pos <= |buf| && IsAlignment(n)
    ensures var r := DecFixed(buf, pos, be, n); r.Ok? ==> r.value.pos == Next(pos, n) + n
  {
    NextIsPadded(pos, n);
  }

  lemma TextLength(buf: seq<u8>, pos: nat, n: nat)
    requires pos <= |buf|
    ensures var r := DecText(buf, pos, n); r.Ok? ==> |r.value.value| == n
  {
    hide ValidUtf8;
  }

  lemma SignatureExactly(buf: seq<u8>, pos: nat, end: nat, be: bool, s: text)
    requires pos <= |buf| && ValidUtf8(s)
    ensures DecSignature(buf, pos) == Ok(Decoded(s, end)) <==>
              Number(buf, pos, pos + 1, be, 1, |s|) && Terminated(buf, pos + 1, end, s)
  {
    hide ValidUtf8, DecText, Terminated;
    assert Next(pos, 1) == pos;
    if pos + 1 <= |buf| {
      TextExactly(buf, pos + 1, end, s);
      TextLength(buf, pos + 1, buf[pos]);
    }
  }

  lemma AlignmentsAgree(ty: Type)
    ensures AlignmentOf(ty) == Alignment(ty)
  {
    hide Txt;
    Codes();
    PrintIsAscii(ty);
  }

  lemma Codes()
    ensures Txt("y") == [121] && Txt("g") == [103] && Txt("v") == [118] && Txt("n") == [110] && Txt("q") == [113]
    ensures Txt("x") == [120] && Txt("t") == [116] && Txt("d") == [100] && Txt("b") == [98] && Txt("i") == [105]
    ensures Txt("u") == [117] && Txt("s") == [115] && Txt("o") == [111] && Txt("h") == [104] && Txt("a") == [97]
    ensures Txt("(") == [40] && Txt(")") == [41] && Txt("{") == [123] && Txt("}") == [125]
  {
  }

  // ---- Values ----

  lemma NumberValueExactly(buf: seq<u8>, pos: nat, end: nat, be: bool, value: Value)
    requires pos <= |buf| && IsNumber(ValueType(value))
    ensures Dec(buf, pos, be, ValueType(value)) == Ok(Decoded(value, end)) <==>
              Number(buf, pos, end, be, Width(ValueType(value)), Pattern(value))
  {
    hide DecFixed, Number;
    var ty := ValueType(value);
    NumberOfPattern(value);
    NumberExactly(buf, pos, end, be, Width(ty), Pattern(value));
    var x := DecFixed(buf, pos, be, Width(ty));
    if x.Ok? {
      PatternOfNumber(ty, x.value.value);
    }
  }

  lemma NumberIsLaid(buf: seq<u8>, pos: nat, end: nat, be: bool, value: Value)
    requires IsNumber(ValueType(value))
    ensures Laid(buf, pos, end, be, value) <==> Number(buf, pos, end, be, Width(ValueType(value)), Pattern(value))
  {
    hide Number;
  }

  lemma TextValueExactly(buf: seq<u8>, pos: nat, end: nat, be: bool, value: Value)
    requires pos <= |buf| && WellFormed(value) && (value.String? || value.ObjectPath?)
    ensures Dec(buf, pos, be, ValueType(value)) == Ok(Decoded(value, end)) <==> Laid(buf, pos, end, be, value)
  {
    hide DecString, Number, Terminated, ValidUtf8, IsValidObjectPath, Next;
    if value.String? {
      StringExactly(buf, pos, end, be, value.str);
    } else {
      ObjectPathIsUtf8(value.path);
      StringExactly(buf, pos, end, be, value.path);
    }
  }

  lemma BasicExactly(buf: seq<u8>, pos: nat, end: nat, be: bool, value: Value)
    requires pos <= |buf| && WellFormed(value) && IsBasic(ValueType(value))
    ensures Dec(buf, pos, be, ValueType(value)) == Ok(Decoded(value, end)) <==> Laid(buf, pos, end, be, value)
  {
    hide Dec, Laid, Number, ValidUtf8, ParseSignature, IsValidObjectPath;
    if IsNumber(ValueType(value)) {
      NumberValueExactly(buf, pos, end, be, value);
      NumberIsLaid(buf, pos, end, be, value);
    } else if value.Boolean? {
      BooleanExactly(buf, pos, end, be, value.flag);
    } else if value.Signature? {
      SignatureValueExactly(buf, pos, end, be, value.sig);
    } else {
      TextValueExactly(buf, pos, end, be, value);
    }
  }

  lemma BooleanExactly(buf: seq<u8>, pos: nat, end: nat, be: bool, flag: bool)
    requires pos <= |buf|
    ensures Dec(buf, pos, be, Type.Boolean) == Ok(Decoded(Value.Boolean(flag), end)) <==>
              Laid(buf, pos, end, be, Value.Boolean(flag))
  {
    hide DecFixed, Number;
    CapacityOfWidths();
    NumberExactly(buf, pos, end, be, 4, if flag then 1 else 0);
  }

  lemma SignatureValueExactly(buf: seq<u8>, pos: nat, end: nat, be: bool, s: text)
    requires pos <= |buf| && ParseSignature(s).Ok?
    ensures Dec(buf, pos, be, Type.Signature) == Ok(Decoded(Value.Signature(s), end)) <==>
              Laid(buf, pos, end, be, Value.Signature(s))
  {
    hide DecSignature, Number, Terminated, ParseSignature;
    SignatureIsUtf8(s);
    SignatureExactly(buf, pos, end, be, s);
  }

  /** The values the reader returns are those the bytes spell. */
  lemma {:induction false} ValueExactly(buf: seq<u8>, pos: nat, end: nat, be: bool, value: Value)
    requires pos <= |buf| && WellFormed(value) && NoEmptyStruct(ValueType(value))
    ensures Dec(buf, pos, be, ValueType(value)) == Ok(Decoded(value, end)) <==> Laid(buf, pos, end, be, value)
    decreases value, 1, 1
  {
    hide Dec, Laid, WellFormed, NoEmptyStruct;
    match value
    case Array(_, _) => ArrayExactly(buf, pos, end, be, value);
    case Struct(_) => StructExactly(buf, pos, end, be, value);
    case DictEntry(_, _) => DictEntryExactly(buf, pos, end, be, value);
    case Variant(_) => VariantExactly(buf, pos, end, be, value);
    case _ => BasicExactly(buf, pos, end, be, value);
  }

  lemma {:induction false} StructExactly(buf: seq<u8>, pos: nat, end: nat, be: bool, value: Value)
    requires value.Struct?
    requires pos <= |buf| && WellFormed(value) && NoEmptyStruct(ValueType(value))
    ensures Dec(buf, pos, be, ValueType(value)) == Ok(Decoded(value, end)) <==> Laid(buf, pos, end, be, value)
    decreases value, 1, 0
  {
    hide Dec, DecAll, AllLaid, Next;
    var tys := ValueTypes(value.members);
    DecStruct(buf, pos, be, tys);
    NextIsPadded(pos, 8);
    if Next(pos, 8) <= |buf| {
      AllExactly(buf, Next(pos, 8), end, be, value.members);
    }
  }

  lemma {:induction false} DictEntryExactly(buf: seq<u8>, pos: nat, end: nat, be: bool, value: Value)
    requires value.DictEntry?
    requires pos <= |buf| && WellFormed(value) && NoEmptyStruct(ValueType(value))
    ensures Dec(buf, pos, be, ValueType(value)) == Ok(Decoded(value, end)) <==> Laid(buf, pos, end, be, value)
    decreases value, 1, 0
  {
    hide Dec, Next;
    var key, val := ValueType(value.k), ValueType(value.v);
    DecDictEntry(buf, pos, be, key, val);
    NextIsPadded(pos, 8);
    var start := Next(pos, 8);
    if start <= |buf| {
      var k := Dec(buf, start, be, key);
      if k.Ok? {
        ValueExactly(buf, start, k.value.pos, be, value.k);
        ValueExactly(buf, k.value.pos, end, be, value.v);
      }
      forall mid: nat | mid <= |buf| && Laid(buf, start, mid, be, value.k)
        ensures k == Ok(Decoded(value.k, mid))
      {
        ValueExactly(buf, start, mid, be, value.k);
      }
    }
  }

  lemma {:induction false} VariantExactly(buf: seq<u8>, pos: nat, end: nat, be: bool, value: Value)
    requires value.Variant?
    requires pos <= |buf| && WellFormed(value)
    ensures Dec(buf, pos, be, Type.Variant) == Ok(Decoded(value, end)) <==> Laid(buf, pos, end, be, value)
    decreases value, 1, 0
  {
    hide Dec, DecVariantType, Number, Terminated, Grammatical, Print;
    var ty := ValueType(value.inner);
    DecVariant(buf, pos, be);
    TypeExactly(buf, pos, be, ty);
    var inner := pos + |Print(ty)| + 2;
    if DecVariantType(buf, pos) == Ok(Decoded(ty, inner)) {
      ValueExactly(buf, inner, end, be, value.inner);
    } else if DecVariantType(buf, pos).Ok? {
      // the content's type would be another one
      var d := DecVariantType(buf, pos).value;
      VariantTypeEnd(buf, pos);
      ReadThenWrite(buf, d.pos, be, d.value);
    }
  }

  /** The type a variant announces. */
  lemma TypeExactly(buf: seq<u8>, pos: nat, be: bool, ty: Type)
    requires pos <= |buf| && WithinLimits(ty)
    ensures NoEmptyStruct(ty)
    ensures var sig := Print(ty);
            DecVariantType(buf, pos) == Ok(Decoded(ty, pos + |sig| + 2)) <==>
              Number(buf, pos, pos + 1, be, 1, |sig|) && Terminated(buf, pos + 1, pos + |sig| + 2, sig)
  {
    hide Print, DecSignature, Number, Terminated, ParseSingle, Grammatical, ValidUtf8;
    var sig := Print(ty);
    PrintIsAscii(ty);
    AsciiIsUtf8(sig);
    GrammaticalHasNoEmptyStruct(ty, false);
    SignatureExactly(buf, pos, pos + |sig| + 2, be, sig);
    if DecSignature(buf, pos).Ok? {
      SignatureWritten(buf, pos);
      SingleInverse(DecSignature(buf, pos).value.value, ty);
    }
  }

  lemma VariantTypeEnd(buf: seq<u8>, pos: nat)
    requires pos <= |buf|
    ensures var r := DecVariantType(buf, pos); r.Ok? ==> r.value.pos == pos + |Print(r.value.value)| + 2
  {
    hide Print, DecSignature, ParseSingle, ValidUtf8;
    var r := DecVariantType(buf, pos);
    if r.Ok? {
      SignatureWritten(buf, pos);
      SingleInverse(DecSignature(buf, pos).value.value, r.value.value);
    }
  }

  lemma {:induction false} ArrayExactly(buf: seq<u8>, pos: nat, end: nat, be: bool, value: Value)
    requires value.Array?
    requires pos <= |buf| && WellFormed(value) && NoEmptyStruct(ValueType(value))
    ensures Dec(buf, pos, be, ValueType(value)) == Ok(Decoded(value, end)) <==> Laid(buf, pos, end, be, value)
    decreases value, 1, 0
  {
    hide Dec, DecElements, AllLaid, DecArrayHead, Number, Next, AlignmentOf, AllWellFormed, AllOfType, NoEmptyStruct;
    assert NoEmptyStruct(value.elemType) by { ElementsReadable(value.elemType); }
    var elem := value.elemType;
    DecArray(buf, pos, be, elem);
    var first := Next(Next(pos, 4) + 4, AlignmentOf(elem));
    if first <= end {
      HeadExactly(buf, pos, be, elem, end - first);
    }
    HeadStart(buf, pos, be, elem);
    if first <= end <= |buf| {
      ElementsExactly(buf, first, end, be, elem, value.elements);
    }
  }

  lemma ElementsReadable(elem: Type)
    ensures NoEmptyStruct(Type.Array(elem)) <==> NoEmptyStruct(elem)
  {
  }

  lemma HeadStart(buf: seq<u8>, pos: nat, be: bool, elem: Type)
    requires pos <= |buf|
    ensures var r := DecArrayHead(buf, pos, be, elem);
            r.Ok? ==> r.value.pos == Next(Next(pos, 4) + 4, AlignmentOf(elem))
  {
    hide DecFixed, Next, AlignmentOf;
    FixedEnd(buf, pos, be, 4);
    AlignmentsAgree(elem);
    NextIsPadded(Next(pos, 4) + 4, Alignment(elem));
  }

  lemma HeadExactly(buf: seq<u8>, pos: nat, be: bool, elem: Type, length: nat)
    requires pos <= |buf|
    ensures var first := Next(Next(pos, 4) + 4, AlignmentOf(elem));
            DecArrayHead(buf, pos, be, elem) == Ok(Decoded(length, first)) <==>
              first + length <= |buf| && length <= 0x400_0000 && Number(buf, pos, Next(pos, 4) + 4, be, 4, length)
  {
    hide DecFixed, Next, AlignmentOf, Number;
    FixedEnd(buf, pos, be, 4);
    NumberExactly(buf, pos, Next(pos, 4) + 4, be, 4, length);
    AlignmentsAgree(elem);
    NextIsPadded(Next(pos, 4) + 4, Alignment(elem));
  }

  lemma {:induction false} ElementsExactly(buf: seq<u8>, pos: nat, end: nat, be: bool, elem: Type, values: seq<Value>)
    requires pos <= |buf| && end <= |buf| && AllWellFormed(values) && AllOfType(values, elem) && NoEmptyStruct(elem)
    ensures DecElements(buf, pos, end, be, elem) == Ok(Decoded(values, end)) <==> AllLaid(buf, pos, end, be, values)
    decreases values, 0
  {
    hide Dec, Laid, WellFormed, NoEmptyStruct;
    if values != [] {
      var first := Dec(buf, pos, be, elem);
      assert values == [values[0]] + values[1..];
      if first.Ok? {
        ValueExactly(buf, pos, first.value.pos, be, values[0]);
        ElementsExactly(buf, first.value.pos, end, be, elem, values[1..]);
      }
      forall mid: nat | mid <= |buf| && Laid(buf, pos, mid, be, values[0])
        ensures first == Ok(Decoded(values[0], mid))
      {
        ValueExactly(buf, pos, mid, be, values[0]);
      }
    }
  }

  lemma {:induction false} AllExactly(buf: seq<u8>, pos: nat, end: nat, be: bool, values: seq<Value>)
    requires pos <= |buf| && AllWellFormed(values) && NoEmptyStructs(ValueTypes(values))
    ensures DecAll(buf, pos, be, ValueTypes(values)) == Ok(Decoded(values, end)) <==> AllLaid(buf, pos, end, be, values)
    decreases values, 0
  {
    hide Dec, Laid, WellFormed, NoEmptyStruct;
    if values != [] {
      var tys := ValueTypes(values);
      var first := Dec(buf, pos, be, tys[0]);
      assert values == [values[0]] + values[1..] && tys[1..] == ValueTypes(values[1..]);
      if first.Ok? {
        ValueExactly(buf, pos, first.value.pos, be, values[0]);
        AllExactly(buf, first.value.pos, end, be, values[1..]);
      }
      forall mid: nat | mid <= |buf| && Laid(buf, pos, mid, be, values[0])
        ensures first == Ok(Decoded(values[0], mid))
      {
        ValueExactly(buf, pos, mid, be, values[0]);
      }
    }
  }

  // ---- Main results ----

  /** The letter of every kind of value. */
  lemma ValueCodes(value: Value)
    ensures var code := Print(ValueType(value));
            match value
            case Byte(_) => code == Txt("y")
            case Boolean(_) => code == Txt("b")
            case Int16(_) => code == Txt("n")
            case UInt16(_) => code == Txt("q")
            case Int32(_) => code == Txt("i")
            case UInt32(_) => code == Txt("u")
            case Int64(_) => code == Txt("x")
            case UInt64(_) => code == Txt("t")
            case Double(_) => code == Txt("d")
            case String(_) => code == Txt("s")
            case ObjectPath(_) => code == Txt("o")
            case Signature(_) => code == Txt("g")
            case UnixFd(_) => code == Txt("h")
            case Array(elemType, _) => code == Txt("a") + Print(elemType)
            case Struct(members) => code == Txt("(") + PrintAll(ValueTypes(members)) + Txt(")")
            case DictEntry(k, v) => code == Txt("{") + Print(ValueType(k)) + Print(ValueType(v)) + Txt("}")
            case Variant(_) => code == Txt("v")
  {
    hide Txt;
    Codes();
    match value
    case Array(elemType, _) =>
    case Struct(members) =>
    case DictEntry(k, v) =>
    case _ =>
  }

  /** What a value may hold, at any depth: characters, paths over the listed alphabet, signatures within the limits,
      elements of one type, and in a variant a single complete type. */
  ghost predicate Legal(value: Value)
    decreases value, 1
  {
    match value
    case String(s) => |s| < 0x1_0000_0000 && exists cs :: AllScalars(cs) && s == EncodeAll(cs)
    case ObjectPath(s) => |s| < 0x1_0000_0000 && IsPath(s)
    case Signature(s) => |s| <= 255 && exists tys :: AllWithinLimits(tys) && s == PrintAll(tys)
    case Array(elemType, elements) =>
      AllLegal(elements) && forall i | 0 <= i < |elements| :: ValueType(elements[i]) == elemType
    case Struct(members) => AllLegal(members)
    case DictEntry(k, v) => Legal(k) && Legal(v)
    case Variant(inner) => Legal(inner) && WithinLimits(ValueType(inner))
    case _ => true
  }

  ghost predicate AllLegal(values: seq<Value>)
    decreases values, 0
  {
    values == [] || (Legal(values[0]) && AllLegal(values[1..]))
  }

  lemma {:induction false} OfTypeExactly(values: seq<Value>, ty: Type)
    ensures AllOfType(values, ty) <==> forall i | 0 <= i < |values| :: ValueType(values[i]) == ty
  {
    hide ValueType;
    if values != [] {
      OfTypeExactly(values[1..], ty);
      assert values == [values[0]] + values[1..];
      assert forall i | 0 <= i < |values[1..]| :: values[1..][i] == values[i + 1];
    }
  }

  lemma SignaturesExactly(s: text)
    ensures ParseSignature(s).Ok? <==> |s| <= 255 && exists tys :: AllWithinLimits(tys) && s == PrintAll(tys)
  {
    hide ParseSignature, AllWithinLimits, PrintAll;
    if ParseSignature(s).Ok? {
      SignatureInverse(s, ParseSignature(s).value);
    } else if |s| <= 255 {
      forall tys | AllWithinLimits(tys)
        ensures s != PrintAll(tys)
      {
        SignatureInverse(s, tys);
      }
    }
  }

  lemma {:induction false} LegalExactly(value: Value)
    ensures WellFormed(value) <==> Legal(value)
    decreases value, 1
  {
    hide ValidUtf8, IsValidObjectPath, IsPath, ParseSignature, AllWithinLimits, WithinLimits, ValueType;
    match value
    case String(s) => ValidExactly(s);
    case ObjectPath(s) => PathsExactly(s);
    case Signature(s) => SignaturesExactly(s);
    case Array(elemType, elements) =>
      AllLegalExactly(elements);
      OfTypeExactly(elements, elemType);
    case Struct(members) => AllLegalExactly(members);
    case DictEntry(k, v) =>
      LegalExactly(k);
      LegalExactly(v);
    case Variant(inner) => LegalExactly(inner);
    case _ =>
  }

  lemma {:induction false} AllLegalExactly(values: seq<Value>)
    ensures AllWellFormed(values) <==> AllLegal(values)
    decreases values, 0
  {
    hide Legal, WellFormed;
    if values != [] {
      LegalExactly(values[0]);
      AllLegalExactly(values[1..]);
    }
  }

  /** Reading, in terms of the format alone: a type is read as a value, up to some point, exactly when the value is a
      legal one of that type and the bytes up to there spell it. */
  lemma ReadExactly(buf: seq<u8>, pos: nat, end: nat, be: bool, ty: Type, value: Value)
    requires pos <= |buf| && NoEmptyStruct(ty)
    ensures Dec(buf, pos, be, ty) == Ok(Decoded(value, end)) <==>
              ValueType(value) == ty && Legal(value) && Laid(buf, pos, end, be, value)
  {
    hide Dec, Laid, Legal, WellFormed, NoEmptyStruct, ValueType;
    LegalExactly(value);
    ReadThenWrite(buf, pos, be, ty);
    if ValueType(value) == ty && WellFormed(value) {
      ValueExactly(buf, pos, end, be, value);
    }
  }

  /** Writing, in terms of the format alone: a legal value without NULs is written exactly when some bytes spell it
      there, and what is written spells it. */
  lemma WriteExactly(prefix: seq<u8>, be: bool, value: Value)
    requires Legal(value) && NulFree(value) && NoEmptyStruct(ValueType(value))
    ensures var w := Enc(value, |prefix|, be);
            && (w.Ok? <==> exists bytes :: Laid(prefix + bytes, |prefix|, |prefix| + |bytes|, be, value))
            && (w.Ok? ==> Laid(prefix + Wire(w.value), |prefix|, |prefix| + |w.value|, be, value))
  {
    hide Dec, Enc, Laid, Legal, WellFormed, NoEmptyStruct, ValueType, NulFree, Wire, Holds;
    var w := Enc(value, |prefix|, be);
    LegalExactly(value);
    if w.Ok? {
      var bytes := Wire(w.value);
      RoundTrip(prefix, be, value, []);
      assert prefix + bytes + [] == prefix + bytes;
      ValueExactly(prefix + bytes, |prefix|, |prefix| + |bytes|, be, value);
    }
    if bytes :| Laid(prefix + bytes, |prefix|, |prefix| + |bytes|, be, value) {
      ValueExactly(prefix + bytes, |prefix|, |prefix| + |bytes|, be, value);
      ReadThenWrite(prefix + bytes, |prefix|, be, ValueType(value));
    }
  }

  // ---- What is refused ----

  /** A well-placed text is read as an object path exactly if it is one, and refused by name otherwise. */
  lemma PathReadExactly(buf: seq<u8>, pos: nat, end: nat, be: bool, s: text)
    requires pos <= |buf| && ValidUtf8(s) && Laid(buf, pos, end, be, Value.String(s))
    ensures Dec(buf, pos, be, Type.ObjectPath) ==
            if IsPath(s) then Ok(Decoded(Value.ObjectPath(s), end)) else Err(InvalidObjectPath(s))
  {
    hide DecString, ValidUtf8, IsValidObjectPath, IsPath, Terminated, Next;
    FourFits(buf, pos, be, |s|);
    StringExactly(buf, pos, end, be, s);
    PathsExactly(s);
  }

  lemma FourFits(buf: seq<u8>, pos: nat, be: bool, n: nat)
    requires Number(buf, pos, Next(pos, 4) + 4, be, 4, n)
    ensures n < 0x1_0000_0000
  {
  }

  /** A boolean is 0 or 1; any other number is refused by its value. */
  lemma BooleanReadExactly(buf: seq<u8>, pos: nat, end: nat, be: bool, x: nat)
    requires pos <= |buf| && Number(buf, pos, end, be, 4, x)
    ensures x < 0x1_0000_0000
    ensures Dec(buf, pos, be, Type.Boolean) ==
            if x == 0 then Ok(Decoded(Value.Boolean(false), end))
            else if x == 1 then Ok(Decoded(Value.Boolean(true), end))
            else Err(InvalidBoolean(x))
  {
    hide DecFixed, Spelled;
    NumberExactly(buf, pos, end, be, 4, x);
    CapacityOfWidths();
  }

  /** What is wrong with a string whose length can be read: the end of the buffer, the text, or what stands where
      its NUL should be. */
  lemma StringReadExactly(buf: seq<u8>, pos: nat, text: nat, be: bool, n: nat)
    requires pos <= |buf| && Number(buf, pos, text, be, 4, n)
    ensures Dec(buf, pos, be, Type.String) ==
            if text + n + 1 > |buf| then Err(UnexpectedEof(n + 1, |buf| - text))
            else if !ValidUtf8(buf[text..text + n]) then Err(InvalidUtf8)
            else if buf[text + n] != 0 then Err(InvalidSignature)
            else Ok(Decoded(Value.String(buf[text..text + n]), text + n + 1))
  {
    hide DecFixed, ValidUtf8, Spelled;
    NumberExactly(buf, pos, text, be, 4, n);
  }

  /** A number that does not fit in front of the end of the buffer is refused, and with it everything that starts
      with one. */
  lemma ShortNumber(buf: seq<u8>, pos: nat, be: bool, n: nat)
    requires pos <= |buf| && IsAlignment(n)
    ensures DecFixed(buf, pos, be, n).Err? <==> Next(pos, n) + n > |buf|
    ensures DecFixed(buf, pos, be, n).Err? ==>
              DecFixed(buf, pos, be, n) ==
              if Next(pos, n) > |buf| then Err(UnexpectedEof(Next(pos, n) - pos, |buf| - pos))
              else Err(UnexpectedEof(n, |buf| - Next(pos, n)))
  {
    hide FixedValue;
    NextIsPadded(pos, n);
  }

  /** The announced length of an array is checked before anything else: against the limit, then against what is
      there; and its elements must end exactly there. */
  lemma ArrayRefusals(buf: seq<u8>, pos: nat, first: nat, be: bool, elem: Type, n: nat)
    requires pos <= |buf| && NoEmptyStruct(elem)
    requires Number(buf, pos, Next(pos, 4) + 4, be, 4, n) && first == Next(Next(pos, 4) + 4, AlignmentOf(elem))
    ensures n > 0x400_0000 ==> Dec(buf, pos, be, Type.Array(elem)) == Err(ArrayTooLong(n))
    ensures n <= 0x400_0000 && first <= |buf| < first + n ==>
              Dec(buf, pos, be, Type.Array(elem)) == Err(UnexpectedEof(n, |buf| - first))
  {
    hide Dec, DecFixed, DecElements, Number, AlignmentOf, Next, NoEmptyStruct;
    DecArray(buf, pos, be, elem);
    NumberExactly(buf, pos, Next(pos, 4) + 4, be, 4, n);
    AlignmentsAgree(elem);
    NextIsPadded(Next(pos, 4) + 4, Alignment(elem));
  }

  /** What is not written: text with a NUL, a signature of more than 255 bytes, and an array of more than 64 MiB. */
  lemma WriteRefusals(s: text, inner: Value, elemType: Type, elements: seq<Value>, pos: nat, be: bool)
    ensures Enc(Value.String(s), pos, be).Err? <==> 0 in s
    ensures Enc(Value.ObjectPath(s), pos, be).Err? <==> 0 in s
    ensures 0 in s ==> Enc(Value.String(s), pos, be) == Enc(Value.ObjectPath(s), pos, be) == Err(EmbeddedNul)
    ensures Enc(Value.Signature(s), pos, be).Err? <==> |s| > 255
    ensures |s| > 255 ==> Enc(Value.Signature(s), pos, be) == Err(SignatureTooLong(|s|))
    ensures var sig := Print(ValueType(inner));
            |sig| > 255 ==> Enc(Value.Variant(inner), pos, be) == Err(SignatureTooLong(|sig|))
    ensures var cells := EncAll(elements, Next(Next(pos, 4) + 4, AlignmentOf(elemType)), be);
            cells.Ok? && |cells.value| > 0x400_0000 ==>
              Enc(Value.Array(elemType, elements), pos, be) == Err(ArrayTooLong(|cells.value|))
  {
    hide Enc, EncAll, Print, AlignmentOf, Next, EncFixed, Raw;
    TextWrites(s, pos, be);
    WireLayout.EncContainers(Value.Variant(inner), pos, be);
    WireLayout.EncContainers(Value.Array(elemType, elements), pos, be);
    AlignmentsAgree(elemType);
    NextIsPadded(pos, 4);
    NextIsPadded(Next(pos, 4) + 4, Alignment(elemType));
  }

  lemma TextWrites(s: text, pos: nat, be: bool)
    ensures Enc(Value.String(s), pos, be) == EncString(s, pos, be)
    ensures Enc(Value.ObjectPath(s), pos, be) == EncString(s, pos, be)
    ensures Enc(Value.Signature(s), pos, be) == EncSignature(s)
  {
    hide EncString, EncSignature;
  }
}

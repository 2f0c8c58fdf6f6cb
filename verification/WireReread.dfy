/** Reading arbitrary bytes and writing the result again. */
module WireReread {
  import opened Wrappers
  import opened Bytes
  import opened Types
  import opened SignatureSpec
  import opened WireSpec
  import opened WireProofs

  /** Writing at pos what was read from pos up to end: the same bytes up to padding, unless a
      string with a NUL was read, which the writer refuses. */
  predicate Rewrites(buf: seq<u8>, pos: nat, be: bool, value: Value, end: nat) {
    var w := Enc(value, pos, be);
    if NulFree(value) then w.Ok? && end == pos + |w.value| && Holds(buf, pos, w.value)
    else w == Err(EmbeddedNul)
  }

  predicate AllRewrite(buf: seq<u8>, pos: nat, be: bool, values: seq<Value>, end: nat) {
    var w := EncAll(values, pos, be);
    if AllNulFree(values) then w.Ok? && end == pos + |w.value| && Holds(buf, pos, w.value)
    else w == Err(EmbeddedNul)
  }

  predicate Faithful(buf: seq<u8>, pos: nat, be: bool, ty: Type, r: Result<Decoded<Value>, CoreError>) {
    r.Ok? ==> && ValueType(r.value.value) == ty && WellFormed(r.value.value)
              && Rewrites(buf, pos, be, r.value.value, r.value.pos)
  }

  /** Whatever the reader accepts has the requested type, is well formed, and rewrites. */
  lemma {:induction false} ReadThenWrite(buf: seq<u8>, pos: nat, be: bool, ty: Type)
    requires pos <= |buf| && NoEmptyStruct(ty)
    ensures Faithful(buf, pos, be, ty, Dec(buf, pos, be, ty))
    decreases |buf| - pos, ty, 1, 1
  {
    hide Dec, Faithful, NoEmptyStruct;
    match ty
    case Array(_) => ReadThenWriteArray(buf, pos, be, ty);
    case Struct(_) => ReadThenWriteStruct(buf, pos, be, ty);
    case DictEntry(_, _) => ReadThenWriteDictEntry(buf, pos, be, ty);
    case Variant => ReadThenWriteVariant(buf, pos, be);
    case _ => ReadThenWriteBasic(buf, pos, be, ty);
  }

  lemma ReadThenWriteBasic(buf: seq<u8>, pos: nat, be: bool, ty: Type)
    requires pos <= |buf| && IsBasic(ty)
    ensures Faithful(buf, pos, be, ty, Dec(buf, pos, be, ty))
  {
    hide Holds, DecFixed, DecString, EncFixed, DecSignature, IsValidObjectPath, ParseSignature, ValidUtf8;
    if IsNumber(ty) {
      ReadThenWriteNumber(buf, pos, be, ty);
    } else {
      match ty
      case Boolean =>
        CapacityOfWidths();
        FixedWritten(buf, pos, be, 4);
      case String =>
        StringWritten(buf, pos, be);
      case ObjectPath =>
        StringWritten(buf, pos, be);
        if DecString(buf, pos, be).Ok? && IsValidObjectPath(DecString(buf, pos, be).value.value) {
          ObjectPathHasNoNul(DecString(buf, pos, be).value.value);
        }
      case Signature =>
        SignatureWritten(buf, pos);
    }
  }

  lemma ReadThenWriteNumber(buf: seq<u8>, pos: nat, be: bool, ty: Type)
    requires pos <= |buf| && IsNumber(ty)
    ensures Faithful(buf, pos, be, ty, Dec(buf, pos, be, ty))
  {
    hide Holds, DecFixed, EncFixed, Pattern, NumberOf, Capacity;
    FixedWritten(buf, pos, be, Width(ty));
    var x := DecFixed(buf, pos, be, Width(ty));
    if x.Ok? {
      PatternOfNumber(ty, x.value.value);
    }
  }

  lemma ObjectPathHasNoNul(s: text)
    requires IsValidObjectPath(s)
    ensures 0 !in s
  {
    ObjectPathGrammar(s);
    if |s| > 1 {
      PathTailHasNoNul(s[1..]);
      assert s == [s[0]] + s[1..];
    }
  }

  lemma {:induction false} PathTailHasNoNul(s: text)
    requires PathTail(s)
    ensures 0 !in s
  {
    if |s| > 1 {
      if PathTail(s[1..]) {
        PathTailHasNoNul(s[1..]);
        assert s == [s[0]] + s[1..];
      } else {
        PathTailHasNoNul(s[2..]);
        assert s == [s[0], s[1]] + s[2..];
      }
    }
  }

  // ---- The containers ----

  lemma {:induction false} ReadThenWriteStruct(buf: seq<u8>, pos: nat, be: bool, ty: Type)
    requires pos <= |buf| && NoEmptyStruct(ty) && ty.Struct?
    ensures Faithful(buf, pos, be, ty, Dec(buf, pos, be, ty))
    decreases |buf| - pos, ty, 1, 0
  {
    hide Dec, DecAll, Holds, EncAll, PadLen, WellFormed;
    if Dec(buf, pos, be, ty).Ok? {
      DecStruct(buf, pos, be, ty.fields);
      var start := pos + PadLen(pos, 8);
      var members := DecAll(buf, start, be, ty.fields).value;
      ReadThenWriteAll(buf, start, be, ty.fields);
      RewriteStruct(buf, pos, be, members.value, members.pos);
    }
  }

  lemma RewriteStruct(buf: seq<u8>, pos: nat, be: bool, members: seq<Value>, end: nat)
    requires pos + PadLen(pos, 8) <= |buf| && AllWellFormed(members)
    requires AllRewrite(buf, pos + PadLen(pos, 8), be, members, end)
    ensures WellFormed(Value.Struct(members)) && Rewrites(buf, pos, be, Value.Struct(members), end)
  {
    hide EncAll, Holds, AllWellFormed, AllNulFree, PadLen;
    var start := pos + PadLen(pos, 8);
    var cells := EncAll(members, start, be);
    HoldsPadding(buf, pos, 8);
    if cells.Ok? {
      HoldsConcat(buf, pos, Padding(pos, 8), cells.value);
    }
  }

  lemma {:induction false} ReadThenWriteDictEntry(buf: seq<u8>, pos: nat, be: bool, ty: Type)
    requires pos <= |buf| && NoEmptyStruct(ty) && ty.DictEntry?
    ensures Faithful(buf, pos, be, ty, Dec(buf, pos, be, ty))
    decreases |buf| - pos, ty, 1, 0
  {
    hide Dec, Holds, Rewrites, PadLen;
    if Dec(buf, pos, be, ty).Ok? {
      DecDictEntry(buf, pos, be, ty.key, ty.val);
      var start := pos + PadLen(pos, 8);
      var k := Dec(buf, start, be, ty.key).value;
      var v := Dec(buf, k.pos, be, ty.val).value;
      ReadThenWrite(buf, start, be, ty.key);
      ReadThenWrite(buf, k.pos, be, ty.val);
      RewriteDictEntry(buf, pos, be, k, v);
    }
  }

  lemma RewriteDictEntry(buf: seq<u8>, pos: nat, be: bool, k: Decoded<Value>, v: Decoded<Value>)
    requires pos + PadLen(pos, 8) <= |buf|
    requires Rewrites(buf, pos + PadLen(pos, 8), be, k.value, k.pos)
    requires Rewrites(buf, k.pos, be, v.value, v.pos)
    ensures Rewrites(buf, pos, be, Value.DictEntry(k.value, v.value), v.pos)
  {
    hide Enc, Holds, PadLen;
    EncDictEntry(k.value, v.value, pos, be);
    var start := pos + PadLen(pos, 8);
    var key, val := Enc(k.value, start, be), Enc(v.value, k.pos, be);
    HoldsPadding(buf, pos, 8);
    if key.Ok? && val.Ok? {
      HoldsConcat(buf, pos, Padding(pos, 8), key.value);
      HoldsConcat(buf, pos, Padding(pos, 8) + key.value, val.value);
    }
  }

  lemma {:induction false} ReadThenWriteVariant(buf: seq<u8>, pos: nat, be: bool)
    requires pos <= |buf|
    ensures Faithful(buf, pos, be, Type.Variant, Dec(buf, pos, be, Type.Variant))
    decreases |buf| - pos, Type.Variant, 1, 0
  {
    hide Dec, Holds, Rewrites;
    if Dec(buf, pos, be, Type.Variant).Ok? {
      DecVariant(buf, pos, be);
      var ty := DecVariantType(buf, pos).value;
      var inner := Dec(buf, ty.pos, be, ty.value).value;
      ReadThenWrite(buf, ty.pos, be, ty.value);
      VariantTypeWritten(buf, pos);
      RewriteVariant(buf, pos, be, ty, inner);
    }
  }

  lemma RewriteVariant(buf: seq<u8>, pos: nat, be: bool, ty: Decoded<Type>, inner: Decoded<Value>)
    requires ValueType(inner.value) == ty.value
    requires var w := EncSignature(Print(ty.value));
             w.Ok? && ty.pos == pos + |w.value| && Holds(buf, pos, w.value)
    requires Rewrites(buf, ty.pos, be, inner.value, inner.pos)
    ensures Rewrites(buf, pos, be, Value.Variant(inner.value), inner.pos)
  {
    hide EncAll, Holds, PadLen, EncFixed, EncString, EncSignature, Print;
    var cells := Enc(inner.value, ty.pos, be);
    if cells.Ok? {
      HoldsConcat(buf, pos, EncSignature(Print(ty.value)).value, cells.value);
    }
  }

  lemma {:induction false} ReadThenWriteArray(buf: seq<u8>, pos: nat, be: bool, ty: Type)
    requires pos <= |buf| && NoEmptyStruct(ty) && ty.Array?
    ensures Faithful(buf, pos, be, ty, Dec(buf, pos, be, ty))
    decreases |buf| - pos, ty, 1, 0
  {
    hide Dec, DecElements, DecArrayHead, Holds, EncAll, AllRewrite, Rewrites;
    if Dec(buf, pos, be, ty).Ok? {
      DecArray(buf, pos, be, ty.elem);
      var head := DecArrayHead(buf, pos, be, ty.elem).value;
      var elements := DecElements(buf, head.pos, head.pos + head.value, be, ty.elem).value;
      ArrayHeadWritten(buf, pos, be, ty.elem);
      ReadThenWriteElements(buf, head.pos, head.pos + head.value, be, ty.elem);
      RewriteArray(buf, pos, be, ty.elem, head, elements);
    }
  }

  lemma RewriteArray(buf: seq<u8>, pos: nat, be: bool, elem: Type, head: Decoded<nat>, elements: Decoded<seq<Value>>)
    requires head.value <= MAX_ARRAY_LEN && head.pos == ArrayStart(pos, elem)
    requires elements.pos == head.pos + head.value
    requires Holds(buf, pos, EncArrayHead(pos, be, elem, head.value))
    requires AllRewrite(buf, head.pos, be, elements.value, elements.pos)
    ensures Rewrites(buf, pos, be, Value.Array(elem, elements.value), elements.pos)
  {
    hide EncAll, Holds, AllNulFree, EncArrayHead, ArrayStart;
    var cells := EncAll(elements.value, head.pos, be);
    if cells.Ok? {
      HoldsConcat(buf, pos, EncArrayHead(pos, be, elem, head.value), cells.value);
    }
  }

  lemma {:induction false} ReadThenWriteElements(buf: seq<u8>, pos: nat, end: nat, be: bool, elem: Type)
    requires pos <= |buf| && NoEmptyStruct(elem)
    ensures var r := DecElements(buf, pos, end, be, elem);
            r.Ok? ==> && AllWellFormed(r.value.value) && AllOfType(r.value.value, elem)
                      && AllRewrite(buf, pos, be, r.value.value, r.value.pos)
    decreases |buf| - pos, elem, 2
  {
    hide Dec, Holds, Enc, EncAll, NoEmptyStruct, WellFormed, NulFree, ValueType, Rewrites, AllRewrite;
    var r := DecElements(buf, pos, end, be, elem);
    if r.Ok? {
      if pos >= end {
        RewriteNone(buf, pos, be);
      } else {
        ReadThenWrite(buf, pos, be, elem);
        var first := Dec(buf, pos, be, elem).value;
        ReadThenWriteElements(buf, first.pos, end, be, elem);
        var rest := DecElements(buf, first.pos, end, be, elem).value;
        assert r.value.value[1..] == rest.value;
        RewriteCons(buf, pos, be, first.value, first.pos, rest.value, rest.pos);
      }
    }
  }

  lemma {:induction false} ReadThenWriteAll(buf: seq<u8>, pos: nat, be: bool, tys: seq<Type>)
    requires pos <= |buf| && NoEmptyStructs(tys)
    ensures var r := DecAll(buf, pos, be, tys);
            r.Ok? ==> && ValueTypes(r.value.value) == tys && AllWellFormed(r.value.value)
                      && AllRewrite(buf, pos, be, r.value.value, r.value.pos)
    decreases |buf| - pos, tys, 0
  {
    hide Dec, Holds, Enc, EncAll, NoEmptyStruct, WellFormed, NulFree, ValueType, Rewrites, AllRewrite;
    var r := DecAll(buf, pos, be, tys);
    if r.Ok? {
      if tys == [] {
        RewriteNone(buf, pos, be);
      } else {
        ReadThenWrite(buf, pos, be, tys[0]);
        var first := Dec(buf, pos, be, tys[0]).value;
        ReadThenWriteAll(buf, first.pos, be, tys[1..]);
        var rest := DecAll(buf, first.pos, be, tys[1..]).value;
        assert r.value.value[1..] == rest.value;
        assert tys == [tys[0]] + tys[1..];
        RewriteCons(buf, pos, be, first.value, first.pos, rest.value, rest.pos);
      }
    }
  }

  lemma RewriteNone(buf: seq<u8>, pos: nat, be: bool)
    requires pos <= |buf|
    ensures AllRewrite(buf, pos, be, [], pos)
  {
  }

  lemma RewriteCons(buf: seq<u8>, pos: nat, be: bool, first: Value, next: nat, rest: seq<Value>, end: nat)
    requires Rewrites(buf, pos, be, first, next) && AllRewrite(buf, next, be, rest, end)
    ensures AllRewrite(buf, pos, be, [first] + rest, end)
  {
    hide Enc, Holds, NulFree;
    var values := [first] + rest;
    assert values[0] == first && values[1..] == rest;
    if NulFree(first) && AllNulFree(rest) {
      HoldsConcat(buf, pos, Enc(first, pos, be).value, EncAll(rest, next, be).value);
    }
  }

  // ---- Main results ----

  /** One relation: bytes read as a value exactly when they hold what the writer writes for it. */
  lemma WireRelation(buf: seq<u8>, pos: nat, be: bool, value: Value, end: nat)
    requires pos <= |buf| && NoEmptyStruct(ValueType(value)) && NulFree(value)
    ensures Dec(buf, pos, be, ValueType(value)) == Ok(Decoded(value, end)) <==>
            var w := Enc(value, pos, be);
            WellFormed(value) && w.Ok? && end == pos + |w.value| && Holds(buf, pos, w.value)
  {
    hide Enc, Dec, Holds, WellFormed, NoEmptyStruct, NulFree, ValueType;
    ReadThenWrite(buf, pos, be, ValueType(value));
    var w := Enc(value, pos, be);
    if WellFormed(value) && w.Ok? && Holds(buf, pos, w.value) {
      WriteThenRead(value, buf, pos, be);
    }
  }

  /** The round trip behind any prefix and in front of any trailing bytes, in either byte order:
      what the writer produced is read back as the same value, ending where the writer stopped,
      exactly when the value is well formed. */
  lemma RoundTrip(prefix: seq<u8>, be: bool, value: Value, rest: seq<u8>)
    requires NoEmptyStruct(ValueType(value)) && Enc(value, |prefix|, be).Ok?
    ensures var cells := Enc(value, |prefix|, be).value;
            (Dec(prefix + Wire(cells) + rest, |prefix|, be, ValueType(value)) ==
               Ok(Decoded(value, |prefix| + |cells|))) <==> WellFormed(value)
  {
    hide Enc, Dec, Holds, WellFormed, NoEmptyStruct, NulFree, ValueType, Wire;
    var cells := Enc(value, |prefix|, be).value;
    WireHolds(prefix, cells, rest);
    var buf := prefix + Wire(cells) + rest;
    ReadThenWrite(buf, |prefix|, be, ValueType(value));
    if WellFormed(value) {
      WriteThenRead(value, buf, |prefix|, be);
    }
  }

  /** Every padding byte among the cells is zero. */
  predicate ZeroPadded(buf: seq<u8>, pos: nat, cells: seq<Cell>)
    requires pos + |cells| <= |buf|
  {
    forall i | 0 <= i < |cells| :: cells[i].Pad? ==> buf[pos + i] == 0
  }

  lemma SameBytesExactly(buf: seq<u8>, pos: nat, cells: seq<Cell>)
    requires Holds(buf, pos, cells)
    ensures Wire(cells) == buf[pos..pos + |cells|] <==> ZeroPadded(buf, pos, cells)
  {
    var bytes := buf[pos..pos + |cells|];
    if Wire(cells) == bytes {
      forall i | 0 <= i < |cells| && cells[i].Pad?
        ensures buf[pos + i] == 0
      {
        assert bytes[i] == Wire(cells)[i];
      }
    } else if ZeroPadded(buf, pos, cells) {
      forall i | 0 <= i < |cells|
        ensures Wire(cells)[i] == bytes[i]
      {
        assert bytes[i] == buf[pos + i];
      }
    }
  }

  /** Writing again what was read gives the very bytes that were read if and only if every padding byte among
      them was zero, which the reader does not check. */
  lemma RereadBytesExactly(buf: seq<u8>, pos: nat, be: bool, ty: Type)
    requires pos <= |buf| && NoEmptyStruct(ty)
    requires Dec(buf, pos, be, ty).Ok? && NulFree(Dec(buf, pos, be, ty).value.value)
    ensures var d := Dec(buf, pos, be, ty).value;
            var w := Enc(d.value, pos, be);
            && w.Ok? && d.pos == pos + |w.value| <= |buf|
            && (Wire(w.value) == buf[pos..d.pos] <==> ZeroPadded(buf, pos, w.value))
  {
    hide Enc, Dec, Holds, NoEmptyStruct, NulFree, Wire, WellFormed, ValueType, ZeroPadded;
    ReadThenWrite(buf, pos, be, ty);
    var cells := Enc(Dec(buf, pos, be, ty).value.value, pos, be).value;
    HoldsFits(buf, pos, cells);
    SameBytesExactly(buf, pos, cells);
  }

  /** Padding is read whatever it holds, and then not written again: an aligned number behind three arbitrary
      bytes. */
  lemma PaddingIsNotChecked(be: bool, p: u8)
    ensures var buf := [0, p, p, p] + FixedBytes(be, 4, 7);
            && Dec(buf, 1, be, Type.UInt32) == Ok(Decoded(Value.UInt32(7), 8))
            && Enc(Value.UInt32(7), 1, be).Ok?
            && (Wire(Enc(Value.UInt32(7), 1, be).value) == buf[1..8] <==> p == 0)
  {
    hide FixedBytes, FixedValue;
    var number := FixedBytes(be, 4, 7);
    var buf := [0, p, p, p] + number;
    CapacityOfWidths();
    FixedInverse(be, 4, 7);
    assert buf[4..8] == number;
    var cells := Enc(Value.UInt32(7), 1, be).value;
    assert cells == [Pad, Pad, Pad] + Raw(number);
    assert Wire(cells) == [0, 0, 0] + number;
    assert buf[1..8] == [p, p, p] + number;
    assert ([p, p, p] + number)[0] == p && ([0, 0, 0] + number)[0] == 0;
  }

  /** The reader and writer disagree on exactly one thing: a string with a NUL inside is read, but
      not written. */
  lemma NulIsReadButNotWritten(prefix: seq<u8>, be: bool, s: text, rest: seq<u8>)
    requires ValidUtf8(s) && |s| < 0x1_0000_0000 && 0 in s
    ensures var pos := |prefix|;
            var cells := EncFixed(pos, be, 4, |s|) + Raw(s + [0]);
            && Dec(prefix + Wire(cells) + rest, pos, be, Type.String) ==
                 Ok(Decoded(Value.String(s), pos + |cells|))
            && Enc(Value.String(s), pos, be) == Err(EmbeddedNul)
  {
    hide Holds, DecFixed, EncFixed, ValidUtf8, DecText, Wire;
    var pos := |prefix|;
    var head := EncFixed(pos, be, 4, |s|);
    var cells := head + Raw(s + [0]);
    var buf := prefix + Wire(cells) + rest;
    CapacityOfWidths();
    WireHolds(prefix, cells, rest);
    HoldsConcat(buf, pos, head, Raw(s + [0]));
    FixedRead(buf, pos, be, 4, |s|);
    TextRead(buf, pos + |head|, s);
  }
}

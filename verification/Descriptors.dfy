/** Moving file descriptors out of reply values: each is replaced by its index in the descriptor list. */
module Descriptors {
  import opened Bytes
  import opened Types
  import opened SignatureSpec
  import opened WireSpec
  import opened Message

  /** A 32-bit slot as a descriptor and back. */
  function AsFd(raw: u32): (fd: Fd) {
    if raw < 0x8000_0000 then raw else raw - 0x1_0000_0000
  }

  function AsSlot(fd: Fd): (raw: u32) {
    fd % 0x1_0000_0000
  }

  /** The descriptor slots of a value, in traversal order. */
  function Slots(value: Value): (slots: seq<u32>)
    decreases value, 1
  {
    match value
    case UnixFd(raw) => [raw]
    case Array(_, elements) => AllSlots(elements)
    case Struct(members) => AllSlots(members)
    case DictEntry(k, v) => Slots(k) + Slots(v)
    case Variant(inner) => Slots(inner)
    case _ => []
  }

  function AllSlots(values: seq<Value>): (slots: seq<u32>)
    decreases values, 0
  {
    if values == [] then [] else Slots(values[0]) + AllSlots(values[1..])
  }

  /** Descriptors numbered from base on, in traversal order. */
  function Extract(value: Value, base: nat): (r: Value)
    decreases value, 1
  {
    match value
    case UnixFd(_) => Value.UnixFd(base % 0x1_0000_0000)
    case Array(elemType, elements) => Value.Array(elemType, ExtractAll(elements, base))
    case Struct(members) => Value.Struct(ExtractAll(members, base))
    case DictEntry(k, v) => Value.DictEntry(Extract(k, base), Extract(v, base + |Slots(k)|))
    case Variant(inner) => Value.Variant(Extract(inner, base))
    case _ => value
  }

  function ExtractAll(values: seq<Value>, base: nat): (r: seq<Value>)
    ensures |r| == |values|
    decreases values, 0
  {
    if values == [] then [] else [Extract(values[0], base)] + ExtractAll(values[1..], base + |Slots(values[0])|)
  }

  function AsFds(slots: seq<u32>): (fds: seq<Fd>)
    ensures |fds| == |slots|
  {
    seq(|slots|, i requires 0 <= i < |slots| => AsFd(slots[i]))
  }

  lemma TwoSlots(k: Value, v: Value)
    ensures AllSlots([k, v]) == Slots(k) + Slots(v)
  {
    hide Slots;
    var values := [k, v];
    assert values[1..] == [v] && [v][1..] == [];
    assert AllSlots([v]) == Slots(v) + AllSlots([]) == Slots(v);
  }

  /** The slots stand in the order of traversal: elements and members one after the other, a key before its value. */
  lemma SlotsInOrder(a: seq<Value>, b: seq<Value>, k: Value, v: Value, elemType: Type, raw: u32)
    ensures AllSlots(a + b) == AllSlots(a) + AllSlots(b)
    ensures Slots(Value.Array(elemType, a)) == AllSlots(a) && Slots(Value.Struct(a)) == AllSlots(a)
    ensures Slots(Value.DictEntry(k, v)) == AllSlots([k, v]) && Slots(Value.Variant(v)) == Slots(v)
    ensures Slots(Value.UnixFd(raw)) == [raw]
  {
    hide AllSlots;
    SlotsConcat(a, b);
    TwoSlots(k, v);
  }

  lemma {:induction false} SlotsConcat(a: seq<Value>, b: seq<Value>)
    ensures AllSlots(a + b) == AllSlots(a) + AllSlots(b)
  {
    hide Slots;
    if a == [] {
      assert a + b == b;
    } else {
      assert (a + b)[0] == a[0] && (a + b)[1..] == a[1..] + b;
      SlotsConcat(a[1..], b);
    }
  }

  /** A slot and its descriptor are the same 32 bits. */
  lemma SameBits(raw: u32)
    ensures (AsFd(raw) - raw) % 0x1_0000_0000 == 0
  {
  }

  class Extractor {
    var fds: seq<Fd>

    constructor ()
      ensures fds == []
    {
      fds := [];
    }

    method Walk(value: Value) returns (r: Value)
      modifies this
      ensures r == Extract(value, |old(fds)|)
      ensures fds == old(fds) + AsFds(Slots(value))
      decreases value, 1
    {
      hide AllSlots, ExtractAll, AsFds;
      AsFdsFew();
      match value
      case UnixFd(raw) =>
        var idx := |fds| % 0x1_0000_0000;
        fds := fds + [AsFd(raw)];
        return Value.UnixFd(idx);
      case Array(elemType, elements) =>
        var rs := WalkAll(elements);
        return Value.Array(elemType, rs);
      case Struct(members) =>
        var rs := WalkAll(members);
        return Value.Struct(rs);
      case DictEntry(k, v) =>
        var rk := Walk(k);
        var rv := Walk(v);
        AsFdsConcat(Slots(k), Slots(v));
        return Value.DictEntry(rk, rv);
      case Variant(inner) =>
        var ri := Walk(inner);
        return Value.Variant(ri);
      case _ =>
        assert fds + AsFds([]) == fds;
        return value;
    }

    method WalkAll(values: seq<Value>) returns (rs: seq<Value>)
      modifies this
      ensures rs == ExtractAll(values, |old(fds)|)
      ensures fds == old(fds) + AsFds(AllSlots(values))
      decreases values, 0
    {
      hide Extract, Slots;
      rs := [];
      ghost var seen: seq<u32> := [];
      assert AsFds([]) == [];
      for i := 0 to |values|
        invariant fds == old(fds) + AsFds(seen)
        invariant seen + AllSlots(values[i..]) == AllSlots(values)
        invariant rs + ExtractAll(values[i..], |fds|) == ExtractAll(values, |old(fds)|)
      {
        assert values[i..][0] == values[i] && values[i..][1..] == values[i + 1..];
        AsFdsConcat(seen, Slots(values[i]));
        seen := seen + Slots(values[i]);
        var r := Walk(values[i]);
        rs := rs + [r];
      }
    }
  }

  lemma AsFdsFew()
    ensures AsFds([]) == []
    ensures forall raw: u32 :: AsFds([raw]) == [AsFd(raw)]
  {
  }

  lemma AsFdsConcat(a: seq<u32>, b: seq<u32>)
    ensures AsFds(a + b) == AsFds(a) + AsFds(b)
  {
  }

  /** Values with every descriptor index looked up in the list again. */
  function Restore(value: Value, fds: seq<Fd>): (r: Value)
    decreases value, 1
  {
    match value
    case UnixFd(i) => if i < |fds| then Value.UnixFd(AsSlot(fds[i])) else value
    case Array(elemType, elements) => Value.Array(elemType, RestoreAll(elements, fds))
    case Struct(members) => Value.Struct(RestoreAll(members, fds))
    case DictEntry(k, v) => Value.DictEntry(Restore(k, fds), Restore(v, fds))
    case Variant(inner) => Value.Variant(Restore(inner, fds))
    case _ => value
  }

  function RestoreAll(values: seq<Value>, fds: seq<Fd>): (r: seq<Value>)
    decreases values, 0
  {
    if values == [] then [] else [Restore(values[0], fds)] + RestoreAll(values[1..], fds)
  }

  /** The slice of the list that holds the given slots. */
  predicate Stored(slots: seq<u32>, base: nat, fds: seq<Fd>) {
    base + |slots| <= |fds| && fds[base..base + |slots|] == AsFds(slots)
  }

  lemma StoredConcat(a: seq<u32>, b: seq<u32>, base: nat, fds: seq<Fd>)
    requires Stored(a + b, base, fds)
    ensures Stored(a, base, fds) && Stored(b, base + |a|, fds)
  {
    AsFdsConcat(a, b);
    var whole := fds[base..base + |a + b|];
    assert fds[base..base + |a|] == whole[..|a|];
    assert fds[base + |a|..base + |a| + |b|] == whole[|a|..];
  }

  lemma SlotRoundTrip(raw: u32)
    ensures AsSlot(AsFd(raw)) == raw
  {
  }

  lemma RestoreSlot(raw: u32, base: nat, fds: seq<Fd>)
    requires Stored([raw], base, fds) && |fds| <= 0x1_0000_0000
    ensures base % 0x1_0000_0000 == base && base < |fds| && AsSlot(fds[base]) == raw
  {
    assert fds[base] == fds[base..base + 1][0] == AsFd(raw);
    SlotRoundTrip(raw);
  }

  /** Substituting the list back restores every value. */
  lemma {:induction false} ExtractThenRestore(value: Value, base: nat, fds: seq<Fd>)
    requires Stored(Slots(value), base, fds) && |fds| <= 0x1_0000_0000
    ensures Restore(Extract(value, base), fds) == value
    decreases value, 1
  {
    hide AllSlots, ExtractAll, RestoreAll, Stored, AsSlot;
    match value
    case UnixFd(raw) => RestoreSlot(raw, base, fds);
    case Array(_, elements) => ExtractThenRestoreAll(elements, base, fds);
    case Struct(members) => ExtractThenRestoreAll(members, base, fds);
    case DictEntry(k, v) =>
      StoredConcat(Slots(k), Slots(v), base, fds);
      ExtractThenRestore(k, base, fds);
      ExtractThenRestore(v, base + |Slots(k)|, fds);
    case Variant(inner) => ExtractThenRestore(inner, base, fds);
    case _ =>
  }

  lemma {:induction false} ExtractThenRestoreAll(values: seq<Value>, base: nat, fds: seq<Fd>)
    requires Stored(AllSlots(values), base, fds) && |fds| <= 0x1_0000_0000
    ensures RestoreAll(ExtractAll(values, base), fds) == values
    decreases values, 0
  {
    hide Extract, Restore, Slots;
    if values != [] {
      StoredConcat(Slots(values[0]), AllSlots(values[1..]), base, fds);
      ExtractThenRestore(values[0], base, fds);
      ExtractThenRestoreAll(values[1..], base + |Slots(values[0])|, fds);
      assert ExtractAll(values, base)[1..] == ExtractAll(values[1..], base + |Slots(values[0])|);
      assert values == [values[0]] + values[1..];
    }
  }

  function Range(base: nat, count: nat): (r: seq<u32>)
    ensures |r| == count
  {
    seq(count, i requires 0 <= i < count => (base + i) % 0x1_0000_0000)
  }

  lemma RangeConcat(base: nat, a: nat, b: nat)
    ensures Range(base, a + b) == Range(base, a) + Range(base + a, b)
  {
  }

  /** The new slots are consecutive indices in traversal order: every index below the final count is
      used exactly once. */
  lemma {:induction false} ExtractNumbers(value: Value, base: nat)
    ensures Slots(Extract(value, base)) == Range(base, |Slots(value)|)
    decreases value, 1
  {
    match value
    case UnixFd(_) =>
    case Array(_, elements) => ExtractNumbersAll(elements, base);
    case Struct(members) => ExtractNumbersAll(members, base);
    case DictEntry(k, v) =>
      ExtractNumbers(k, base);
      ExtractNumbers(v, base + |Slots(k)|);
      RangeConcat(base, |Slots(k)|, |Slots(v)|);
    case Variant(inner) => ExtractNumbers(inner, base);
    case _ =>
  }

  lemma {:induction false} ExtractNumbersAll(values: seq<Value>, base: nat)
    ensures AllSlots(ExtractAll(values, base)) == Range(base, |AllSlots(values)|)
    decreases values, 0
  {
    hide Extract, Slots;
    if values != [] {
      var n := |Slots(values[0])|;
      ExtractNumbers(values[0], base);
      ExtractNumbersAll(values[1..], base + n);
      RangeConcat(base, n, |AllSlots(values[1..])|);
      assert ExtractAll(values, base)[1..] == ExtractAll(values[1..], base + n);
    }
  }

  /** Types and well-formedness are untouched, so what could be sent before can be sent after. */
  lemma {:induction false} ExtractKeepsType(value: Value, base: nat)
    ensures ValueType(Extract(value, base)) == ValueType(value)
    ensures WellFormed(value) ==> WellFormed(Extract(value, base))
    decreases value, 1
  {
    hide IsValidObjectPath, ValidUtf8, ParseSignature, WithinLimits;
    match value
    case Array(elemType, elements) => ExtractKeepsTypes(elements, base);
    case Struct(members) => ExtractKeepsTypes(members, base);
    case DictEntry(k, v) =>
      ExtractKeepsType(k, base);
      ExtractKeepsType(v, base + |Slots(k)|);
    case Variant(inner) => ExtractKeepsType(inner, base);
    case _ =>
  }

  lemma {:induction false} ExtractKeepsTypes(values: seq<Value>, base: nat)
    ensures ValueTypes(ExtractAll(values, base)) == ValueTypes(values)
    ensures AllWellFormed(values) ==> AllWellFormed(ExtractAll(values, base))
    ensures forall ty :: AllOfType(values, ty) ==> AllOfType(ExtractAll(values, base), ty)
    decreases values, 0
  {
    hide Extract, Slots, ValueType, WellFormed;
    if values != [] {
      var n := |Slots(values[0])|;
      ExtractKeepsType(values[0], base);
      ExtractKeepsTypes(values[1..], base + n);
      assert ExtractAll(values, base)[1..] == ExtractAll(values[1..], base + n);
    }
  }

  /** The reply's values and descriptor list. */
  method ExtractFds(values: seq<Value>) returns (rs: seq<Value>, fds: seq<Fd>)
    ensures rs == ExtractAll(values, 0) && fds == AsFds(AllSlots(values))
    ensures |fds| <= 0x1_0000_0000 ==> RestoreAll(rs, fds) == values
    ensures ValueTypes(rs) == ValueTypes(values)
    ensures AllSlots(rs) == Range(0, |fds|)
  {
    var x := new Extractor();
    rs := x.WalkAll(values);
    fds := x.fds;
    assert [] + AsFds(AllSlots(values)) == AsFds(AllSlots(values));
    assert fds[0..|fds|] == fds;
    if |fds| <= 0x1_0000_0000 {
      ExtractThenRestoreAll(values, 0, fds);
    }
    ExtractKeepsTypes(values, 0);
    ExtractNumbersAll(values, 0);
  }
}

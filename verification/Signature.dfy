/** The signature parser, with its cursor and its two nesting counters. */
module Signature {
  import opened Wrappers
  import opened Bytes
  import opened Types
  import Spec = SignatureSpec

  class Parser {
    const bytes: text
    var pos: nat
    var arrayDepth: nat
    var structDepth: nat

    ghost predicate Valid()
      reads this
    {
      pos <= |bytes|
    }

    constructor (s: text)
      ensures Valid() && bytes == s && pos == 0 && arrayDepth == 0 && structDepth == 0
    {
      bytes, pos, arrayDepth, structDepth := s, 0, 0, 0;
    }

    function Peek(): (b: Option<u8>)
      requires Valid()
      reads this
    {
      if pos < |bytes| then Some(bytes[pos]) else None
    }

    method Advance() returns (b: Option<u8>)
      requires Valid()
      modifies `pos
      ensures Valid() && b == old(Peek())
      ensures pos == if b.Some? then old(pos) + 1 else old(pos)
    {
      b := Peek();
      if b.Some? {
        pos := pos + 1;
      }
    }

    /** On success the cursor stands behind the type and both counters are restored. */
    ghost predicate Agrees<T>(r: Result<T, CoreError>, expected: Result<T, CoreError>, end: nat, ad: nat, sd: nat)
      reads this
    {
      r == expected && (r.Ok? ==> pos == end && arrayDepth == ad && structDepth == sd)
    }

    method ParseOne(allowDict: bool) returns (r: Result<Type, CoreError>)
      requires Valid()
      modifies this
      ensures Valid()
      ensures match Spec.ParseOne(bytes, old(pos), old(arrayDepth), old(structDepth), allowDict)
              case Ok(p) => Agrees(r, Ok(p.ty), p.pos, old(arrayDepth), old(structDepth))
              case Err(e) => r == Err(e)
      decreases |bytes| - pos, 0
    {
      var b := Advance();
      if b.None? {
        return Err(InvalidSignature);
      }
      match Spec.Leaf(b.value)
      case Some(ty) =>
        return Ok(ty);
      case None =>
        if b.value == OPEN_ARRAY {
          r := ParseArray();
        } else if b.value == OPEN_PAREN {
          r := ParseStruct();
        } else if b.value == OPEN_BRACE {
          if !allowDict {
            return Err(InvalidSignature);
          }
          r := ParseDictEntry();
        } else {
          return Err(InvalidSignature);
        }
    }

    method ParseArray() returns (r: Result<Type, CoreError>)
      requires Valid()
      modifies this
      ensures Valid()
      ensures match Spec.ParseArray(bytes, old(pos), old(arrayDepth), old(structDepth))
              case Ok(p) => Agrees(r, Ok(p.ty), p.pos, old(arrayDepth), old(structDepth))
              case Err(e) => r == Err(e)
      decreases |bytes| - pos, 2
    {
      arrayDepth := arrayDepth + 1;
      if arrayDepth > MAX_ARRAY_DEPTH {
        return Err(NestingTooDeep);
      }
      var elem :- ParseOne(true);
      arrayDepth := arrayDepth - 1;
      return Ok(Type.Array(elem));
    }

    method ParseStruct() returns (r: Result<Type, CoreError>)
      requires Valid()
      modifies this
      ensures Valid()
      ensures match Spec.ParseStruct(bytes, old(pos), old(arrayDepth), old(structDepth))
              case Ok(p) => Agrees(r, Ok(p.ty), p.pos, old(arrayDepth), old(structDepth))
              case Err(e) => r == Err(e)
      decreases |bytes| - pos, 2
    {
      structDepth := structDepth + 1;
      if structDepth > MAX_STRUCT_DEPTH {
        return Err(NestingTooDeep);
      }
      var fields :- ParseFields();
      structDepth := structDepth - 1;
      if fields == [] {
        return Err(InvalidSignature);
      }
      return Ok(Type.Struct(fields));
    }

    /** The field loop of a struct, up to and including the closing parenthesis. */
    method ParseFields() returns (r: Result<seq<Type>, CoreError>)
      requires Valid()
      modifies this
      ensures Valid()
      ensures match Spec.ParseFields(bytes, old(pos), old(arrayDepth), old(structDepth))
              case Ok(p) => Agrees(r, Ok(p.tys), p.pos, old(arrayDepth), old(structDepth))
              case Err(e) => r == Err(e)
      decreases |bytes| - pos, 1
    {
      ghost var all := Spec.ParseFields(bytes, pos, arrayDepth, structDepth);
      var fields: seq<Type> := [];
      assert all.Ok? ==> [] + all.value.tys == all.value.tys;
      while true
        invariant Valid() && pos >= old(pos)
        invariant arrayDepth == old(arrayDepth) && structDepth == old(structDepth)
        invariant match Spec.ParseFields(bytes, pos, arrayDepth, structDepth)
                  case Ok(rest) => all == Ok(Spec.ParsedAll(fields + rest.tys, rest.pos))
                  case Err(e) => all == Err(e)
        decreases |bytes| - pos
      {
        var next := Peek();
        if next.None? {
          return Err(InvalidSignature);
        }
        if next.value == CLOSE_PAREN {
          var _ := Advance();
          assert fields + [] == fields;
          return Ok(fields);
        }
        ghost var here := pos;
        var field :- ParseOne(false);
        ghost var rest := Spec.ParseFields(bytes, pos, arrayDepth, structDepth);
        assert rest.Ok? ==> fields + ([field] + rest.value.tys) == (fields + [field]) + rest.value.tys;
        fields := fields + [field];
      }
    }

    method ParseDictEntry() returns (r: Result<Type, CoreError>)
      requires Valid()
      modifies this
      ensures Valid()
      ensures match Spec.ParseDictEntry(bytes, old(pos), old(arrayDepth), old(structDepth))
              case Ok(p) => Agrees(r, Ok(p.ty), p.pos, old(arrayDepth), old(structDepth))
              case Err(e) => r == Err(e)
      decreases |bytes| - pos, 2
    {
      structDepth := structDepth + 1;
      if structDepth > MAX_STRUCT_DEPTH {
        return Err(NestingTooDeep);
      }
      var key :- ParseOne(false);
      if !IsBasic(key) {
        return Err(InvalidSignature);
      }
      var val :- ParseOne(false);
      var close := Advance();
      if close != Some(CLOSE_BRACE) {
        return Err(InvalidSignature);
      }
      structDepth := structDepth - 1;
      return Ok(Type.DictEntry(key, val));
    }
  }

  method ParseSignature(s: text) returns (r: Result<seq<Type>, CoreError>)
    ensures r == Spec.ParseSignature(s)
  {
    if |s| > MAX_SIGNATURE_LEN {
      return Err(SignatureTooLong(|s|));
    }
    if !Ascii(s) {
      return Err(InvalidSignature);
    }
    var p := new Parser(s);
    var out: seq<Type> := [];
    ghost var all := Spec.ParseRest(s, 0);
    assert all.Ok? ==> [] + all.value == all.value;
    while p.Peek().Some?
      invariant fresh(p) && p.Valid() && p.bytes == s && p.arrayDepth == 0 && p.structDepth == 0
      invariant match Spec.ParseRest(s, p.pos)
                case Ok(rest) => all == Ok(out + rest)
                case Err(e) => all == Err(e)
      decreases |s| - p.pos
    {
      var ty :- p.ParseOne(false);
      ghost var rest := Spec.ParseRest(s, p.pos);
      assert rest.Ok? ==> out + ([ty] + rest.value) == (out + [ty]) + rest.value;
      out := out + [ty];
    }
    assert out + [] == out;
    return Ok(out);
  }

  method ParseSingleCompleteType(s: text) returns (r: Result<Type, CoreError>)
    ensures r == Spec.ParseSingle(s)
  {
    var tys :- ParseSignature(s);
    if |tys| != 1 {
      return Err(InvalidSignature);
    }
    return Ok(tys[0]);
  }
}

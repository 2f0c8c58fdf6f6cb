/** Why a signature is refused: its length, its nesting, or its grammar. */
module SignatureErrors {
  import opened Wrappers
  import opened Bytes
  import opened Types
  import opened SignatureSpec

  /** A grammatical type that does not fit is refused for its nesting, wherever it stands. */
  lemma {:induction false} TooDeep(ty: Type, s: text, pos: nat, ad: nat, sd: nat, underArray: bool)
    requires pos <= |s| && At(s, pos, Print(ty))
    requires Grammatical(ty, underArray) && !Fits(ty, ad, sd, underArray)
    ensures ParseOne(s, pos, ad, sd, underArray) == Err(NestingTooDeep)
    decreases ty, 1, 1
  {
    hide ParseArray, ParseStruct, ParseDictEntry;
    PrintIsAscii(ty);
    assert s[pos] == s[pos..pos + |Print(ty)|][0] == Code(ty);
    match ty
    case Array(_) => ArrayTooDeep(ty, s, pos, ad, sd);
    case Struct(_) => StructTooDeep(ty, s, pos, ad, sd);
    case DictEntry(_, _) => DictEntryTooDeep(ty, s, pos, ad, sd);
  }

  lemma {:induction false} ArrayTooDeep(ty: Type, s: text, pos: nat, ad: nat, sd: nat)
    requires ty.Array? && pos < |s| && At(s, pos, Print(ty))
    requires Grammatical(ty, true) && !Fits(ty, ad, sd, true)
    ensures ParseArray(s, pos + 1, ad, sd) == Err(NestingTooDeep)
    decreases ty, 1, 0
  {
    hide ParseOne;
    if ad + 1 <= MAX_ARRAY_DEPTH {
      AtConcat(s, pos, [Code(ty)], Print(ty.elem));
      TooDeep(ty.elem, s, pos + 1, ad + 1, sd, true);
    }
  }

  lemma {:induction false} StructTooDeep(ty: Type, s: text, pos: nat, ad: nat, sd: nat)
    requires ty.Struct? && pos < |s| && At(s, pos, Print(ty))
    requires Grammatical(ty, true) && !Fits(ty, ad, sd, true)
    ensures ParseStruct(s, pos + 1, ad, sd) == Err(NestingTooDeep)
    decreases ty, 1, 0
  {
    hide ParseFields;
    if sd + 1 <= MAX_STRUCT_DEPTH {
      var fields := PrintAll(ty.fields);
      assert Print(ty) == [Code(ty)] + (fields + [CLOSE_PAREN]);
      AtConcat(s, pos, [Code(ty)], fields + [CLOSE_PAREN]);
      FieldsTooDeep(ty.fields, s, pos + 1, ad, sd + 1);
    }
  }

  lemma {:induction false} DictEntryTooDeep(ty: Type, s: text, pos: nat, ad: nat, sd: nat)
    requires ty.DictEntry? && pos < |s| && At(s, pos, Print(ty))
    requires Grammatical(ty, true) && !Fits(ty, ad, sd, true)
    ensures ParseDictEntry(s, pos + 1, ad, sd) == Err(NestingTooDeep)
    decreases ty, 1, 0
  {
    hide ParseOne, Print, At;
    if sd + 1 <= MAX_STRUCT_DEPTH {
      KeysAreBasic(ty.key);
      DictEntryPieces(ty, s, pos);
      ParsePrinted(ty.key, s, pos + 1, ad, sd + 1, false);
      BasicFits(ty.key, ad, sd + 1);
      TooDeep(ty.val, s, pos + 1 + |Print(ty.key)|, ad, sd + 1, false);
    }
  }

  lemma {:induction false} FieldsTooDeep(tys: seq<Type>, s: text, pos: nat, ad: nat, sd: nat)
    requires pos <= |s| && At(s, pos, PrintAll(tys) + [CLOSE_PAREN])
    requires AllGrammatical(tys) && !AllFit(tys, ad, sd)
    ensures ParseFields(s, pos, ad, sd) == Err(NestingTooDeep)
    decreases tys, 0
  {
    hide ParseOne, Print, Fits, At;
    var next := pos + |Print(tys[0])|;
    FirstField(tys, s, pos);
    if Fits(tys[0], ad, sd, false) {
      ParsePrinted(tys[0], s, pos, ad, sd, false);
      FieldsTooDeep(tys[1..], s, next, ad, sd);
    } else {
      TooDeep(tys[0], s, pos, ad, sd, false);
    }
  }

  lemma {:induction false} RestTooDeep(tys: seq<Type>, s: text, pos: nat)
    requires pos <= |s| && s[pos..] == PrintAll(tys)
    requires AllGrammatical(tys) && !AllFit(tys, 0, 0)
    ensures ParseRest(s, pos) == Err(NestingTooDeep)
    decreases tys
  {
    hide ParseOne;
    var first := Print(tys[0]);
    assert At(s, pos, first) by {
      assert s[pos..pos + |first|] == s[pos..][..|first|];
    }
    assert pos < |s| by { PrintIsAscii(tys[0]); }
    if Fits(tys[0], 0, 0, false) {
      ParsePrinted(tys[0], s, pos, 0, 0, false);
      assert s[pos + |first|..] == s[pos..][|first|..] == PrintAll(tys[1..]);
      RestTooDeep(tys[1..], s, pos + |first|);
    } else {
      TooDeep(tys[0], s, pos, 0, 0, false);
    }
  }

  /** A list of types that follow the grammar is refused, printed, exactly if it is too long or too deep, and by that
      name. */
  lemma RefusalsExactly(tys: seq<Type>)
    requires AllGrammatical(tys)
    ensures ParseSignature(PrintAll(tys)) ==
            if |PrintAll(tys)| > 255 then Err(SignatureTooLong(|PrintAll(tys)|))
            else if ArrayDepths(tys) > 32 || StructDepths(tys) > 32 then Err(NestingTooDeep)
            else Ok(tys)
  {
    hide ParseRest, AllFit;
    var s := PrintAll(tys);
    PrintAllIsAscii(tys);
    AllFitIffWithinLimits(tys, 0, 0);
    assert s[0..] == s;
    if AllFit(tys, 0, 0) {
      ParsePrintedRest(tys, s, 0);
    } else {
      RestTooDeep(tys, s, 0);
    }
  }

  /** Whatever is too long is refused as such, before anything else is looked at. */
  lemma TooLongExactly(s: text)
    ensures ParseSignature(s) == Err(SignatureTooLong(|s|)) <==> |s| > 255
  {
    if |s| <= 255 && Ascii(s) {
      NoLengthError(s, 0);
    }
  }

  lemma {:induction false} NoLengthError(s: text, pos: nat)
    requires pos <= |s|
    ensures var r := ParseRest(s, pos); r.Ok? || r.error == InvalidSignature || r.error == NestingTooDeep
    decreases |s| - pos
  {
    hide ParseOne;
    if pos < |s| {
      OneError(s, pos, 0, 0, false);
      if ParseOne(s, pos, 0, 0, false).Ok? {
        NoLengthError(s, ParseOne(s, pos, 0, 0, false).value.pos);
      }
    }
  }

  lemma {:induction false} OneError(s: text, pos: nat, ad: nat, sd: nat, allowDict: bool)
    requires pos <= |s|
    ensures var r := ParseOne(s, pos, ad, sd, allowDict);
            r.Ok? || r.error == InvalidSignature || r.error == NestingTooDeep
    decreases |s| - pos, 0
  {
    hide Leaf;
    if pos < |s| && Leaf(s[pos]).None? {
      if s[pos] == OPEN_ARRAY {
        OneError(s, pos + 1, ad + 1, sd, true);
      } else if s[pos] == OPEN_PAREN {
        FieldsError(s, pos + 1, ad, sd + 1);
      } else if s[pos] == OPEN_BRACE {
        OneError(s, pos + 1, ad, sd + 1, false);
        var key := ParseOne(s, pos + 1, ad, sd + 1, false);
        if key.Ok? {
          OneError(s, key.value.pos, ad, sd + 1, false);
        }
      }
    }
  }

  lemma {:induction false} FieldsError(s: text, pos: nat, ad: nat, sd: nat)
    requires pos <= |s|
    ensures var r := ParseFields(s, pos, ad, sd); r.Ok? || r.error == InvalidSignature || r.error == NestingTooDeep
    decreases |s| - pos, 1
  {
    hide ParseOne;
    if pos < |s| && s[pos] != CLOSE_PAREN {
      OneError(s, pos, ad, sd, false);
      var first := ParseOne(s, pos, ad, sd, false);
      if first.Ok? {
        FieldsError(s, first.value.pos, ad, sd);
      }
    }
  }
}

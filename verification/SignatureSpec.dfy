/** What the signature parser computes, and its relation to the printer and to the grammar. */
module SignatureSpec {
  import opened Wrappers
  import opened Bytes
  import opened Types
  import opened Text

  datatype Parsed = Parsed(ty: Type, pos: nat)
  datatype ParsedAll = ParsedAll(tys: seq<Type>, pos: nat)

  /** The types written with a single code. */
  function Leaf(c: u8): (r: Option<Type>)
    ensures r.Some? ==> Code(r.value) == c && Print(r.value) == [c]
  {
    match c
    case 121 => Some(Type.Byte)
    case 98 => Some(Type.Boolean)
    case 110 => Some(Type.Int16)
    case 113 => Some(Type.UInt16)
    case 105 => Some(Type.Int32)
    case 117 => Some(Type.UInt32)
    case 120 => Some(Type.Int64)
    case 116 => Some(Type.UInt64)
    case 100 => Some(Type.Double)
    case 115 => Some(Type.String)
    case 111 => Some(Type.ObjectPath)
    case 103 => Some(Type.Signature)
    case 104 => Some(Type.UnixFd)
    case 118 => Some(Type.Variant)
    case _ => None
  }

  /** One complete type starting at pos, inside ad arrays and sd structs or dict entries. */
  function ParseOne(s: text, pos: nat, ad: nat, sd: nat, allowDict: bool): (r: Result<Parsed, CoreError>)
    requires pos <= |s|
    ensures r.Ok? ==> pos < r.value.pos <= |s|
    decreases |s| - pos, 0
  {
    if pos == |s| then Err(InvalidSignature)
    else match Leaf(s[pos])
    case Some(ty) => Ok(Parsed(ty, pos + 1))
    case None =>
      if s[pos] == OPEN_ARRAY then ParseArray(s, pos + 1, ad, sd)
      else if s[pos] == OPEN_PAREN then ParseStruct(s, pos + 1, ad, sd)
      else if s[pos] == OPEN_BRACE && allowDict then ParseDictEntry(s, pos + 1, ad, sd)
      else Err(InvalidSignature)
  }

  function ParseArray(s: text, pos: nat, ad: nat, sd: nat): (r: Result<Parsed, CoreError>)
    requires pos <= |s|
    ensures r.Ok? ==> pos < r.value.pos <= |s|
    decreases |s| - pos, 2
  {
    if ad + 1 > MAX_ARRAY_DEPTH then Err(NestingTooDeep)
    else
      var elem :- ParseOne(s, pos, ad + 1, sd, true);
      Ok(Parsed(Type.Array(elem.ty), elem.pos))
  }

  function ParseStruct(s: text, pos: nat, ad: nat, sd: nat): (r: Result<Parsed, CoreError>)
    requires pos <= |s|
    ensures r.Ok? ==> pos < r.value.pos <= |s|
    decreases |s| - pos, 2
  {
    if sd + 1 > MAX_STRUCT_DEPTH then Err(NestingTooDeep)
    else
      var fields :- ParseFields(s, pos, ad, sd + 1);
      if fields.tys == [] then Err(InvalidSignature)
      else Ok(Parsed(Type.Struct(fields.tys), fields.pos))
  }

  function ParseDictEntry(s: text, pos: nat, ad: nat, sd: nat): (r: Result<Parsed, CoreError>)
    requires pos <= |s|
    ensures r.Ok? ==> pos < r.value.pos <= |s|
    decreases |s| - pos, 2
  {
    if sd + 1 > MAX_STRUCT_DEPTH then Err(NestingTooDeep)
    else
      var key :- ParseOne(s, pos, ad, sd + 1, false);
      if !IsBasic(key.ty) then Err(InvalidSignature)
      else
        var val :- ParseOne(s, key.pos, ad, sd + 1, false);
        if val.pos == |s| || s[val.pos] != CLOSE_BRACE then Err(InvalidSignature)
        else Ok(Parsed(Type.DictEntry(key.ty, val.ty), val.pos + 1))
  }

  /** Struct fields up to and including the closing parenthesis. */
  function ParseFields(s: text, pos: nat, ad: nat, sd: nat): (r: Result<ParsedAll, CoreError>)
    requires pos <= |s|
    ensures r.Ok? ==> pos < r.value.pos <= |s|
    decreases |s| - pos, 1
  {
    if pos == |s| then Err(InvalidSignature)
    else if s[pos] == CLOSE_PAREN then Ok(ParsedAll([], pos + 1))
    else
      var first :- ParseOne(s, pos, ad, sd, false);
      var rest :- ParseFields(s, first.pos, ad, sd);
      Ok(ParsedAll([first.ty] + rest.tys, rest.pos))
  }

  /** Complete types up to the end of the text. */
  function ParseRest(s: text, pos: nat): (r: Result<seq<Type>, CoreError>)
    requires pos <= |s|
    decreases |s| - pos
  {
    if pos == |s| then Ok([])
    else
      var first :- ParseOne(s, pos, 0, 0, false);
      var rest :- ParseRest(s, first.pos);
      Ok([first.ty] + rest)
  }

  function ParseSignature(s: text): (r: Result<seq<Type>, CoreError>)
  {
    if |s| > MAX_SIGNATURE_LEN then Err(SignatureTooLong(|s|))
    else if !Ascii(s) then Err(InvalidSignature)
    else ParseRest(s, 0)
  }

  function ParseSingle(s: text): (r: Result<Type, CoreError>)
  {
    var tys :- ParseSignature(s);
    if |tys| != 1 then Err(InvalidSignature) else Ok(tys[0])
  }

  // ---- The grammar, stated on types ----

  /** The types that may be keys of a dict entry: those of one letter that are not variants. */
  predicate IsKey(ty: Type) {
    |Print(ty)| == 1 && Print(ty) != Txt("v")
  }

  lemma KeysAreBasic(ty: Type)
    ensures IsKey(ty) <==> IsBasic(ty)
  {
    assert Txt("v") == [118];
    if ty.Array? {
      PrintIsAscii(ty.elem);
    }
  }

  /** Dict entries only directly under arrays and with basic keys; no empty structs. */
  predicate Grammatical(ty: Type, underArray: bool)
    decreases ty, 1
  {
    match ty
    case Array(elem) => Grammatical(elem, true)
    case Struct(fields) => fields != [] && AllGrammatical(fields)
    case DictEntry(key, val) => underArray && IsKey(key) && Grammatical(val, false)
    case _ => true
  }

  predicate AllGrammatical(tys: seq<Type>)
    decreases tys, 0
  {
    tys == [] || (Grammatical(tys[0], false) && AllGrammatical(tys[1..]))
  }

  function Max(a: nat, b: nat): (m: nat)
  {
    if a < b then b else a
  }

  /** Most arrays on any path from the root to a leaf. */
  function ArrayDepth(ty: Type): (d: nat)
    decreases ty, 1
  {
    match ty
    case Array(elem) => 1 + ArrayDepth(elem)
    case Struct(fields) => ArrayDepths(fields)
    case DictEntry(key, val) => Max(ArrayDepth(key), ArrayDepth(val))
    case _ => 0
  }

  function ArrayDepths(tys: seq<Type>): (d: nat)
    decreases tys, 0
  {
    if tys == [] then 0 else Max(ArrayDepth(tys[0]), ArrayDepths(tys[1..]))
  }

  /** Most structs and dict entries on any path from the root to a leaf. */
  function StructDepth(ty: Type): (d: nat)
    decreases ty, 1
  {
    match ty
    case Array(elem) => StructDepth(elem)
    case Struct(fields) => 1 + StructDepths(fields)
    case DictEntry(key, val) => 1 + Max(StructDepth(key), StructDepth(val))
    case _ => 0
  }

  function StructDepths(tys: seq<Type>): (d: nat)
    decreases tys, 0
  {
    if tys == [] then 0 else Max(StructDepth(tys[0]), StructDepths(tys[1..]))
  }

  /** The limits of the specification: 32 arrays and 32 structs or dict entries on any path. */
  predicate WithinLimits(ty: Type) {
    && Grammatical(ty, false)
    && ArrayDepth(ty) <= 32
    && StructDepth(ty) <= 32
  }

  predicate AllWithinLimits(tys: seq<Type>) {
    && AllGrammatical(tys)
    && ArrayDepths(tys) <= 32
    && StructDepths(tys) <= 32
  }

  /** The same, counted from inside ad arrays and sd structs or dict entries. */
  predicate Fits(ty: Type, ad: nat, sd: nat, underArray: bool)
    decreases ty, 1
  {
    match ty
    case Array(elem) => ad + 1 <= MAX_ARRAY_DEPTH && Fits(elem, ad + 1, sd, true)
    case Struct(fields) => fields != [] && sd + 1 <= MAX_STRUCT_DEPTH && AllFit(fields, ad, sd + 1)
    case DictEntry(key, val) =>
      underArray && IsBasic(key) && sd + 1 <= MAX_STRUCT_DEPTH && Fits(val, ad, sd + 1, false)
    case _ => true
  }

  predicate AllFit(tys: seq<Type>, ad: nat, sd: nat)
    decreases tys, 0
  {
    tys == [] || (Fits(tys[0], ad, sd, false) && AllFit(tys[1..], ad, sd))
  }

  lemma {:induction false} FitsIffWithinLimits(ty: Type, ad: nat, sd: nat, underArray: bool)
    requires ad <= MAX_ARRAY_DEPTH && sd <= MAX_STRUCT_DEPTH
    ensures Fits(ty, ad, sd, underArray) <==>
            && Grammatical(ty, underArray)
            && ad + ArrayDepth(ty) <= MAX_ARRAY_DEPTH
            && sd + StructDepth(ty) <= MAX_STRUCT_DEPTH
    decreases ty, 1
  {
    match ty
    case Array(elem) =>
      if ad < MAX_ARRAY_DEPTH { FitsIffWithinLimits(elem, ad + 1, sd, true); }
    case Struct(fields) =>
      if sd < MAX_STRUCT_DEPTH { AllFitIffWithinLimits(fields, ad, sd + 1); }
    case DictEntry(key, val) =>
      KeysAreBasic(key);
      if sd < MAX_STRUCT_DEPTH { FitsIffWithinLimits(val, ad, sd + 1, false); }
    case _ =>
  }

  lemma {:induction false} AllFitIffWithinLimits(tys: seq<Type>, ad: nat, sd: nat)
    requires ad <= MAX_ARRAY_DEPTH && sd <= MAX_STRUCT_DEPTH
    ensures AllFit(tys, ad, sd) <==>
            && AllGrammatical(tys)
            && ad + ArrayDepths(tys) <= MAX_ARRAY_DEPTH
            && sd + StructDepths(tys) <= MAX_STRUCT_DEPTH
    decreases tys, 0
  {
    if tys != [] {
      FitsIffWithinLimits(tys[0], ad, sd, false);
      AllFitIffWithinLimits(tys[1..], ad, sd);
    }
  }

  /** The printed form of ty stands at pos. */
  predicate At(s: text, pos: nat, piece: text) {
    pos + |piece| <= |s| && s[pos..pos + |piece|] == piece
  }

  lemma AtConcat(s: text, pos: nat, a: text, b: text)
    ensures At(s, pos, a + b) <==> At(s, pos, a) && At(s, pos + |a|, b)
  {
    if pos + |a + b| <= |s| {
      var whole := s[pos..pos + |a + b|];
      assert whole == s[pos..pos + |a|] + s[pos + |a|..pos + |a| + |b|];
      assert whole[..|a|] == s[pos..pos + |a|];
      assert whole[|a|..] == s[pos + |a|..pos + |a| + |b|];
      assert (a + b)[..|a|] == a && (a + b)[|a|..] == b;
    }
  }

  lemma AtByte(s: text, pos: nat, c: u8)
    ensures At(s, pos, [c]) <==> pos < |s| && s[pos] == c
  {
    if pos < |s| {
      assert s[pos..pos + 1] == [s[pos]];
    }
  }

  /** The outcome of parsing a printed type: itself if it fits, an error otherwise. */
  predicate ReadsBack(r: Result<Parsed, CoreError>, ty: Type, end: nat, fits: bool) {
    if fits then r == Ok(Parsed(ty, end)) else r.Err?
  }

  lemma {:induction false} ParsePrinted(ty: Type, s: text, pos: nat, ad: nat, sd: nat, allowDict: bool)
    requires pos <= |s| && At(s, pos, Print(ty))
    ensures ReadsBack(ParseOne(s, pos, ad, sd, allowDict), ty, pos + |Print(ty)|, Fits(ty, ad, sd, allowDict))
    decreases ty, 1, 1
  {
    PrintIsAscii(ty);
    assert s[pos] == s[pos..pos + |Print(ty)|][0] == Code(ty);
    match ty
    case Array(elem) => ParsePrintedArray(ty, s, pos, ad, sd);
    case Struct(fields) => ParsePrintedStruct(ty, s, pos, ad, sd);
    case DictEntry(key, val) => ParsePrintedDictEntry(ty, s, pos, ad, sd);
    case _ =>
  }

  lemma {:induction false} ParsePrintedArray(ty: Type, s: text, pos: nat, ad: nat, sd: nat)
    requires ty.Array? && pos < |s| && At(s, pos, Print(ty))
    ensures ReadsBack(ParseArray(s, pos + 1, ad, sd), ty, pos + |Print(ty)|, Fits(ty, ad, sd, true))
    decreases ty, 1, 0
  {
    var elem := ty.elem;
    assert At(s, pos + 1, Print(elem)) by {
      AtConcat(s, pos, [Code(ty)], Print(elem));
    }
    ParsePrinted(elem, s, pos + 1, ad + 1, sd, true);
    assert |Print(ty)| == 1 + |Print(elem)|;
  }

  lemma {:induction false} ParsePrintedStruct(ty: Type, s: text, pos: nat, ad: nat, sd: nat)
    requires ty.Struct? && pos < |s| && At(s, pos, Print(ty))
    ensures ReadsBack(ParseStruct(s, pos + 1, ad, sd), ty, pos + |Print(ty)|, Fits(ty, ad, sd, true))
    decreases ty, 1, 0
  {
    hide ParseFields, PrintAll, AllFit;
    var fields := PrintAll(ty.fields);
    assert Print(ty) == [Code(ty)] + (fields + [CLOSE_PAREN]);
    AtConcat(s, pos, [Code(ty)], fields + [CLOSE_PAREN]);
    ParsePrintedFields(ty.fields, s, pos + 1, ad, sd + 1);
  }

  lemma {:induction false} ParsePrintedDictEntry(ty: Type, s: text, pos: nat, ad: nat, sd: nat)
    requires ty.DictEntry? && pos < |s| && At(s, pos, Print(ty))
    ensures ReadsBack(ParseDictEntry(s, pos + 1, ad, sd), ty, pos + |Print(ty)|, Fits(ty, ad, sd, true))
    decreases ty, 1, 0
  {
    hide ParseOne, Print, At;
    DictEntryPieces(ty, s, pos);
    var keyPos := pos + 1;
    ParsePrinted(ty.key, s, keyPos, ad, sd + 1, false);
    ParsePrinted(ty.val, s, keyPos + |Print(ty.key)|, ad, sd + 1, false);
    BasicFits(ty.key, ad, sd + 1);
  }

  lemma BasicFits(ty: Type, ad: nat, sd: nat)
    ensures IsBasic(ty) ==> Fits(ty, ad, sd, false)
  {
  }

  /** Where the parts of a printed dict entry stand. */
  lemma DictEntryPieces(ty: Type, s: text, pos: nat)
    requires ty.DictEntry? && pos < |s| && At(s, pos, Print(ty))
    ensures var keyPos := pos + 1;
            var valPos := keyPos + |Print(ty.key)|;
            var end := valPos + |Print(ty.val)|;
            && At(s, keyPos, Print(ty.key)) && At(s, valPos, Print(ty.val))
            && end < |s| && s[end] == CLOSE_BRACE && pos + |Print(ty)| == end + 1
  {
    hide At;
    var key, val := Print(ty.key), Print(ty.val);
    var keyPos := pos + 1;
    var valPos := keyPos + |key|;
    Regroup([Code(ty)], key, val, [CLOSE_BRACE]);
    AtConcat(s, pos, [Code(ty)], key + (val + [CLOSE_BRACE]));
    AtConcat(s, keyPos, key, val + [CLOSE_BRACE]);
    AtConcat(s, valPos, val, [CLOSE_BRACE]);
    AtByte(s, valPos + |val|, CLOSE_BRACE);
    AtFits(s, keyPos, key);
    AtFits(s, valPos, val);
  }

  lemma Regroup(a: text, b: text, c: text, d: text)
    ensures a + b + c + d == a + (b + (c + d))
  {
  }

  lemma AtFits(s: text, pos: nat, piece: text)
    ensures At(s, pos, piece) ==> pos + |piece| <= |s|
  {
  }

  lemma {:induction false} ParsePrintedFields(tys: seq<Type>, s: text, pos: nat, ad: nat, sd: nat)
    requires pos <= |s| && At(s, pos, PrintAll(tys) + [CLOSE_PAREN])
    ensures if AllFit(tys, ad, sd) then ParseFields(s, pos, ad, sd) == Ok(ParsedAll(tys, pos + |PrintAll(tys)| + 1))
            else ParseFields(s, pos, ad, sd).Err?
    decreases tys, 0
  {
    hide ParseOne, Print, Fits, At;
    if tys == [] {
      assert PrintAll(tys) + [CLOSE_PAREN] == [CLOSE_PAREN];
      AtByte(s, pos, CLOSE_PAREN);
    } else {
      var first, rest := Print(tys[0]), PrintAll(tys[1..]);
      var next := pos + |first|;
      FirstField(tys, s, pos);
      ParsePrinted(tys[0], s, pos, ad, sd, false);
      ParsePrintedFields(tys[1..], s, next, ad, sd);
      FieldsCons(s, pos, ad, sd, tys, next, next + |rest| + 1);
    }
  }

  /** Where the first of some printed fields stands, and the others. */
  lemma FirstField(tys: seq<Type>, s: text, pos: nat)
    requires tys != [] && pos <= |s| && At(s, pos, PrintAll(tys) + [CLOSE_PAREN])
    ensures var first, rest := Print(tys[0]), PrintAll(tys[1..]);
            && |PrintAll(tys)| == |first| + |rest|
            && pos < |s| && s[pos] != CLOSE_PAREN && pos + |first| <= |s|
            && At(s, pos, first) && At(s, pos + |first|, rest + [CLOSE_PAREN])
  {
    hide Print;
    var first, rest := Print(tys[0]), PrintAll(tys[1..]);
    assert PrintAll(tys) + [CLOSE_PAREN] == first + (rest + [CLOSE_PAREN]);
    AtConcat(s, pos, first, rest + [CLOSE_PAREN]);
    PrintIsAscii(tys[0]);
    assert s[pos] == s[pos..pos + |first|][0] == Code(tys[0]);
  }

  lemma FieldsCons(s: text, pos: nat, ad: nat, sd: nat, tys: seq<Type>, next: nat, end: nat)
    requires pos < |s| && s[pos] != CLOSE_PAREN && tys != [] && next <= |s|
    requires ReadsBack(ParseOne(s, pos, ad, sd, false), tys[0], next, Fits(tys[0], ad, sd, false))
    requires if AllFit(tys[1..], ad, sd) then ParseFields(s, next, ad, sd) == Ok(ParsedAll(tys[1..], end))
             else ParseFields(s, next, ad, sd).Err?
    ensures if AllFit(tys, ad, sd) then ParseFields(s, pos, ad, sd) == Ok(ParsedAll(tys, end))
            else ParseFields(s, pos, ad, sd).Err?
  {
    assert tys == [tys[0]] + tys[1..];
  }

  lemma {:induction false} ParsePrintedRest(tys: seq<Type>, s: text, pos: nat)
    requires pos <= |s| && s[pos..] == PrintAll(tys)
    ensures if AllFit(tys, 0, 0) then ParseRest(s, pos) == Ok(tys) else ParseRest(s, pos).Err?
    decreases tys
  {
    hide ParseOne, Print, Fits;
    if tys != [] {
      var first := Print(tys[0]);
      assert At(s, pos, first) by {
        assert s[pos..pos + |first|] == s[pos..][..|first|];
      }
      assert pos < |s| by { PrintIsAscii(tys[0]); }
      ParsePrinted(tys[0], s, pos, 0, 0, false);
      assert s[pos + |first|..] == s[pos..][|first|..] == PrintAll(tys[1..]);
      ParsePrintedRest(tys[1..], s, pos + |first|);
      if AllFit(tys, 0, 0) {
        assert ParseRest(s, pos) == Ok([tys[0]] + tys[1..]);
        assert tys == [tys[0]] + tys[1..];
      }
    }
  }

  /** Whatever the parser accepts is the printed form of what it returns, and fits the limits. */
  predicate PrintsBack(s: text, pos: nat, r: Result<Parsed, CoreError>, ad: nat, sd: nat, underArray: bool)
    requires pos <= |s| && (r.Ok? ==> pos <= r.value.pos <= |s|)
  {
    r.Ok? ==> s[pos..r.value.pos] == Print(r.value.ty) && Fits(r.value.ty, ad, sd, underArray)
  }

  lemma {:induction false} PrintParsed(s: text, pos: nat, ad: nat, sd: nat, allowDict: bool)
    requires pos <= |s|
    ensures PrintsBack(s, pos, ParseOne(s, pos, ad, sd, allowDict), ad, sd, allowDict)
    decreases |s| - pos, 0
  {
    if pos < |s| {
      assert s[pos..pos + 1] == [s[pos]];
      match Leaf(s[pos])
      case Some(_) =>
      case None =>
        PrintParsedArray(s, pos, ad, sd, allowDict);
        PrintParsedStruct(s, pos, ad, sd, allowDict);
        PrintParsedDictEntry(s, pos, ad, sd);
    }
  }

  lemma {:induction false} PrintParsedArray(s: text, pos: nat, ad: nat, sd: nat, underArray: bool)
    requires pos < |s|
    ensures s[pos] == OPEN_ARRAY ==>
              PrintsBack(s, pos, ParseArray(s, pos + 1, ad, sd), ad, sd, underArray)
    decreases |s| - pos - 1, 2
  {
    PrintParsed(s, pos + 1, ad + 1, sd, true);
    var r := ParseArray(s, pos + 1, ad, sd);
    if r.Ok? {
      assert s[pos..r.value.pos] == [s[pos]] + s[pos + 1..r.value.pos];
    }
  }

  lemma {:induction false} PrintParsedStruct(s: text, pos: nat, ad: nat, sd: nat, underArray: bool)
    requires pos < |s|
    ensures s[pos] == OPEN_PAREN ==>
              PrintsBack(s, pos, ParseStruct(s, pos + 1, ad, sd), ad, sd, underArray)
    decreases |s| - pos - 1, 2
  {
    PrintParsedFields(s, pos + 1, ad, sd + 1);
    var r := ParseStruct(s, pos + 1, ad, sd);
    if r.Ok? {
      assert s[pos..r.value.pos] == [s[pos]] + s[pos + 1..r.value.pos];
    }
  }

  lemma {:induction false} PrintParsedDictEntry(s: text, pos: nat, ad: nat, sd: nat)
    requires pos < |s|
    ensures s[pos] == OPEN_BRACE ==> PrintsBack(s, pos, ParseDictEntry(s, pos + 1, ad, sd), ad, sd, true)
    decreases |s| - pos - 1, 2
  {
    hide ParseOne, Print, Fits;
    var r := ParseDictEntry(s, pos + 1, ad, sd);
    if r.Ok? {
      DictEntryForm(r.value.ty, ad, sd);
      PrintParsed(s, pos + 1, ad, sd + 1, false);
      var key := ParseOne(s, pos + 1, ad, sd + 1, false).value;
      PrintParsed(s, key.pos, ad, sd + 1, false);
      var val := ParseOne(s, key.pos, ad, sd + 1, false).value;
      FourSlices(s, pos, key.pos, val.pos);
    }
  }

  lemma DictEntryForm(ty: Type, ad: nat, sd: nat)
    requires ty.DictEntry?
    ensures Print(ty) == [OPEN_BRACE] + Print(ty.key) + Print(ty.val) + [CLOSE_BRACE]
    ensures Fits(ty, ad, sd, true) <==>
              IsBasic(ty.key) && sd + 1 <= MAX_STRUCT_DEPTH && Fits(ty.val, ad, sd + 1, false)
  {
  }

  lemma FourSlices(s: text, a: nat, b: nat, c: nat)
    requires a < b <= c < |s|
    ensures s[a..c + 1] == [s[a]] + s[a + 1..b] + s[b..c] + [s[c]]
  {
  }

  lemma {:induction false} PrintParsedFields(s: text, pos: nat, ad: nat, sd: nat)
    requires pos <= |s|
    ensures var r := ParseFields(s, pos, ad, sd);
            r.Ok? ==> s[pos..r.value.pos] == PrintAll(r.value.tys) + [CLOSE_PAREN] && AllFit(r.value.tys, ad, sd)
    decreases |s| - pos, 1
  {
    var r := ParseFields(s, pos, ad, sd);
    if r.Ok? {
      if s[pos] == CLOSE_PAREN {
        assert s[pos..r.value.pos] == [s[pos]];
      } else {
        PrintParsed(s, pos, ad, sd, false);
        var first := ParseOne(s, pos, ad, sd, false).value;
        PrintParsedFields(s, first.pos, ad, sd);
        assert s[pos..r.value.pos] == s[pos..first.pos] + s[first.pos..r.value.pos];
        assert r.value.tys[1..] == ParseFields(s, first.pos, ad, sd).value.tys;
      }
    }
  }

  lemma {:induction false} PrintParsedRest(s: text, pos: nat)
    requires pos <= |s|
    ensures ParseRest(s, pos).Ok? ==> s[pos..] == PrintAll(ParseRest(s, pos).value)
    decreases |s| - pos
  {
    if pos < |s| && ParseRest(s, pos).Ok? {
      PrintParsed(s, pos, 0, 0, false);
      var first := ParseOne(s, pos, 0, 0, false).value;
      PrintParsedRest(s, first.pos);
      assert s[pos..] == s[pos..first.pos] + s[first.pos..];
      assert ParseRest(s, pos).value[1..] == ParseRest(s, first.pos).value;
    }
  }

  /** Parser and printer are mutual inverses on exactly the signatures within the limits. */
  lemma SignatureInverse(s: text, tys: seq<Type>)
    ensures ParseSignature(s) == Ok(tys) <==>
            s == PrintAll(tys) && |s| <= 255 && AllWithinLimits(tys)
  {
    AllFitIffWithinLimits(tys, 0, 0);
    assert s[0..] == s;
    if ParseSignature(s) == Ok(tys) {
      PrintParsedRest(s, 0);
      ParsePrintedRest(tys, s, 0);
    } else if s == PrintAll(tys) && |s| <= MAX_SIGNATURE_LEN {
      PrintAllIsAscii(tys);
      ParsePrintedRest(tys, s, 0);
    }
  }

  /** A printed type list is either rejected or read back unchanged: printing is unambiguous. */
  lemma PrintedIsUnambiguous(tys: seq<Type>)
    ensures ParseSignature(PrintAll(tys)).Ok? ==> ParseSignature(PrintAll(tys)) == Ok(tys)
  {
    var s := PrintAll(tys);
    assert s[0..] == s;
    ParsePrintedRest(tys, s, 0);
  }

  /** The same for a single complete type, as carried by a variant. */
  lemma SingleInverse(s: text, ty: Type)
    ensures ParseSingle(s) == Ok(ty) <==>
            s == Print(ty) && |s| <= 255 && WithinLimits(ty)
  {
    SignatureInverse(s, [ty]);
    assert [ty][1..] == [];
    assert PrintAll([ty]) == Print(ty) + [] == Print(ty);
    assert PrintAll([]) == [] && ArrayDepths([]) == 0 && StructDepths([]) == 0 && AllGrammatical([]);
    assert ArrayDepths([ty]) == ArrayDepth(ty) && StructDepths([ty]) == StructDepth(ty);
    assert AllGrammatical([ty]) <==> Grammatical(ty, false);
    if ParseSingle(s) == Ok(ty) {
      assert ParseSignature(s).value == [ty];
    } else {
      assert ParseSignature(s) != Ok([ty]);
    }
  }

  lemma {:induction false} GrammaticalHasNoEmptyStruct(ty: Type, underArray: bool)
    requires Grammatical(ty, underArray)
    ensures NoEmptyStruct(ty)
    decreases ty, 1
  {
    match ty
    case Array(elem) => GrammaticalHasNoEmptyStruct(elem, true);
    case Struct(fields) => AllGrammaticalHaveNoEmptyStruct(fields);
    case DictEntry(key, val) =>
      KeysAreBasic(key);
      GrammaticalHasNoEmptyStruct(val, false);
    case _ =>
  }

  lemma {:induction false} AllGrammaticalHaveNoEmptyStruct(tys: seq<Type>)
    requires AllGrammatical(tys)
    ensures NoEmptyStructs(tys)
    decreases tys, 0
  {
    if tys != [] {
      GrammaticalHasNoEmptyStruct(tys[0], false);
      AllGrammaticalHaveNoEmptyStruct(tys[1..]);
    }
  }

  /** Every type the parser hands to the reader is free of empty structs. */
  lemma ParsedTypesAreReadable(s: text)
    ensures ParseSignature(s).Ok? ==> NoEmptyStructs(ParseSignature(s).value)
    ensures ParseSingle(s).Ok? ==> NoEmptyStruct(ParseSingle(s).value)
  {
    if ParseSignature(s).Ok? {
      var tys := ParseSignature(s).value;
      SignatureInverse(s, tys);
      AllGrammaticalHaveNoEmptyStruct(tys);
    }
  }
}

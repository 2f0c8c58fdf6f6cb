/** Reading a printed match rule: what comes back, and exactly when it is the rule itself. */
module MatchRuleProofs {
  import opened Wrappers
  import opened Bytes
  import opened Text
  import opened MatchRules
  import H = Header

  // ---- Printing: the inverse the reader is measured against ----

  /** Each quote closes the value, stands escaped outside it, and opens it again. */
  function EscapeQuotes(v: text): (s: text) {
    if v == [] then []
    else (if v[0] == QUOTE then [QUOTE, BACKSLASH, QUOTE, QUOTE] else [v[0]]) + EscapeQuotes(v[1..])
  }

  function PrintPair(p: Pair): (s: text) {
    p.0 + [EQUALS] + ([QUOTE] + EscapeQuotes(p.1) + [QUOTE])
  }

  function PrintPairs(pairs: seq<Pair>): (s: text)
    decreases |pairs|
  {
    if pairs == [] then []
    else if |pairs| == 1 then PrintPair(pairs[0])
    else PrintPair(pairs[0]) + [COMMA] + PrintPairs(pairs[1..])
  }

  function Optional(key: text, value: Option<text>): (pairs: seq<Pair>) {
    if value.None? then [] else [(key, value.value)]
  }

  function TypeText(t: Option<H.MessageType>): (s: Option<text>) {
    if t.None? then None else Some(TypeName(t.value))
  }

  function ArgKey(n: nat): (key: text) {
    ARG + Decimal(n)
  }

  function ArgPathKey(n: nat): (key: text) {
    ARG + (Decimal(n) + PATH)
  }

  function ArgPairs(args: seq<(nat, text)>): (pairs: seq<Pair>) {
    seq(|args|, i requires 0 <= i < |args| => (ArgKey(args[i].0), args[i].1))
  }

  function ArgPathPairs(args: seq<(nat, text)>): (pairs: seq<Pair>) {
    seq(|args|, i requires 0 <= i < |args| => (ArgPathKey(args[i].0), args[i].1))
  }

  /** A key and the value it has in a rule, if any. */
  type Field = (text, Option<text>)

  function FixedFields(rule: MatchRule): (fields: seq<Field>) {
    [(TYPE, TypeText(rule.messageType)), (SENDER, rule.sender), (INTERFACE, rule.interface), (MEMBER, rule.member),
     (PATH, rule.path), (PATH_NAMESPACE, rule.pathNamespace), (DESTINATION, rule.destination),
     (ARG0NAMESPACE, rule.arg0namespace), (EAVESDROP, if rule.eavesdrop then Some(TRUE) else None)]
  }

  /** The fields that have a value, in order. */
  function Present(fields: seq<Field>): (pairs: seq<Pair>)
    decreases |fields|
  {
    if fields == [] then [] else Optional(fields[0].0, fields[0].1) + Present(fields[1..])
  }

  function FixedPairs(rule: MatchRule): (pairs: seq<Pair>) {
    Present(FixedFields(rule))
  }

  function RulePairs(rule: MatchRule): (pairs: seq<Pair>) {
    FixedPairs(rule) + ArgPairs(rule.args) + ArgPathPairs(rule.argPaths)
  }

  function PrintRule(rule: MatchRule): (s: text) {
    PrintPairs(RulePairs(rule))
  }

  // ---- What values become ----

  /** A value read back byte by byte as characters. */
  function Chars(v: text): (s: text) {
    if v == [] then [] else AsChar(v[0]) + Chars(v[1..])
  }

  lemma {:induction false} CharsExactly(v: text)
    ensures |Chars(v)| >= |v|
    ensures Ascii(v) ==> Chars(v) == v
    ensures !Ascii(v) ==> |Chars(v)| > |v|
  {
    if v != [] {
      CharsExactly(v[1..]);
      assert v == [v[0]] + v[1..];
    }
  }

  function CharPairs(pairs: seq<Pair>): (r: seq<Pair>) {
    seq(|pairs|, i requires 0 <= i < |pairs| => (pairs[i].0, Chars(pairs[i].1)))
  }

  // ---- Tokens ----

  predicate EscapeFollows(tail: text) {
    2 <= |tail| && tail[0] == BACKSLASH && tail[1] == QUOTE
  }

  lemma {:induction false} QuotedEscaped(v: text, tail: text)
    requires !EscapeFollows(tail)
    ensures Quoted(EscapeQuotes(v) + [QUOTE] + tail) == Ok((Chars(v), tail))
  {
    var s := EscapeQuotes(v) + [QUOTE] + tail;
    if v == [] {
      assert s == [QUOTE] + tail && s[1..] == tail;
    } else {
      var rest := EscapeQuotes(v[1..]) + [QUOTE] + tail;
      QuotedEscaped(v[1..], tail);
      if v[0] == QUOTE {
        assert s == [QUOTE, BACKSLASH, QUOTE, QUOTE] + rest && s[4..] == rest;
      } else {
        assert s == [v[0]] + rest && s[1..] == rest;
      }
    }
  }

  lemma ReadPrintedPair(p: Pair, tail: text)
    requires EQUALS !in p.0 && !EscapeFollows(tail)
    ensures ReadPair(PrintPair(p) + tail) == Ok(((p.0, Chars(p.1)), SkipComma(tail)))
  {
    hide Quoted, SplitOnce, EscapeQuotes, Chars;
    var value := [QUOTE] + EscapeQuotes(p.1) + [QUOTE] + tail;
    assert PrintPair(p) + tail == p.0 + [EQUALS] + value;
    SplitOnceFirst(p.0, EQUALS, value);
    assert value[1..] == EscapeQuotes(p.1) + [QUOTE] + tail;
    QuotedEscaped(p.1, tail);
  }

  predicate KeysOk(pairs: seq<Pair>) {
    forall p | p in pairs :: EQUALS !in p.0
  }

  /** Reading any list of printed pairs gives the same keys in order, each value byte by byte, whatever
      quotes, commas, backslashes or equals signs it contains. */
  lemma {:induction false} TokenizePrinted(pairs: seq<Pair>)
    requires KeysOk(pairs)
    ensures Tokenize(PrintPairs(pairs)) == Ok(CharPairs(pairs))
    decreases |pairs|
  {
    hide ReadPair, PrintPair, Chars;
    if pairs == [] {
      assert CharPairs(pairs) == [];
    } else {
      var first, rest := pairs[0], pairs[1..];
      var tail := if rest == [] then [] else [COMMA] + PrintPairs(rest);
      assert PrintPairs(pairs) == PrintPair(first) + tail;
      PrintedIsNotEmpty(first);
      ReadPrintedPair(first, tail);
      TokenizePrinted(rest);
      assert SkipComma(tail) == PrintPairs(rest);
      assert CharPairs(pairs) == [(first.0, Chars(first.1))] + CharPairs(rest);
    }
  }

  /** What follows a pair, without the comma in front of it if there is one. */
  function AfterComma(s: text): (r: text)
    ensures |r| <= |s|
  {
    if Txt(",") <= s then s[1..] else s
  }

  lemma OneCommaSkipped(s: text)
    ensures SkipComma(s) == AfterComma(s)
  {
    assert Txt(",") == [COMMA];
  }

  /** The grammar of a rule: printed pairs, each followed by a comma or not. */
  predicate Denotes(s: text, pairs: seq<Pair>)
    decreases |pairs|
  {
    if pairs == [] then s == []
    else
      var p := PrintPair(pairs[0]);
      && EQUALS !in pairs[0].0 && p <= s && !EscapeFollows(s[|p|..])
      && Denotes(AfterComma(s[|p|..]), pairs[1..])
  }

  lemma {:induction false} QuotedIsEscaped(s: text)
    requires Ascii(s) && Quoted(s).Ok?
    ensures var (v, tail) := Quoted(s).value;
            s == EscapeQuotes(v) + [QUOTE] + tail && !EscapeFollows(tail) && Ascii(v) && Ascii(tail)
    decreases |s|
  {
    hide AsChar, EscapeQuotes, Ascii;
    AsciiRest(s, 0);
    AsciiRest(s, 1);
    if s[0] != QUOTE {
      QuotedIsEscaped(s[1..]);
      var (v, tail) := Quoted(s[1..]).value;
      PlainStep(s[0], v, tail);
      AsciiFront([s[0]], v);
      assert s == [s[0]] + s[1..];
    } else if EscapeFollows(s[1..]) {
      AsciiRest(s, 4);
      QuotedIsEscaped(s[4..]);
      var (v, tail) := Quoted(s[4..]).value;
      QuoteStep(v, tail);
      AsciiFront([QUOTE], v);
      assert s == [QUOTE, BACKSLASH, QUOTE, QUOTE] + s[4..];
    } else {
      QuoteStep([], []);
      assert s == [QUOTE] + s[1..] && [] + [QUOTE] == [QUOTE];
    }
  }

  lemma AsciiRest(s: text, i: nat)
    requires Ascii(s) && i <= |s|
    ensures Ascii(s[i..]) && Ascii([]) && (i < |s| ==> s[i] < 128 && Ascii([s[i]]))
  {
  }

  lemma AsciiFront(a: text, b: text)
    requires Ascii(a) && Ascii(b)
    ensures Ascii(a + b)
  {
  }

  lemma QuoteStep(v: text, tail: text)
    ensures EscapeQuotes([QUOTE] + v) + [QUOTE] + tail ==
            [QUOTE, BACKSLASH, QUOTE, QUOTE] + (EscapeQuotes(v) + [QUOTE] + tail)
    ensures EscapeQuotes([]) == [] && Ascii([QUOTE])
  {
    assert ([QUOTE] + v)[1..] == v;
  }

  lemma PlainStep(b: u8, v: text, tail: text)
    requires b < 128 && b != QUOTE
    ensures AsChar(b) + v == [b] + v
    ensures EscapeQuotes([b] + v) + [QUOTE] + tail == [b] + (EscapeQuotes(v) + [QUOTE] + tail)
  {
    assert ([b] + v)[1..] == v;
  }

  lemma ReadPairIsPrinted(s: text)
    requires Ascii(s) && ReadPair(s).Ok?
    ensures var (p, after) := ReadPair(s).value;
            && EQUALS !in p.0 && PrintPair(p) <= s && !EscapeFollows(s[|PrintPair(p)|..])
            && after == AfterComma(s[|PrintPair(p)|..]) && Ascii(p.1) && Ascii(after)
  {
    hide Quoted, SplitOnce, EscapeQuotes, AfterComma;
    SplitOnceParts(s, EQUALS);
    var (key, rest) := SplitOnce(s, EQUALS).value;
    assert rest == s[|key| + 1..] && rest == [QUOTE] + rest[1..];
    QuotedIsEscaped(rest[1..]);
    var (value, tail) := Quoted(rest[1..]).value;
    assert s == PrintPair((key, value)) + tail;
    OneCommaSkipped(tail);
  }

  /** The reader accepts exactly the texts of the grammar, and returns the pairs they denote. */
  lemma {:induction false} TokensExactly(s: text, pairs: seq<Pair>)
    requires Ascii(s)
    ensures Tokenize(s) == Ok(pairs) <==> Denotes(s, pairs)
    decreases |s|
  {
    hide ReadPair, PrintPair, Ascii, Chars, SkipComma, AfterComma;
    if s == [] {
      if pairs != [] {
        PrintedIsNotEmpty(pairs[0]);
      }
    } else {
      if ReadPair(s).Ok? {
        ReadPairIsPrinted(s);
        var (p, after) := ReadPair(s).value;
        TokensExactly(after, if pairs == [] then [] else pairs[1..]);
        if Tokenize(s) == Ok(pairs) {
          assert pairs[0] == p && Tokenize(after) == Ok(pairs[1..]);
        }
      }
      if Denotes(s, pairs) {
        var n := |PrintPair(pairs[0])|;
        assert s == PrintPair(pairs[0]) + s[n..];
        OneCommaSkipped(s[n..]);
        ReadPrintedPair(pairs[0], s[n..]);
        ValueIsAscii(pairs[0], s);
        assert pairs == [pairs[0]] + pairs[1..];
      }
    }
  }

  lemma AsciiParts(a: text, b: text)
    requires Ascii(a + b)
    ensures Ascii(a) && Ascii(b)
  {
    var s := a + b;
    assert forall i | 0 <= i < |a| :: s[i] == a[i];
    forall i | 0 <= i < |b|
      ensures b[i] < 128
    {
      assert s[|a| + i] == b[i];
    }
  }

  lemma {:induction false} EscapedIsAscii(v: text)
    requires Ascii(EscapeQuotes(v))
    ensures Chars(v) == v
  {
    if v != [] {
      var front := if v[0] == QUOTE then [QUOTE, BACKSLASH, QUOTE, QUOTE] else [v[0]];
      var rest := EscapeQuotes(v[1..]);
      AsciiParts(front, rest);
      EscapedIsAscii(v[1..]);
      assert v[0] < 128 by {
        assert front[0] == v[0];
      }
      assert v == [v[0]] + v[1..];
    }
  }

  lemma ValueIsAscii(p: Pair, s: text)
    requires Ascii(s) && PrintPair(p) <= s
    ensures Chars(p.1) == p.1
  {
    hide EscapeQuotes, Chars;
    var k := |p.0| + 2;
    var e := EscapeQuotes(p.1);
    assert PrintPair(p)[k..k + |e|] == e;
    assert s[k..k + |e|] == e;
    EscapedIsAscii(p.1);
  }

  lemma PrintedIsNotEmpty(p: Pair)
    ensures |PrintPair(p)| > 0
  {
  }

  // ---- Fields ----

  lemma {:induction false} SetFieldsConcat(rule: MatchRule, a: seq<Pair>, b: seq<Pair>)
    ensures SetFields(rule, a + b) ==
            (var r := SetFields(rule, a); if r.Err? then r else SetFields(r.value, b))
    decreases |a|
  {
    hide SetField;
    if a == [] {
      assert a + b == b;
    } else {
      assert (a + b)[0] == a[0] && (a + b)[1..] == a[1..] + b;
      var next := SetField(rule, a[0].0, a[0].1);
      if next.Ok? {
        SetFieldsConcat(next.value, a[1..], b);
      }
    }
  }

  lemma SetOptional(rule: MatchRule, key: text, value: Option<text>)
    ensures SetFields(rule, Optional(key, value)) ==
            if value.None? then Ok(rule) else SetField(rule, key, value.value)
  {
    hide SetField;
    if value.Some? {
      var pairs := Optional(key, value);
      assert pairs[1..] == [];
    }
  }

  lemma KeyFacts()
    ensures |TYPE| == 4 && TYPE[0] == 116
    ensures |SENDER| == 6 && SENDER[0] == 115
    ensures |INTERFACE| == 9 && INTERFACE[0] == 105
    ensures |MEMBER| == 6 && MEMBER[0] == 109
    ensures |PATH| == 4 && PATH == [112, 97, 116, 104]
    ensures |PATH_NAMESPACE| == 14
    ensures |DESTINATION| == 11
    ensures |EAVESDROP| == 9 && EAVESDROP[0] == 101
    ensures |ARG0NAMESPACE| == 13
    ensures ARG == [97, 114, 103]
  {
  }

  lemma TypeNames(t: H.MessageType)
    ensures TypeOfName(TypeName(t)) == Ok(t) && Ascii(TypeName(t))
  {
    TypeNamesAreAscii(t);
    hide Txt;
    assert |Txt("signal")| == 6 && |Txt("method_call")| == 11 && |Txt("method_return")| == 13 && |Txt("error")| == 5;
  }

  lemma TypeNamesAreAscii(t: H.MessageType)
    ensures Ascii(TypeName(t))
  {
  }

  lemma SetFixed(r: MatchRule, v: text)
    ensures SetField(r, SENDER, v) == Ok(r.(sender := Some(v)))
    ensures SetField(r, INTERFACE, v) == Ok(r.(interface := Some(v)))
    ensures SetField(r, MEMBER, v) == Ok(r.(member := Some(v)))
    ensures SetField(r, PATH, v) == Ok(r.(path := Some(v)))
    ensures SetField(r, PATH_NAMESPACE, v) == Ok(r.(pathNamespace := Some(v)))
    ensures SetField(r, DESTINATION, v) == Ok(r.(destination := Some(v)))
    ensures SetField(r, EAVESDROP, v) == Ok(r.(eavesdrop := v == TRUE))
    ensures SetField(r, ARG0NAMESPACE, v) == Ok(r.(arg0namespace := Some(v)))
  {
    hide SetArg;
    KeyFacts();
  }

  lemma SetType(r: MatchRule, t: H.MessageType)
    ensures SetField(r, TYPE, TypeName(t)) == Ok(r.(messageType := Some(t)))
  {
    hide TypeName, TypeOfName;
    TypeNames(t);
  }

  function SetIfPresent(r: MatchRule, f: Field): (s: Result<MatchRule, RuleError>) {
    if f.1.None? then Ok(r) else SetField(r, f.0, f.1.value)
  }

  /** Reading the fields that are present goes through the stages of reading one field after the other. */
  lemma {:induction false} PresentIsSet(fields: seq<Field>, stages: seq<MatchRule>)
    requires |stages| == |fields| + 1
    requires forall i | 0 <= i < |fields| :: SetIfPresent(stages[i], fields[i]) == Ok(stages[i + 1])
    ensures SetFields(stages[0], Present(fields)) == Ok(stages[|fields|])
    decreases |fields|
  {
    hide SetField, Optional;
    if fields != [] {
      assert SetIfPresent(stages[0], fields[0]) == Ok(stages[1]);
      forall i | 0 <= i < |fields[1..]|
        ensures SetIfPresent(stages[1..][i], fields[1..][i]) == Ok(stages[1..][i + 1])
      {
        assert SetIfPresent(stages[i + 1], fields[i + 1]) == Ok(stages[i + 2]);
      }
      PresentIsSet(fields[1..], stages[1..]);
      SetOptional(stages[0], fields[0].0, fields[0].1);
      SetFieldsConcat(stages[0], Optional(fields[0].0, fields[0].1), Present(fields[1..]));
    }
  }

  /** The rule once its first k fixed fields have been read. */
  function Stage(rule: MatchRule, raw: text, k: nat): (r: MatchRule) {
    MatchRule(
      if k > 0 then rule.messageType else None,
      if k > 1 then rule.sender else None,
      if k > 2 then rule.interface else None,
      if k > 3 then rule.member else None,
      if k > 4 then rule.path else None,
      if k > 5 then rule.pathNamespace else None,
      if k > 6 then rule.destination else None,
      [], [],
      if k > 7 then rule.arg0namespace else None,
      k > 8 && rule.eavesdrop,
      raw)
  }

  /** Each fixed field is set in its own place. */
  lemma StageStep(rule: MatchRule, raw: text, k: nat)
    requires k < 9
    ensures SetIfPresent(Stage(rule, raw, k), FixedFields(rule)[k]) == Ok(Stage(rule, raw, k + 1))
  {
    hide SetField, Txt, TypeName;
    var v := FixedFields(rule)[k].1;
    if v.Some? {
      SetFixed(Stage(rule, raw, k), v.value);
      if k == 0 {
        SetType(Stage(rule, raw, k), rule.messageType.value);
      }
    }
  }

  lemma FixedPairsAreSet(rule: MatchRule, raw: text)
    ensures SetFields(EmptyRule(raw), FixedPairs(rule)) == Ok(rule.(args := [], argPaths := [], raw := raw))
  {
    hide SetFields, SetIfPresent, Stage, FixedFields, Present;
    var stages := seq(10, k requires 0 <= k < 10 => Stage(rule, raw, k));
    assert |FixedFields(rule)| == 9 && stages[0] == EmptyRule(raw) by {
      FirstStage(rule, raw);
    }
    forall i | 0 <= i < 9
      ensures SetIfPresent(stages[i], FixedFields(rule)[i]) == Ok(stages[i + 1])
    {
      StageStep(rule, raw, i);
    }
    PresentIsSet(FixedFields(rule), stages);
    assert stages[9] == rule.(args := [], argPaths := [], raw := raw) by {
      FirstStage(rule, raw);
    }
  }

  lemma FirstStage(rule: MatchRule, raw: text)
    ensures |FixedFields(rule)| == 9
    ensures Stage(rule, raw, 0) == EmptyRule(raw)
    ensures Stage(rule, raw, 9) == rule.(args := [], argPaths := [], raw := raw)
  {
  }

  lemma TrimArg(n: nat, tail: text)
    ensures StartsWith(ARG + (Decimal(n) + tail), ARG)
    ensures TrimPrefixes(ARG + (Decimal(n) + tail), ARG) == Decimal(n) + tail
  {
    KeyFacts();
    var s := Decimal(n) + tail;
    assert (ARG + s)[..3] == ARG && (ARG + s)[3..] == s;
    assert !StartsWith(s, ARG) by {
      assert s[0] == Decimal(n)[0] && ARG[0] == 97;
      assert |s| >= 3 ==> s[..3][0] == s[0];
    }
  }

  lemma TrimPath(n: nat)
    ensures !EndsWith(Decimal(n), PATH) && !EndsWith(ARG + Decimal(n), PATH)
    ensures EndsWith(ARG + (Decimal(n) + PATH), PATH)
    ensures TrimSuffixes(Decimal(n) + PATH, PATH) == Decimal(n)
  {
    KeyFacts();
    var d := Decimal(n);
    NotAPath(d, d[|d| - 1]);
    NotAPath(ARG + d, d[|d| - 1]);
    assert (d + PATH)[|d|..] == PATH && (d + PATH)[..|d|] == d;
    var key := ARG + (d + PATH);
    assert key[|key| - 4..] == PATH;
  }

  lemma NotAPath(s: text, last: u8)
    requires s != [] && s[|s| - 1] == last && last < 58
    ensures !EndsWith(s, PATH)
  {
    KeyFacts();
    assert |s| >= 4 ==> s[|s| - 4..][3] == last;
  }

  /** The keys of arguments are none of the fixed keys and say their index. */
  lemma SetArgs(r: MatchRule, n: nat, v: text)
    ensures n <= MAX_ARG_INDEX ==>
              && SetField(r, ArgKey(n), v) == Ok(r.(args := r.args + [(n, v)]))
              && SetField(r, ArgPathKey(n), v) == Ok(r.(argPaths := r.argPaths + [(n, v)]))
    ensures EQUALS !in ArgKey(n) && EQUALS !in ArgPathKey(n)
  {
    hide TrimPrefixes, TrimSuffixes, StartsWith, EndsWith, ParseUnsigned;
    KeyFacts();
    TrimArg(n, []);
    TrimArg(n, PATH);
    TrimPath(n);
    assert Decimal(n) + [] == Decimal(n);
    if n <= MAX_ARG_INDEX {
      DecimalRoundTrip(n, 0x1_0000_0000_0000_0000);
      SmallDecimal(n);
    }
  }

  lemma SmallDecimal(n: nat)
    requires n <= MAX_ARG_INDEX
    ensures 1 <= |Decimal(n)| <= 2
  {
  }

  predicate IndicesOk(args: seq<(nat, text)>) {
    forall a | a in args :: a.0 <= MAX_ARG_INDEX
  }

  predicate Ranged(rule: MatchRule) {
    IndicesOk(rule.args) && IndicesOk(rule.argPaths)
  }

  lemma {:induction false} ArgPairsAreSet(r: MatchRule, args: seq<(nat, text)>)
    requires IndicesOk(args)
    ensures SetFields(r, ArgPairs(args)) == Ok(r.(args := r.args + args))
    ensures SetFields(r, ArgPathPairs(args)) == Ok(r.(argPaths := r.argPaths + args))
    decreases |args|
  {
    hide SetField, ArgKey, ArgPathKey;
    if args == [] {
      assert r.args + args == r.args && r.argPaths + args == r.argPaths;
    } else {
      var (n, v) := args[0];
      assert args[0] in args && forall a | a in args[1..] :: a in args;
      SetArgs(r, n, v);
      assert ArgPairs(args)[1..] == ArgPairs(args[1..]);
      assert ArgPathPairs(args)[1..] == ArgPathPairs(args[1..]);
      assert (r.args + [(n, v)]) + args[1..] == r.args + args;
      assert (r.argPaths + [(n, v)]) + args[1..] == r.argPaths + args;
      ArgPairsAreSet(r.(args := r.args + [(n, v)]), args[1..]);
      ArgPairsAreSet(r.(argPaths := r.argPaths + [(n, v)]), args[1..]);
    }
  }

  lemma RulePairsAreSet(rule: MatchRule, raw: text)
    requires Ranged(rule)
    ensures SetFields(EmptyRule(raw), RulePairs(rule)) == Ok(rule.(raw := raw))
  {
    hide SetFields, FixedPairs, ArgPairs, ArgPathPairs;
    var fixed := FixedPairs(rule);
    FixedPairsAreSet(rule, raw);
    var r := rule.(args := [], argPaths := [], raw := raw);
    SetFieldsConcat(EmptyRule(raw), fixed, ArgPairs(rule.args));
    ArgPairsAreSet(r, rule.args);
    SetFieldsConcat(EmptyRule(raw), fixed + ArgPairs(rule.args), ArgPathPairs(rule.argPaths));
    ArgPairsAreSet(r.(args := [] + rule.args), rule.argPaths);
    assert [] + rule.args == rule.args && [] + rule.argPaths == rule.argPaths;
  }

  // ---- Values of a whole rule ----

  function CharText(v: Option<text>): (r: Option<text>) {
    if v.None? then None else Some(Chars(v.value))
  }

  function CharArgs(args: seq<(nat, text)>): (r: seq<(nat, text)>) {
    seq(|args|, i requires 0 <= i < |args| => (args[i].0, Chars(args[i].1)))
  }

  /** The rule with every value read byte by byte. */
  function CharRule(rule: MatchRule): (r: MatchRule) {
    rule.(sender := CharText(rule.sender),
          interface := CharText(rule.interface),
          member := CharText(rule.member),
          path := CharText(rule.path),
          pathNamespace := CharText(rule.pathNamespace),
          destination := CharText(rule.destination),
          arg0namespace := CharText(rule.arg0namespace),
          args := CharArgs(rule.args),
          argPaths := CharArgs(rule.argPaths))
  }

  lemma CharPairsConcat(a: seq<Pair>, b: seq<Pair>)
    ensures CharPairs(a + b) == CharPairs(a) + CharPairs(b)
  {
  }

  lemma CharOptional(key: text, v: Option<text>)
    ensures CharPairs(Optional(key, v)) == Optional(key, CharText(v))
  {
  }

  function CharFields(fields: seq<Field>): (r: seq<Field>) {
    seq(|fields|, i requires 0 <= i < |fields| => (fields[i].0, CharText(fields[i].1)))
  }

  /** Reading values byte by byte touches neither which fields are present nor their keys. */
  lemma {:induction false} PresentFacts(fields: seq<Field>)
    ensures CharPairs(Present(fields)) == Present(CharFields(fields))
    ensures (forall f | f in fields :: EQUALS !in f.0) ==> KeysOk(Present(fields))
    decreases |fields|
  {
    hide Optional, CharText, KeysOk;
    if fields == [] {
      EmptyKeysOk();
    } else {
      var first := Optional(fields[0].0, fields[0].1);
      PresentFacts(fields[1..]);
      CharPairsConcat(first, Present(fields[1..]));
      CharOptional(fields[0].0, fields[0].1);
      assert CharFields(fields)[1..] == CharFields(fields[1..]);
      assert fields[0] in fields && forall f | f in fields[1..] :: f in fields;
      KeysOkCons(fields[0].0, fields[0].1, Present(fields[1..]));
    }
  }

  lemma KeysOkCons(key: text, v: Option<text>, rest: seq<Pair>)
    ensures EQUALS !in key && KeysOk(rest) ==> KeysOk(Optional(key, v) + rest)
  {
  }

  lemma CharFixedPairs(rule: MatchRule)
    ensures CharPairs(FixedPairs(rule)) == FixedPairs(CharRule(rule))
  {
    hide Present, CharText, Txt;
    PresentFacts(FixedFields(rule));
    CharsOfConstants(rule);
    assert CharFields(FixedFields(rule)) == FixedFields(CharRule(rule));
  }

  /** The fixed values are ASCII. */
  lemma CharsOfConstants(rule: MatchRule)
    ensures CharText(TypeText(rule.messageType)) == TypeText(rule.messageType)
    ensures CharText(Some(TRUE)) == Some(TRUE) && CharText(None) == None
  {
    hide TypeName, Txt;
    if rule.messageType.Some? {
      TypeNames(rule.messageType.value);
      CharsExactly(TypeName(rule.messageType.value));
    }
    TrueIsAscii();
    CharsExactly(TRUE);
  }

  lemma TrueIsAscii()
    ensures Ascii(TRUE)
  {
    assert TRUE == [116, 114, 117, 101];
  }

  lemma CharRulePairs(rule: MatchRule)
    ensures CharPairs(RulePairs(rule)) == RulePairs(CharRule(rule))
  {
    hide FixedPairs, ArgKey, ArgPathKey, Chars;
    CharFixedPairs(rule);
    CharPairsConcat(FixedPairs(rule), ArgPairs(rule.args));
    CharPairsConcat(FixedPairs(rule) + ArgPairs(rule.args), ArgPathPairs(rule.argPaths));
    assert CharPairs(ArgPairs(rule.args)) == ArgPairs(CharArgs(rule.args));
    assert CharPairs(ArgPathPairs(rule.argPaths)) == ArgPathPairs(CharArgs(rule.argPaths));
  }

  lemma FixedKeysOk(rule: MatchRule)
    ensures KeysOk(FixedPairs(rule))
  {
    hide Present, Txt, KeysOk;
    NoEqualsInNames();
    PresentFacts(FixedFields(rule));
    assert forall f | f in FixedFields(rule) :: EQUALS !in f.0;
  }

  lemma EmptyKeysOk()
    ensures KeysOk([])
  {
  }

  lemma NoEqualsInNames()
    ensures EQUALS !in TYPE && EQUALS !in SENDER && EQUALS !in INTERFACE && EQUALS !in MEMBER && EQUALS !in PATH
    ensures EQUALS !in PATH_NAMESPACE && EQUALS !in DESTINATION && EQUALS !in ARG0NAMESPACE && EQUALS !in EAVESDROP
  {
  }

  lemma NoEqualsInKeys(rule: MatchRule)
    ensures KeysOk(RulePairs(rule))
  {
    hide ArgKey, ArgPathKey, FixedPairs;
    FixedKeysOk(rule);
    forall n: nat
      ensures EQUALS !in ArgKey(n) && EQUALS !in ArgPathKey(n)
    {
      SetArgs(EmptyRule([]), n, []);
    }
  }

  // ---- Main results ----

  predicate AsciiArgs(args: seq<(nat, text)>) {
    forall a | a in args :: Ascii(a.1)
  }

  predicate AsciiText(v: Option<text>) {
    v.Some? ==> Ascii(v.value)
  }

  predicate AsciiRule(rule: MatchRule) {
    && AsciiText(rule.sender) && AsciiText(rule.interface) && AsciiText(rule.member)
    && AsciiText(rule.path) && AsciiText(rule.pathNamespace) && AsciiText(rule.destination)
    && AsciiText(rule.arg0namespace) && AsciiArgs(rule.args) && AsciiArgs(rule.argPaths)
  }

  /** What reading a printed rule gives, for every rule whose indices are in range. */
  lemma PrintedRuleIsRead(rule: MatchRule)
    requires Ranged(rule)
    ensures ParseMatchRule(PrintRule(rule)) == Ok(CharRule(rule).(raw := PrintRule(rule)))
  {
    hide Tokenize, SetFields, PrintPairs, RulePairs, CharPairs;
    NoEqualsInKeys(rule);
    TokenizePrinted(RulePairs(rule));
    CharRulePairs(rule);
    RulePairsAreSet(CharRule(rule), PrintRule(rule));
  }

  lemma CharTextExactly(v: Option<text>)
    ensures CharText(v) == v <==> AsciiText(v)
  {
    if v.Some? {
      CharsExactly(v.value);
    }
  }

  lemma CharArgsExactly(args: seq<(nat, text)>)
    ensures CharArgs(args) == args <==> AsciiArgs(args)
  {
    if CharArgs(args) == args {
      forall a | a in args
        ensures Ascii(a.1)
      {
        CharsExactly(a.1);
        var i :| 0 <= i < |args| && args[i] == a;
        assert CharArgs(args)[i] == a;
      }
    } else if AsciiArgs(args) {
      forall i | 0 <= i < |args|
        ensures CharArgs(args)[i] == args[i]
      {
        CharsExactly(args[i].1);
      }
    }
  }

  /** A rule survives printing and reading, with every field and the order of its arguments, exactly
      when its values are ASCII and its indices in range. */
  lemma RuleRoundTripExactly(rule: MatchRule)
    ensures ParseMatchRule(PrintRule(rule)) == Ok(rule.(raw := PrintRule(rule))) <==>
            AsciiRule(rule) && Ranged(rule)
  {
    hide ParseMatchRule, PrintRule, CharText, CharArgs, AsciiText, AsciiArgs;
    ParsedIndicesOk(PrintRule(rule));
    if Ranged(rule) {
      PrintedRuleIsRead(rule);
      CharTextExactly(rule.sender);
      CharTextExactly(rule.interface);
      CharTextExactly(rule.member);
      CharTextExactly(rule.path);
      CharTextExactly(rule.pathNamespace);
      CharTextExactly(rule.destination);
      CharTextExactly(rule.arg0namespace);
      CharArgsExactly(rule.args);
      CharArgsExactly(rule.argPaths);
    }
  }

  // ---- Rules that were read ----

  lemma {:induction false} SetFieldsKeepsRanged(rule: MatchRule, pairs: seq<Pair>)
    requires Ranged(rule)
    ensures SetFields(rule, pairs).Ok? ==> Ranged(SetFields(rule, pairs).value)
    decreases |pairs|
  {
    if pairs != [] {
      hide TrimPrefixes, TrimSuffixes, StartsWith, EndsWith, ArgIndex, Txt, TypeOfName;
      var next := SetField(rule, pairs[0].0, pairs[0].1);
      if next.Ok? {
        SetFieldsKeepsRanged(next.value, pairs[1..]);
      }
    }
  }

  lemma ParsedIndicesOk(s: text)
    ensures ParseMatchRule(s).Ok? ==> Ranged(ParseMatchRule(s).value)
  {
    hide Tokenize, SetFields;
    if Tokenize(s).Ok? {
      SetFieldsKeepsRanged(EmptyRule(s), Tokenize(s).value);
    }
  }

  predicate AsciiPairs(pairs: seq<Pair>) {
    forall p | p in pairs :: Ascii(p.1)
  }

  lemma {:induction false} TokensAreAscii(s: text)
    requires Ascii(s)
    ensures Tokenize(s).Ok? ==> AsciiPairs(Tokenize(s).value)
    decreases |s|
  {
    hide ReadPair, Ascii;
    if s != [] && ReadPair(s).Ok? {
      ReadPairIsPrinted(s);
      TokensAreAscii(ReadPair(s).value.1);
    }
  }

  lemma SetArgKeepsAscii(rule: MatchRule, key: text, value: text)
    requires AsciiArgs(rule.args) && AsciiArgs(rule.argPaths) && Ascii(value)
    ensures var r := SetArg(rule, key, value);
            r.Ok? ==> AsciiArgs(r.value.args) && AsciiArgs(r.value.argPaths)
                      && r.value.(args := rule.args, argPaths := rule.argPaths) == rule
  {
    hide Ascii, AsciiArgs, TrimPrefixes, TrimSuffixes, StartsWith, EndsWith, ArgIndex, Txt;
    if StartsWith(key, ARG) {
      var digits := TrimPrefixes(key, ARG);
      var path := EndsWith(key, PATH);
      var n := ArgIndex(key, if path then TrimSuffixes(digits, PATH) else digits);
      if n.Ok? {
        AsciiArgsAppend(if path then rule.argPaths else rule.args, n.value, value);
      }
    }
  }

  lemma AsciiArgsAppend(args: seq<(nat, text)>, n: nat, value: text)
    requires AsciiArgs(args) && Ascii(value)
    ensures AsciiArgs(args + [(n, value)])
  {
    hide Ascii;
  }

  lemma SetFieldKeepsAscii(rule: MatchRule, key: text, value: text)
    requires AsciiRule(rule) && Ascii(value)
    ensures SetField(rule, key, value).Ok? ==> AsciiRule(SetField(rule, key, value).value)
  {
    hide Ascii, AsciiArgs, AsciiText, SetArg, Txt, TypeOfName;
    assert AsciiText(Some(value)) by {
      SomeIsAscii(value);
    }
    SetArgKeepsAscii(rule, key, value);
  }

  lemma SomeIsAscii(value: text)
    requires Ascii(value)
    ensures AsciiText(Some(value))
  {
  }

  lemma {:induction false} SetFieldsKeepsAscii(rule: MatchRule, pairs: seq<Pair>)
    requires AsciiRule(rule) && AsciiPairs(pairs)
    ensures SetFields(rule, pairs).Ok? ==> AsciiRule(SetFields(rule, pairs).value)
    decreases |pairs|
  {
    hide Ascii, SetField, AsciiRule;
    if pairs != [] {
      assert pairs[0] in pairs && forall p | p in pairs[1..] :: p in pairs;
      var next := SetField(rule, pairs[0].0, pairs[0].1);
      SetFieldKeepsAscii(rule, pairs[0].0, pairs[0].1);
      if next.Ok? {
        SetFieldsKeepsAscii(next.value, pairs[1..]);
      }
    }
  }

  /** Whatever ASCII text a rule was read from (keys repeated, in any order, commas missing), the rule can
      be written down again. */
  lemma ReadRulesCanBePrinted(s: text)
    requires Ascii(s)
    ensures var r := ParseMatchRule(s);
            r.Ok? ==> ParseMatchRule(PrintRule(r.value)) == Ok(r.value.(raw := PrintRule(r.value)))
  {
    hide Tokenize, SetFields, PrintRule, IndicesOk, AsciiRule;
    if ParseMatchRule(s).Ok? {
      ParsedIndicesOk(s);
      TokensAreAscii(s);
      EmptyIsAscii(s);
      SetFieldsKeepsAscii(EmptyRule(s), Tokenize(s).value);
      RuleRoundTripExactly(ParseMatchRule(s).value);
    }
  }

  lemma EmptyIsAscii(raw: text)
    ensures AsciiRule(EmptyRule(raw))
  {
  }
}

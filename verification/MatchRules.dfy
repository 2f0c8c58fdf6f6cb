/** Match rules: comma-separated key='value' pairs, with '\'' for a quote inside a value. */
module MatchRules {
  import opened Wrappers
  import opened Bytes
  import opened Text
  import H = Header

  const QUOTE: u8 := 39
  const COMMA: u8 := 44
  const EQUALS: u8 := 61
  const BACKSLASH: u8 := 92

  const MAX_ARG_INDEX: nat := 63

  datatype RuleError =
    | MissingEquals
    | NotQuoted
    | Unterminated
    | MalformedEscape
    | UnknownType(value: text)
    | UnknownKey(key: text)
    | InvalidKey(key: text)
    | IndexTooLarge

  datatype MatchRule = MatchRule(
    messageType: Option<H.MessageType>,
    sender: Option<text>,
    interface: Option<text>,
    member: Option<text>,
    path: Option<text>,
    pathNamespace: Option<text>,
    destination: Option<text>,
    args: seq<(nat, text)>,
    argPaths: seq<(nat, text)>,
    arg0namespace: Option<text>,
    eavesdrop: bool,
    raw: text)

  function EmptyRule(raw: text): (r: MatchRule) {
    MatchRule(None, None, None, None, None, None, None, [], [], None, false, raw)
  }

  type Pair = (text, text)

  // ---- Reading ----

  /** A byte pushed as a character: U+0000 to U+00FF, in UTF-8. */
  function AsChar(b: u8): (s: text)
    ensures |s| == if b < 128 then 1 else 2
  {
    if b < 128 then [b] else [0xC0 + b / 64, 0x80 + b % 64]
  }

  /** The rest of a quoted value, and what follows its closing quote. */
  function Quoted(s: text): (r: Result<(text, text), RuleError>)
    ensures r.Ok? ==> |r.value.1| < |s|
    decreases |s|
  {
    if s == [] then Err(Unterminated)
    else if s[0] == QUOTE then
      if 3 <= |s| && s[1] == BACKSLASH && s[2] == QUOTE then
        if 4 <= |s| && s[3] == QUOTE then Push([QUOTE], Quoted(s[4..])) else Err(MalformedEscape)
      else Ok(([], s[1..]))
    else Push(AsChar(s[0]), Quoted(s[1..]))
  }

  function Push(front: text, r: Result<(text, text), RuleError>): (p: Result<(text, text), RuleError>)
    ensures p.Ok? <==> r.Ok?
    ensures p.Ok? ==> p.value.1 == r.value.1
    ensures front == [] ==> p == r
  {
    if r.Err? then r else
      assert [] + r.value.0 == r.value.0;
      Ok((front + r.value.0, r.value.1))
  }

  function SkipComma(s: text): (r: text)
    ensures |r| <= |s|
  {
    if s != [] && s[0] == COMMA then s[1..] else s
  }

  function ReadPair(s: text): (r: Result<(Pair, text), RuleError>)
    ensures r.Ok? ==> |r.value.1| < |s|
  {
    match SplitOnce(s, EQUALS)
    case None => Err(MissingEquals)
    case Some((key, rest)) =>
      SplitOnceParts(s, EQUALS);
      if rest == [] || rest[0] != QUOTE then Err(NotQuoted)
      else
        var (value, after) :- Quoted(rest[1..]);
        Ok(((key, value), SkipComma(after)))
  }

  function Tokenize(s: text): (r: Result<seq<Pair>, RuleError>)
    decreases |s|
  {
    if s == [] then Ok([])
    else
      var (pair, after) :- ReadPair(s);
      var rest :- Tokenize(after);
      Ok([pair] + rest)
  }

  const TYPE := Txt("type")
  const SENDER := Txt("sender")
  const INTERFACE := Txt("interface")
  const MEMBER := Txt("member")
  const PATH := Txt("path")
  const PATH_NAMESPACE := Txt("path_namespace")
  const DESTINATION := Txt("destination")
  const EAVESDROP := Txt("eavesdrop")
  const ARG0NAMESPACE := Txt("arg0namespace")
  const ARG := Txt("arg")
  const TRUE := Txt("true")

  function TypeName(t: H.MessageType): (s: text) {
    match t
    case Signal => Txt("signal")
    case MethodCall => Txt("method_call")
    case MethodReturn => Txt("method_return")
    case Error => Txt("error")
  }

  function TypeOfName(s: text): (r: Result<H.MessageType, RuleError>) {
    if s == Txt("signal") then Ok(H.Signal)
    else if s == Txt("method_call") then Ok(H.MethodCall)
    else if s == Txt("method_return") then Ok(H.MethodReturn)
    else if s == Txt("error") then Ok(H.MessageType.Error)
    else Err(UnknownType(s))
  }

  predicate StartsWith(s: text, prefix: text) {
    |prefix| <= |s| && s[..|prefix|] == prefix
  }

  predicate EndsWith(s: text, suffix: text) {
    |suffix| <= |s| && s[|s| - |suffix|..] == suffix
  }

  /** Every leading copy of the prefix is removed. */
  function TrimPrefixes(s: text, prefix: text): (r: text)
    requires prefix != []
    decreases |s|
  {
    if StartsWith(s, prefix) then TrimPrefixes(s[|prefix|..], prefix) else s
  }

  function TrimSuffixes(s: text, suffix: text): (r: text)
    requires suffix != []
    decreases |s|
  {
    if EndsWith(s, suffix) then TrimSuffixes(s[..|s| - |suffix|], suffix) else s
  }

  /** The index of an argN key, given its digits. */
  function ArgIndex(key: text, digits: text): (r: Result<nat, RuleError>)
    ensures r.Ok? ==> r.value <= MAX_ARG_INDEX
  {
    match ParseUnsigned(digits, 0x1_0000_0000_0000_0000)
    case None => Err(InvalidKey(key))
    case Some(n) => if n > MAX_ARG_INDEX then Err(IndexTooLarge) else Ok(n)
  }

  function SetField(rule: MatchRule, key: text, value: text): (r: Result<MatchRule, RuleError>) {
    if key == TYPE then
      var t :- TypeOfName(value);
      Ok(rule.(messageType := Some(t)))
    else if key == SENDER then Ok(rule.(sender := Some(value)))
    else if key == INTERFACE then Ok(rule.(interface := Some(value)))
    else if key == MEMBER then Ok(rule.(member := Some(value)))
    else if key == PATH then Ok(rule.(path := Some(value)))
    else if key == PATH_NAMESPACE then Ok(rule.(pathNamespace := Some(value)))
    else if key == DESTINATION then Ok(rule.(destination := Some(value)))
    else if key == EAVESDROP then Ok(rule.(eavesdrop := value == TRUE))
    else if key == ARG0NAMESPACE then Ok(rule.(arg0namespace := Some(value)))
    else SetArg(rule, key, value)
  }

  function SetArg(rule: MatchRule, key: text, value: text): (r: Result<MatchRule, RuleError>) {
    if !StartsWith(key, ARG) then Err(UnknownKey(key))
    else if EndsWith(key, PATH) then
      var n :- ArgIndex(key, TrimSuffixes(TrimPrefixes(key, ARG), PATH));
      Ok(rule.(argPaths := rule.argPaths + [(n, value)]))
    else
      var n :- ArgIndex(key, TrimPrefixes(key, ARG));
      Ok(rule.(args := rule.args + [(n, value)]))
  }

  function SetFields(rule: MatchRule, pairs: seq<Pair>): (r: Result<MatchRule, RuleError>)
    decreases |pairs|
  {
    if pairs == [] then Ok(rule)
    else
      var next :- SetField(rule, pairs[0].0, pairs[0].1);
      SetFields(next, pairs[1..])
  }

  function ParseMatchRule(s: text): (r: Result<MatchRule, RuleError>) {
    var pairs :- Tokenize(s);
    SetFields(EmptyRule(s), pairs)
  }

  // ---- The reader's loops ----

  method TokenizeText(s: text) returns (r: Result<seq<Pair>, RuleError>)
    ensures r == Tokenize(s)
  {
    hide Quoted, SplitOnce, Tokenize, Before;
    var out: seq<Pair> := [];
    var i := 0;
    assert s[0..] == s;
    BeforeNothing(Tokenize(s));
    while i < |s|
      invariant i <= |s|
      invariant Tokenize(s) == Before(out, Tokenize(s[i..]))
    {
      ghost var rest := s[i..];
      TokenizeStep(out, rest);
      var keyStart := i;
      while i < |s| && s[i] != EQUALS
        invariant keyStart <= i <= |s|
        invariant EQUALS !in s[keyStart..i]
      {
        i := i + 1;
      }
      if i >= |s| {
        assert rest == s[keyStart..i];
        SplitOnceNone(rest, EQUALS);
        return Err(MissingEquals);
      }
      var key := s[keyStart..i];
      assert rest == key + [EQUALS] + s[i + 1..];
      SplitOnceFirst(key, EQUALS, s[i + 1..]);
      i := i + 1;
      if i >= |s| || s[i] != QUOTE {
        return Err(NotQuoted);
      }
      i := i + 1;
      assert s[i - 1..][1..] == s[i..];
      var v := ReadQuoted(s, i);
      if v.Err? {
        return Err(v.error);
      }
      out, i := out + [(key, v.value.0)], v.value.1;
      if i < |s| && s[i] == COMMA {
        i := i + 1;
      }
      assert ReadPair(rest) == Ok(((key, v.value.0), s[i..]));
    }
    TokenizeEnd(out, s[i..]);
    return Ok(out);
  }

  function Before(out: seq<Pair>, r: Result<seq<Pair>, RuleError>): (b: Result<seq<Pair>, RuleError>) {
    if r.Err? then r else Ok(out + r.value)
  }

  lemma BeforeNothing(r: Result<seq<Pair>, RuleError>)
    ensures Before([], r) == r
  {
    if r.Ok? {
      assert [] + r.value == r.value;
    }
  }

  lemma TokenizeStep(out: seq<Pair>, s: text)
    requires s != []
    ensures Before(out, Tokenize(s)) ==
            match ReadPair(s) case Err(e) => Err(e) case Ok((pair, after)) => Before(out + [pair], Tokenize(after))
  {
    hide ReadPair;
    if ReadPair(s).Ok? {
      var (pair, after) := ReadPair(s).value;
      if Tokenize(after).Ok? {
        assert out + ([pair] + Tokenize(after).value) == (out + [pair]) + Tokenize(after).value;
      }
    }
  }

  lemma TokenizeEnd(out: seq<Pair>, s: text)
    requires s == []
    ensures Before(out, Tokenize(s)) == Ok(out)
  {
    assert out + [] == out;
  }

  lemma PushTwice(a: text, b: text, r: Result<(text, text), RuleError>)
    ensures Push(a, Push(b, r)) == Push(a + b, r)
  {
    if r.Ok? {
      assert a + (b + r.value.0) == (a + b) + r.value.0;
    }
  }

  /** The inner loop: the value that starts after the opening quote, and the position after its closing quote. */
  method ReadQuoted(s: text, start: nat) returns (r: Result<(text, nat), RuleError>)
    requires start <= |s|
    ensures r.Ok? ==> start < r.value.1 <= |s|
    ensures Quoted(s[start..]) == match r case Err(e) => Err(e) case Ok((value, end)) => Ok((value, s[end..]))
  {
    hide Quoted, AsChar;
    var value: text := [];
    var i := start;
    while true
      invariant start <= i <= |s|
      invariant Quoted(s[start..]) == Push(value, Quoted(s[i..]))
      decreases |s| - i
    {
      QuotedAt(s, i);
      if i >= |s| {
        return Err(Unterminated);
      }
      ghost var before := value;
      if s[i] == QUOTE {
        i := i + 1;
        if i + 1 < |s| && s[i] == BACKSLASH && s[i + 1] == QUOTE {
          value := value + [QUOTE];
          i := i + 2;
          if i < |s| && s[i] == QUOTE {
            i := i + 1;
            PushTwice(before, [QUOTE], Quoted(s[i..]));
            continue;
          } else {
            return Err(MalformedEscape);
          }
        }
        assert value + [] == value;
        return Ok((value, i));
      }
      value := value + AsChar(s[i]);
      PushTwice(before, AsChar(s[i]), Quoted(s[i + 1..]));
      i := i + 1;
    }
  }

  lemma QuotedAt(s: text, i: nat)
    requires i <= |s|
    ensures Quoted(s[i..]) ==
            if i == |s| then Err(Unterminated)
            else if s[i] == QUOTE then
              if i + 2 < |s| && s[i + 1] == BACKSLASH && s[i + 2] == QUOTE then
                if i + 3 < |s| && s[i + 3] == QUOTE then Push([QUOTE], Quoted(s[i + 4..])) else Err(MalformedEscape)
              else Ok(([], s[i + 1..]))
            else Push(AsChar(s[i]), Quoted(s[i + 1..]))
  {
    hide AsChar, Push;
    var rest := s[i..];
    if i < |s| {
      assert rest[0] == s[i] && rest[1..] == s[i + 1..];
      if i + 2 < |s| {
        assert rest[1] == s[i + 1] && rest[2] == s[i + 2];
        if i + 3 < |s| {
          assert rest[3] == s[i + 3] && rest[4..] == s[i + 4..];
        }
      }
    }
  }

  method ParseRuleText(s: text) returns (r: Result<MatchRule, RuleError>)
    ensures r == ParseMatchRule(s)
  {
    hide Tokenize, SetField;
    var pairs :- TokenizeText(s);
    var rule := EmptyRule(s);
    for i := 0 to |pairs|
      invariant SetFields(rule, pairs[i..]) == ParseMatchRule(s)
    {
      assert pairs[i..][0] == pairs[i] && pairs[i..][1..] == pairs[i + 1..];
      var next := SetField(rule, pairs[i].0, pairs[i].1);
      if next.Err? {
        return next;
      }
      rule := next.value;
    }
    return Ok(rule);
  }
}

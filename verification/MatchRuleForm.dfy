/** Match rules as text: the marks, every key, and every reason to refuse one. */
module MatchRuleForm {
  import opened Wrappers
  import opened Bytes
  import opened Text
  import opened Utf8
  import opened MatchRules
  import opened MatchRuleProofs
  import H = Header

  /** The marks of the notation. */
  lemma Marks()
    ensures QUOTE == '\'' as int && COMMA == ',' as int && EQUALS == '=' as int && BACKSLASH == '\\' as int
    ensures Txt("'") == [QUOTE] && Txt(",") == [COMMA] && Txt("=") == [EQUALS]
    ensures Txt("'\\'") == [QUOTE, BACKSLASH, QUOTE]
  {
  }

  /** A byte of a value becomes the character with that code. */
  lemma BytesAreCharacters(b: u8)
    ensures AsChar(b) == EncodeScalar(b)
  {
  }

  // ---- Keys and values ----

  lemma TypeTexts(t: H.MessageType)
    ensures TypeName(t) ==
            match t
            case Signal => Txt("signal")
            case MethodCall => Txt("method_call")
            case MethodReturn => Txt("method_return")
            case Error => Txt("error")
  {
  }

  /** The message types, by name. */
  lemma TypesExactly(s: text)
    ensures TypeOfName(s) ==
            if s == Txt("signal") then Ok(H.MessageType.Signal)
            else if s == Txt("method_call") then Ok(H.MessageType.MethodCall)
            else if s == Txt("method_return") then Ok(H.MessageType.MethodReturn)
            else if s == Txt("error") then Ok(H.MessageType.Error)
            else Err(UnknownType(s))
  {
    hide Txt;
  }

  predicate IsFixedKey(key: text) {
    || key == Txt("type") || key == Txt("sender") || key == Txt("interface") || key == Txt("member")
    || key == Txt("path") || key == Txt("path_namespace") || key == Txt("destination") || key == Txt("eavesdrop")
    || key == Txt("arg0namespace")
  }

  /** What each key sets, and that every other one begins with arg or is unknown. */
  lemma KeysExactly(rule: MatchRule, key: text, value: text)
    ensures key == Txt("type") ==>
              SetField(rule, key, value) ==
              match TypeOfName(value) case Ok(t) => Ok(rule.(messageType := Some(t))) case Err(e) => Err(e)
    ensures key == Txt("sender") ==> SetField(rule, key, value) == Ok(rule.(sender := Some(value)))
    ensures key == Txt("interface") ==> SetField(rule, key, value) == Ok(rule.(interface := Some(value)))
    ensures key == Txt("member") ==> SetField(rule, key, value) == Ok(rule.(member := Some(value)))
    ensures key == Txt("path") ==> SetField(rule, key, value) == Ok(rule.(path := Some(value)))
    ensures key == Txt("path_namespace") ==> SetField(rule, key, value) == Ok(rule.(pathNamespace := Some(value)))
    ensures key == Txt("destination") ==> SetField(rule, key, value) == Ok(rule.(destination := Some(value)))
    ensures key == Txt("eavesdrop") ==> SetField(rule, key, value) == Ok(rule.(eavesdrop := value == Txt("true")))
    ensures key == Txt("arg0namespace") ==> SetField(rule, key, value) == Ok(rule.(arg0namespace := Some(value)))
    ensures !IsFixedKey(key) ==> SetField(rule, key, value) == SetArg(rule, key, value)
    ensures SetField(rule, key, value) == Err(UnknownKey(key)) <==> !IsFixedKey(key) && !(Txt("arg") <= key)
  {
    hide Txt, TypeOfName, SetArg;
    KeyFacts();
    ArgKeysExactly(rule, key, value);
    TypeErrors(value);
  }

  lemma TypeErrors(value: text)
    ensures TypeOfName(value).Err? ==> TypeOfName(value) == Err(UnknownType(value))
  {
    hide Txt;
  }

  lemma ArgKeysExactly(rule: MatchRule, key: text, value: text)
    ensures SetArg(rule, key, value) == Err(UnknownKey(key)) <==> !(Txt("arg") <= key)
  {
    hide TrimPrefixes, TrimSuffixes, EndsWith, ParseUnsigned;
    assert StartsWith(key, ARG) <==> Txt("arg") <= key;
  }

  // ---- Keys of arguments ----

  function Repeat(word: text, n: nat): (s: text) {
    if n == 0 then [] else word + Repeat(word, n - 1)
  }

  lemma {:induction false} RepeatEnd(word: text, n: nat)
    ensures Repeat(word, n) + word == word + Repeat(word, n)
  {
    if n > 0 {
      RepeatEnd(word, n - 1);
      assert word + Repeat(word, n - 1) + word == word + (Repeat(word, n - 1) + word);
    } else {
      assert [] + word == word + [];
    }
  }

  lemma {:induction false} PrefixesTaken(s: text, prefix: text) returns (n: nat)
    requires prefix != []
    ensures s == Repeat(prefix, n) + TrimPrefixes(s, prefix) && !StartsWith(TrimPrefixes(s, prefix), prefix)
    ensures n > 0 <==> StartsWith(s, prefix)
    decreases |s|
  {
    if StartsWith(s, prefix) {
      var rest := s[|prefix|..];
      var m := PrefixesTaken(rest, prefix);
      n := m + 1;
      assert s == prefix + rest;
      Regroup(prefix, Repeat(prefix, m), TrimPrefixes(rest, prefix));
    } else {
      n := 0;
      assert [] + s == s;
    }
  }

  lemma {:induction false} PrefixesGone(n: nat, core: text, prefix: text)
    requires prefix != [] && !StartsWith(core, prefix)
    ensures TrimPrefixes(Repeat(prefix, n) + core, prefix) == core
  {
    if n == 0 {
      assert [] + core == core;
    } else {
      var s, rest := Repeat(prefix, n) + core, Repeat(prefix, n - 1) + core;
      assert s == prefix + rest && s[..|prefix|] == prefix && s[|prefix|..] == rest;
      PrefixesGone(n - 1, core, prefix);
    }
  }

  lemma Regroup(a: text, b: text, c: text)
    ensures a + b + c == a + (b + c)
  {
  }

  lemma {:induction false} SuffixesTaken(s: text, suffix: text) returns (n: nat)
    requires suffix != []
    ensures s == TrimSuffixes(s, suffix) + Repeat(suffix, n) && !EndsWith(TrimSuffixes(s, suffix), suffix)
    ensures n > 0 <==> EndsWith(s, suffix)
    decreases |s|
  {
    hide TrimSuffixes;
    if EndsWith(s, suffix) {
      var rest := s[..|s| - |suffix|];
      var m := SuffixesTaken(rest, suffix);
      n := m + 1;
      RepeatEnd(suffix, m);
      assert s == rest + suffix;
      EndTaken(rest, suffix);
      Regroup(TrimSuffixes(rest, suffix), Repeat(suffix, m), suffix);
    } else {
      n := 0;
      NothingTaken(s, suffix);
      assert s + [] == s;
    }
  }

  lemma EndTaken(s: text, suffix: text)
    requires suffix != []
    ensures TrimSuffixes(s + suffix, suffix) == TrimSuffixes(s, suffix)
  {
    var whole := s + suffix;
    assert whole[|whole| - |suffix|..] == suffix && whole[..|whole| - |suffix|] == s;
  }

  lemma NothingTaken(s: text, suffix: text)
    requires suffix != [] && !EndsWith(s, suffix)
    ensures TrimSuffixes(s, suffix) == s
  {
  }

  lemma {:induction false} SuffixesGone(core: text, n: nat, suffix: text)
    requires suffix != [] && !EndsWith(core, suffix)
    ensures TrimSuffixes(core + Repeat(suffix, n), suffix) == core
  {
    hide TrimSuffixes, EndsWith;
    if n == 0 {
      NothingTaken(core, suffix);
      assert core + [] == core;
    } else {
      var most := Repeat(suffix, n - 1);
      RepeatEnd(suffix, n - 1);
      assert core + (most + suffix) == (core + most) + suffix;
      EndTaken(core + most, suffix);
      SuffixesGone(core, n - 1, suffix);
    }
  }

  /** A number: it begins with a digit or a plus sign, and ends with a digit. */
  lemma NumberEnds(s: text, limit: nat)
    requires ParseUnsigned(s, limit).Some?
    ensures s != [] && (48 <= s[0] <= 57 || s[0] == 43) && 48 <= s[|s| - 1] <= 57
  {
  }

  /** The word arg, once or more, and a number of 64 bits. */
  ghost predicate IsArgKey(key: text, n: nat) {
    exists i: nat, digits: text ::
      i > 0 && key == Repeat(Txt("arg"), i) + digits && ParseUnsigned(digits, 0x1_0000_0000_0000_0000) == Some(n)
  }

  /** The same, and then the word path, once or more. */
  ghost predicate IsArgPathKey(key: text, n: nat) {
    exists i: nat, digits: text, j: nat ::
      && i > 0 && j > 0 && key == Repeat(Txt("arg"), i) + (digits + Repeat(Txt("path"), j))
      && ParseUnsigned(digits, 0x1_0000_0000_0000_0000) == Some(n)
  }

  lemma ArgWords()
    ensures Txt("arg") == ARG == [97, 114, 103] && Txt("path") == PATH == [112, 97, 116, 104]
  {
  }

  /** What is left of an argument's key is a number exactly if the key is the word arg in front of it. */
  lemma ArgCore(key: text, n: nat)
    ensures IsArgKey(key, n) <==>
              && StartsWith(key, ARG) && !EndsWith(key, PATH)
              && ParseUnsigned(TrimPrefixes(key, ARG), 0x1_0000_0000_0000_0000) == Some(n)
  {
    hide TrimPrefixes, ParseUnsigned, Repeat, Txt;
    ArgWords();
    var i := PrefixesTaken(key, ARG);
    var core := TrimPrefixes(key, ARG);
    if StartsWith(key, ARG) && ParseUnsigned(core, 0x1_0000_0000_0000_0000) == Some(n) {
      assert IsArgKey(key, n);
    }
    forall k: nat, digits: text |
      k > 0 && key == Repeat(ARG, k) + digits && ParseUnsigned(digits, 0x1_0000_0000_0000_0000) == Some(n)
      ensures StartsWith(key, ARG) && !EndsWith(key, PATH) && core == digits
    {
      NumberEnds(digits, 0x1_0000_0000_0000_0000);
      NoArgInFront(digits);
      PrefixesGone(k, digits, ARG);
      RepeatStarts(k, digits);
      assert key[|key| - 1] == digits[|digits| - 1];
      NotAPath(key, key[|key| - 1]);
    }
  }

  lemma NoArgInFront(s: text)
    requires s != [] && s[0] < 58
    ensures !StartsWith(s, ARG)
  {
    ArgWords();
    assert |s| >= 3 ==> s[..3][0] == s[0];
  }

  lemma RepeatStarts(k: nat, rest: text)
    requires k > 0
    ensures StartsWith(Repeat(ARG, k) + rest, ARG)
  {
    var s := Repeat(ARG, k) + rest;
    assert s == ARG + (Repeat(ARG, k - 1) + rest);
  }

  lemma RepeatEnds(front: text, j: nat)
    requires j > 0
    ensures EndsWith(front + Repeat(PATH, j), PATH)
  {
    RepeatEnd(PATH, j - 1);
    var s := front + Repeat(PATH, j);
    assert s == front + Repeat(PATH, j - 1) + PATH;
  }

  /** The same for the keys of argument paths. */
  lemma ArgPathCore(key: text, n: nat)
    ensures IsArgPathKey(key, n) <==>
              && StartsWith(key, ARG) && EndsWith(key, PATH)
              && ParseUnsigned(TrimSuffixes(TrimPrefixes(key, ARG), PATH), 0x1_0000_0000_0000_0000) == Some(n)
  {
    hide TrimPrefixes, TrimSuffixes, ParseUnsigned, Repeat, Txt, EndsWith, StartsWith;
    ArgWords();
    var i := PrefixesTaken(key, ARG);
    var front := TrimPrefixes(key, ARG);
    var j := SuffixesTaken(front, PATH);
    var core := TrimSuffixes(front, PATH);
    if StartsWith(key, ARG) && EndsWith(key, PATH) && ParseUnsigned(core, 0x1_0000_0000_0000_0000) == Some(n) {
      if j == 0 {
        NumberEnds(core, 0x1_0000_0000_0000_0000);
        NoRepeat(front);
        assert key[|key| - 1] == core[|core| - 1];
        NotAPath(key, key[|key| - 1]);
      } else {
        assert IsArgPathKey(key, n);
      }
    }
    forall k: nat, digits: text, m: nat |
      && k > 0 && m > 0 && key == Repeat(ARG, k) + (digits + Repeat(PATH, m))
      && ParseUnsigned(digits, 0x1_0000_0000_0000_0000) == Some(n)
      ensures StartsWith(key, ARG) && EndsWith(key, PATH) && core == digits
    {
      NumberEnds(digits, 0x1_0000_0000_0000_0000);
      NoArgInFront(digits + Repeat(PATH, m));
      PrefixesGone(k, digits + Repeat(PATH, m), ARG);
      RepeatStarts(k, digits + Repeat(PATH, m));
      assert key == Repeat(ARG, k) + digits + Repeat(PATH, m);
      RepeatEnds(Repeat(ARG, k) + digits, m);
      NotAPath(digits, digits[|digits| - 1]);
      SuffixesGone(digits, m, PATH);
    }
  }

  lemma NoRepeat(front: text)
    ensures front + Repeat(PATH, 0) == front
  {
  }

  /** Arguments: an index of at most 63 is added to one of the two lists; a greater one, and a key without a
      number, is refused. */
  lemma ArgsExactly(rule: MatchRule, key: text, value: text)
    requires Txt("arg") <= key
    ensures forall n: nat | IsArgKey(key, n) :: SetArg(rule, key, value) ==
              if n > 63 then Err(IndexTooLarge) else Ok(rule.(args := rule.args + [(n, value)]))
    ensures forall n: nat | IsArgPathKey(key, n) :: SetArg(rule, key, value) ==
              if n > 63 then Err(IndexTooLarge) else Ok(rule.(argPaths := rule.argPaths + [(n, value)]))
    ensures (forall n: nat :: !IsArgKey(key, n) && !IsArgPathKey(key, n)) ==>
              SetArg(rule, key, value) == Err(InvalidKey(key))
  {
    hide TrimPrefixes, TrimSuffixes, ParseUnsigned, Txt, EndsWith, IsArgKey, IsArgPathKey;
    ArgWords();
    assert StartsWith(key, ARG);
    forall n: nat
      ensures IsArgKey(key, n) <==>
                !EndsWith(key, PATH) && ParseUnsigned(TrimPrefixes(key, ARG), 0x1_0000_0000_0000_0000) == Some(n)
      ensures IsArgPathKey(key, n) <==>
                && EndsWith(key, PATH)
                && ParseUnsigned(TrimSuffixes(TrimPrefixes(key, ARG), PATH), 0x1_0000_0000_0000_0000) == Some(n)
    {
      ArgCore(key, n);
      ArgPathCore(key, n);
    }
  }

  // ---- Why a text is not a list of pairs ----

  predicate StartsWithQuote(s: text) {
    s != [] && s[0] == '\'' as int
  }

  lemma {:induction false} NeverClosed(v: text)
    ensures Quoted(EscapeQuotes(v)) == Err(Unterminated)
  {
    if v != [] {
      NeverClosed(v[1..]);
      var s, rest := EscapeQuotes(v), EscapeQuotes(v[1..]);
      if v[0] == QUOTE {
        assert s[4..] == rest;
      } else {
        assert s[1..] == rest;
      }
    }
  }

  lemma {:induction false} NotFinished(v: text, tail: text)
    requires !StartsWithQuote(tail)
    ensures Quoted(EscapeQuotes(v) + [QUOTE, BACKSLASH, QUOTE] + tail) == Err(MalformedEscape)
  {
    var s := EscapeQuotes(v) + [QUOTE, BACKSLASH, QUOTE] + tail;
    if v == [] {
      assert s == [QUOTE, BACKSLASH, QUOTE] + tail;
    } else {
      NotFinished(v[1..], tail);
      var rest := EscapeQuotes(v[1..]) + [QUOTE, BACKSLASH, QUOTE] + tail;
      if v[0] == QUOTE {
        assert s[4..] == rest;
      } else {
        assert s[1..] == rest;
      }
    }
  }

  /** The value read so far when reading fails, and what follows an unfinished escape. */
  lemma {:induction false} FailedValue(s: text) returns (v: text, tail: text)
    ensures Quoted(s).Err? ==> Quoted(s).error == Unterminated || Quoted(s).error == MalformedEscape
    ensures Quoted(s) == Err(Unterminated) ==> s == EscapeQuotes(v)
    ensures Quoted(s) == Err(MalformedEscape) ==>
              s == EscapeQuotes(v) + [QUOTE, BACKSLASH, QUOTE] + tail && !StartsWithQuote(tail)
    decreases |s|
  {
    hide Quoted, EscapeQuotes;
    v, tail := [], [];
    QuotedAt(s, 0);
    assert s[0..] == s && EscapeQuotes([]) == [] by { NothingEscaped(); }
    if s == [] {
    } else if s[0] == QUOTE {
      if 3 <= |s| && s[1] == BACKSLASH && s[2] == QUOTE {
        if 4 <= |s| && s[3] == QUOTE {
          var w, rest := FailedValue(s[4..]);
          v, tail := [QUOTE] + w, rest;
          assert s == [QUOTE, BACKSLASH, QUOTE, QUOTE] + s[4..];
          EscapeCons(QUOTE, w);
        } else {
          tail := s[3..];
          assert s == [QUOTE, BACKSLASH, QUOTE] + tail;
        }
      }
    } else {
      var w, rest := FailedValue(s[1..]);
      v, tail := [s[0]] + w, rest;
      assert s == [s[0]] + s[1..];
      EscapeCons(s[0], w);
    }
  }

  lemma NothingEscaped()
    ensures EscapeQuotes([]) == []
  {
  }

  lemma EscapeCons(b: u8, rest: text)
    ensures EscapeQuotes([b] + rest) ==
            (if b == QUOTE then [QUOTE, BACKSLASH, QUOTE, QUOTE] else [b]) + EscapeQuotes(rest)
  {
    assert ([b] + rest)[1..] == rest;
  }

  /** A value behind its opening quote is refused exactly if it is never closed, or an escape in it is not
      finished. */
  lemma ValueErrors(s: text)
    ensures Quoted(s) == Err(Unterminated) <==> exists v :: s == EscapeQuotes(v)
    ensures Quoted(s) == Err(MalformedEscape) <==>
              exists v, tail :: s == EscapeQuotes(v) + Txt("'\\'") + tail && !StartsWithQuote(tail)
    ensures Quoted(s).Err? ==> Quoted(s).error == Unterminated || Quoted(s).error == MalformedEscape
  {
    hide Quoted, EscapeQuotes, Txt;
    Marks();
    var v, tail := FailedValue(s);
    if w :| s == EscapeQuotes(w) {
      NeverClosed(w);
    }
    forall w, rest | s == EscapeQuotes(w) + [QUOTE, BACKSLASH, QUOTE] + rest && !StartsWithQuote(rest)
      ensures Quoted(s) == Err(MalformedEscape)
    {
      NotFinished(w, rest);
    }
  }

  /** A pair, given its key and the outcome of reading its value. */
  function WithKey(key: text, r: Result<(text, text), RuleError>): (p: Result<(Pair, text), RuleError>) {
    if r.Err? then Err(r.error) else Ok(((key, r.value.0), SkipComma(r.value.1)))
  }

  /** Why the pair at the start of a text is refused: it has no equals sign, or its value no opening quote, or the
      value is refused. */
  lemma PairErrors(s: text)
    ensures ReadPair(s) == Err(MissingEquals) <==> '=' as int !in s
    ensures forall key, rest | EQUALS !in key && s == key + Txt("=") + rest ::
              && (ReadPair(s) == Err(NotQuoted) <==> !StartsWithQuote(rest))
              && (StartsWithQuote(rest) ==> ReadPair(s) == WithKey(key, Quoted(rest[1..])))
  {
    hide Quoted, SplitOnce, Txt;
    Marks();
    SplitOnceNone(s, EQUALS);
    forall key: text, rest | EQUALS !in key && s == key + [EQUALS] + rest
      ensures SplitOnce(s, EQUALS) == Some((key, rest))
    {
      SplitOnceFirst(key, EQUALS, rest);
    }
    if SplitOnce(s, EQUALS).Some? {
      var rest := SplitOnce(s, EQUALS).value.1;
      if rest != [] {
        var v, tail := FailedValue(rest[1..]);
      }
    }
  }
}

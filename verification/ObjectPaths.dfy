/** Object paths as the D-Bus Specification spells them: words over a listed alphabet, between slashes. */
module ObjectPaths {
  import opened Bytes
  import opened Text
  import opened TextForm
  import opened Types

  /** The letters, the digits and the underscore. */
  predicate IsPathByte(b: u8) {
    || b in Txt("ABCDEFGHIJKLMNOPQRSTUVWXYZ")
    || b in Txt("abcdefghijklmnopqrstuvwxyz")
    || b in Txt("0123456789_")
  }

  predicate Word(w: text) {
    w != [] && forall b | b in w :: IsPathByte(b)
  }

  predicate Words(ws: seq<text>) {
    forall w | w in ws :: Word(w)
  }

  /** A slash in front of every word. */
  function Slashed(ws: seq<text>): (s: text) {
    if ws == [] then [] else Txt("/") + ws[0] + Slashed(ws[1..])
  }

  /** The root, or a slash followed by words separated by slashes. */
  ghost predicate IsPath(s: text) {
    s == Txt("/") || exists ws :: ws != [] && Words(ws) && s == Slashed(ws)
  }

  lemma OthersListed(b: u8)
    ensures b in Txt("0123456789_") <==> 48 <= b <= 57 || b == 95
  {
    hide Txt;
    Listed("0123456789", 48, b);
    Listed("_", 95, b);
    assert "0123456789_" == "0123456789" + "_";
    TxtConcat("0123456789", "_");
  }

  /** The ranges of the check are the listed alphabet. */
  lemma Alphabet(b: u8)
    ensures PathChar(b) <==> IsPathByte(b)
  {
    hide Txt;
    LettersListed(b);
    OthersListed(b);
  }

  lemma WordIsSegment(w: text)
    ensures Word(w) <==> Segment(w)
  {
    hide PathChar, IsPathByte;
    forall b: u8
      ensures PathChar(b) <==> IsPathByte(b)
    {
      Alphabet(b);
    }
    assert (forall b | b in w :: PathChar(b)) <==> forall i | 0 <= i < |w| :: PathChar(w[i]);
  }

  /** The pieces of a text, each behind a slash, are the text behind a slash. */
  lemma {:induction false} SplitSlashed(s: text)
    ensures Slashed(Split(s, SLASH)) == Txt("/") + s
  {
    hide Split, Slashed, Txt;
    OneSlash();
    SlashedNone();
    if s == [] {
      SplitNone(s, SLASH);
      SlashedCons([[]]);
      var none: seq<text> := [[]];
      assert none[1..] == [];
    } else {
      var rest := Split(s[1..], SLASH);
      SplitSlashed(s[1..]);
      SplitHead(s, SLASH);
      SlashedCons(rest);
      assert s == [s[0]] + s[1..];
      if s[0] == SLASH {
        SlashedCons([[]] + rest);
        assert ([[]] + rest)[1..] == rest;
      } else {
        var pieces := [[s[0]] + rest[0]] + rest[1..];
        SlashedCons(pieces);
        assert pieces[1..] == rest[1..];
        Shift(s[0], rest[0], Slashed(rest[1..]), s[1..]);
      }
    }
  }

  lemma OneSlash()
    ensures Txt("/") == [SLASH]
  {
  }

  lemma Shift(b: u8, first: text, rest: text, tail: text)
    requires [SLASH] + (first + rest) == [SLASH] + tail
    ensures [SLASH] + ([b] + first + rest) == [SLASH] + ([b] + tail)
  {
    assert first + rest == ([SLASH] + (first + rest))[1..] == tail;
    assert [b] + first + rest == [b] + (first + rest);
  }

  lemma NoSlashInWord(w: text)
    requires Word(w)
    ensures w != [] && SLASH !in w
  {
    hide IsPathByte;
    WordIsSegment(w);
  }

  lemma SlashedCons(ws: seq<text>)
    requires ws != []
    ensures Slashed(ws) == [SLASH] + (ws[0] + Slashed(ws[1..]))
  {
    hide Txt;
    OneSlash();
    TextForm.Glue([SLASH], ws[0], Slashed(ws[1..]));
  }

  lemma SlashedNone()
    ensures Slashed([]) == []
  {
  }

  lemma Glue(w: text, s: text)
    requires s != [] && s[0] == SLASH
    ensures w + s == w + [SLASH] + s[1..]
  {
  }

  lemma {:induction false} SlashedSplits(ws: seq<text>)
    requires ws != [] && Words(ws)
    ensures Slashed(ws) != [] && Slashed(ws)[0] == SLASH && Split(Slashed(ws)[1..], SLASH) == ws
  {
    hide Split, Word, Slashed, Txt;
    var w, rest := ws[0], ws[1..];
    NoSlashInWord(w);
    SplitNone(w, SLASH);
    SlashedCons(ws);
    assert Slashed(ws)[1..] == w + Slashed(rest);
    assert ws == [w] + rest;
    if rest == [] {
      assert w + Slashed([]) == w by { assert Slashed([]) == [] by { SlashedNone(); } }
    } else {
      SlashedSplits(rest);
      Glue(w, Slashed(rest));
      SplitConcat(w, SLASH, Slashed(rest)[1..]);
    }
  }

  lemma {:induction false} SlashedEndsInWord(ws: seq<text>)
    requires ws != [] && Words(ws)
    ensures Slashed(ws) != [] && Slashed(ws) != [SLASH] && Slashed(ws)[|Slashed(ws)| - 1] != SLASH
  {
    hide Word, Slashed, Txt;
    var w, rest := ws[0], ws[1..];
    NoSlashInWord(w);
    SlashedCons(ws);
    if rest != [] {
      SlashedEndsInWord(rest);
    } else {
      SlashedNone();
    }
  }

  /** The check accepts exactly the paths of the specification. */
  lemma PathsExactly(s: text)
    ensures IsValidObjectPath(s) <==> IsPath(s)
  {
    hide Split, Slashed, Segment, Word;
    assert Txt("/") == [SLASH];
    forall w: text
      ensures Word(w) <==> Segment(w)
    {
      WordIsSegment(w);
    }
    if IsValidObjectPath(s) && |s| > 1 {
      var pieces := Split(s[1..], SLASH);
      SplitSlashed(s[1..]);
      assert s == [SLASH] + s[1..];
      assert Words(pieces);
    }
    if ws :| ws != [] && Words(ws) && s == Slashed(ws) {
      SlashedSplits(ws);
      SlashedEndsInWord(ws);
      assert forall i | 0 <= i < |ws| :: Segment(ws[i]);
    }
  }
}

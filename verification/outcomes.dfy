/** Which texts the specifier pattern accepts, and why it refuses the others.  A text
    without an epoch or an operator is
    accepted exactly when one of the two version alternatives matches all of it; the lemmas
    here give the usual reasons why neither does: a release starts with a digit and, before
    its local part, holds only digits, separators and letters of its keywords; a text of
    digits and dots is a release only as one to three numbers; a placeholder is one to three
    numbers or `x`.  A `*` is accepted only on its own. */
module Outcomes {
  import opened Results
  import opened Text
  import opened Suffix
  import opened Grammar
  import opened Selectors
  import opened Specifiers

  // ---------------------------------------------------------------------------------------
  // Texts the release alternative does not match

  lemma {:induction false} JoinPublicChars(parts: seq<seq<char>>)
    requires forall i | 0 <= i < |parts| :: AllPublicTailChars(parts[i])
    ensures AllPublicTailChars(JoinDots(parts))
  {
    if |parts| > 1 {
      JoinPublicChars(parts[1..]);
      assert AllPublicTailChars(".");
      AllPublicTailCharsConcat(parts[0], ".");
      AllPublicTailCharsConcat(parts[0] + ".", JoinDots(parts[1..]));
    }
  }

  /** A release holds a '+' (where its local part starts), or else only digits, separators
      and keyword letters. */
  lemma {:induction false} ReleaseLetters(v: seq<char>)
    requires IsRelease(v)
    ensures '+' in v || AllPublicTailChars(v)
  {
    var segs: seq<seq<char>>, ps: seq<Piece> :| ReleaseForm(v, segs, ps);
    forall i | 0 <= i < |segs|
      ensures AllPublicTailChars(segs[i])
    {
      assert forall j | 0 <= j < |segs[i]| :: IsDigit(segs[i][j]);
    }
    JoinPublicChars(segs);
    PublicTailChars(ps, 0);
    if '+' !in RenderAll(ps) {
      AllPublicTailCharsConcat(JoinDots(segs), RenderAll(ps));
    }
  }

  /** A text that does not start with a digit is no release. */
  lemma {:induction false} NotReleaseStart(v: seq<char>)
    requires |v| == 0 || !IsDigit(v[0])
    ensures !IsRelease(v)
  {
    if IsRelease(v) {
      ReleaseChars(v);
    }
  }

  /** A text without a '+' that holds a letter of no keyword is no release. */
  lemma {:induction false} NotReleaseLetter(v: seq<char>, i: nat)
    requires '+' !in v && i < |v| && !IsPublicTailChar(v[i])
    ensures !IsRelease(v)
  {
    if IsRelease(v) {
      ReleaseLetters(v);
    }
  }

  /** A text of digits and dots is a release only when its dots cut it into one to three
      numbers: every tail starts with a character other than a digit or a dot, or with a
      dot followed by a letter. */
  lemma {:induction false} NotReleaseDots(v: seq<char>, parts: seq<seq<char>>)
    requires |parts| >= 1 && (forall i | 0 <= i < |parts| :: NoDot(parts[i]))
    requires v == JoinDots(parts) && (forall i | 0 <= i < |v| :: IsDigit(v[i]) || v[i] == '.')
    requires !IsFinal(parts)
    ensures !IsRelease(v)
  {
    if IsRelease(v) {
      var segs: seq<seq<char>>, ps: seq<Piece> :| ReleaseForm(v, segs, ps);
      if |ps| > 0 {
        assert AllPlaceChars(v);
        TailNotPlace(JoinDots(segs), ps);
      } else {
        forall i | 0 <= i < |segs|
          ensures NoDot(segs[i])
        {
          assert AllDigits(segs[i]);
        }
        assert v == JoinDots(segs);
        SplitJoinDots(segs);
        SplitJoinDots(parts);
      }
    }
  }

  // ---------------------------------------------------------------------------------------
  // Texts the placeholder alternative does not match

  /** The placeholder alternative matches a text only when the pieces between its dots are
      one to three numbers or `x`. */
  lemma {:induction false} NotPlaceholder(v: seq<char>, parts: seq<seq<char>>)
    requires |parts| >= 1 && (forall i | 0 <= i < |parts| :: NoDot(parts[i]))
    requires v == JoinDots(parts)
    ensures IsPlaceholder(v) <==> PlaceForm(parts)
  {
    PlaceholderBodyIff(v);
    SplitJoinDots(parts);
  }

  // ---------------------------------------------------------------------------------------
  // The specifiers the pattern refuses

  /** The groups of a legal match of a text that has no '!' and does not start with an
      operator glyph: no epoch, no operator, and the whole text as the version. */
  lemma {:induction false} PlainGroups(g: Groups, t: seq<char>)
    requires Legal(g) && Spelled(g) == t
    requires '!' !in t && |t| > 0 && t[0] !in "^~*"
    ensures g.epoch.None? && g.operator == "" && g.version == t
  {
    if g.epoch.Some? {
      EpochBang(g);
    }
    if g.operator != "" {
      OperatorHead(g);
    }
    assert t == g.operator + g.version;
  }

  /** The epoch group of a match puts a '!' into its text. */
  lemma {:induction false} EpochBang(g: Groups)
    requires Legal(g) && g.epoch.Some?
    ensures '!' in Spelled(g)
  {
    var e := g.epoch.value;
    assert Spelled(g) == e + (g.operator + g.version);
    assert Spelled(g)[|e| - 1] == e[|e| - 1];
  }

  /** Without an epoch, the text of a match with an operator starts with its glyph. */
  lemma {:induction false} OperatorHead(g: Groups)
    requires Legal(g) && g.epoch.None? && g.operator != ""
    ensures Spelled(g)[0] in "^~*"
  {
    assert Spelled(g) == g.operator + g.version;
    assert Spelled(g)[0] == g.operator[0];
  }

  /** A text with no '!' that does not start with an operator glyph is refused with
      `InvalidSpecifier` exactly when neither the release nor the placeholder alternative
      matches all of it. */
  lemma {:induction false} PlainBodyIff(s: seq<char>)
    requires var t := Strip(s); '!' !in t && |t| > 0 && t[0] !in "^~*"
    ensures Parse(s) == Err(InvalidSpecifier) <==> !IsRelease(Strip(s)) && !IsPlaceholder(Strip(s))
  {
    ParseErrors(s);
    if Match(s).Some? {
      MatchedPlain(s);
    }
    if IsRelease(Strip(s)) || IsPlaceholder(Strip(s)) {
      PlainMatched(s);
    }
  }

  lemma {:induction false} MatchedPlain(s: seq<char>)
    requires var t := Strip(s); '!' !in t && |t| > 0 && t[0] !in "^~*"
    requires Match(s).Some?
    ensures IsRelease(Strip(s)) || IsPlaceholder(Strip(s))
  {
    var g := Match(s).value;
    MatchIff(s, g);
    PlainGroups(g, Strip(s));
  }

  lemma {:induction false} PlainMatched(s: seq<char>)
    requires IsRelease(Strip(s)) || IsPlaceholder(Strip(s))
    ensures Match(s).Some?
  {
    var t := Strip(s);
    var g := Groups(None, "", t, if IsRelease(t) then None else Some(t));
    assert Legal(g);
    assert Spelled(g) == t;
    MatchIff(s, g);
  }

  /** A text that starts with `^` or `~` is refused with `InvalidSpecifier` exactly when the
      rest of it is not a release: a placeholder takes no operator. */
  lemma {:induction false} OperatorBodyIff(s: seq<char>)
    requires var t := Strip(s); |t| > 0 && (t[0] == '^' || t[0] == '~')
    ensures Parse(s) == Err(InvalidSpecifier) <==> !IsRelease(Strip(s)[1..])
  {
    ParseErrors(s);
    if Match(s).Some? {
      var g := Match(s).value;
      MatchIff(s, g);
      GlyphFirst(g, Strip(s));
    }
    if IsRelease(Strip(s)[1..]) {
      OperatorMatched(s);
    }
  }

  lemma {:induction false} OperatorMatched(s: seq<char>)
    requires var t := Strip(s); |t| > 0 && (t[0] == '^' || t[0] == '~') && IsRelease(t[1..])
    ensures Match(s).Some?
  {
    var t := Strip(s);
    var g := Groups(None, [t[0]], t[1..], None);
    assert Legal(g);
    assert Spelled(g) == t;
    MatchIff(s, g);
  }

  /** A `*` that is not the whole text makes it invalid: the wildcard operator takes neither
      an epoch nor a version. */
  lemma {:induction false} StarRejected(s: seq<char>, i: nat)
    requires i < |Strip(s)| && Strip(s)[i] == '*' && Strip(s) != "*"
    ensures Parse(s) == Err(InvalidSpecifier)
  {
    ParseErrors(s);
    if Match(s).Some? {
      var g := Match(s).value;
      MatchIff(s, g);
      StarSpelled(g, i);
      assert false;
    }
  }

  /** A match that holds a `*` is the wildcard alone. */
  lemma {:induction false} StarSpelled(g: Groups, i: nat)
    requires Legal(g) && i < |Spelled(g)| && Spelled(g)[i] == '*'
    ensures Spelled(g) == "*"
  {
    SpelledChars(g, i);
    assert Spelled(g) == OptText(g.epoch) + g.operator + g.version;
  }

  // ---------------------------------------------------------------------------------------
  // The specifiers the pattern accepts

  /** An optional epoch, an optional `^` or `~` and a text the release alternative matches
      make a packaging selector with that mode, whose spec pair is the operator and the
      rest of the text. */
  lemma {:induction false} ReleaseAccepted(s: seq<char>, epoch: Option<seq<char>>, m: Mode, body: seq<char>)
    requires epoch.None? || IsEpochGroup(epoch.value)
    requires IsRelease(body) && Strip(s) == OptText(epoch) + Glyph(m) + body
    ensures Parse(s).Ok? && Parse(s).value.spec == (Glyph(m), OptText(epoch) + body)
    ensures Parse(s).value.selector.Packaging? && Parse(s).value.selector.mode == m
  {
    var segs: seq<seq<char>>, ps: seq<Piece> :| ReleaseForm(body, segs, ps);
    ParseRelease(s, epoch, m, segs, ps);
  }
}

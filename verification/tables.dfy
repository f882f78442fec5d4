/** Rows of the specifier test tables, as consequences of the general lemmas. */
module Rows {
  import opened Results
  import opened Text
  import opened Suffix
  import opened Grammar
  import opened Pep440
  import opened Selectors
  import opened Specifiers
  import opened Outcomes

  /** "x.dev1": a placeholder takes no pre-, post- or development part. */
  lemma {:induction false} RejectsPlaceholderDev(s: seq<char>)
    requires s == "x.dev1"
    ensures Parse(s) == Err(InvalidSpecifier)
  {
    StripPlain(s);
    NeitherDevBody(s);
    PlainBodyIff(s);
  }

  lemma {:induction false} NeitherDevBody(v: seq<char>)
    requires v == "x.dev1"
    ensures !IsRelease(v) && !IsPlaceholder(v)
  {
    var parts := ["x", "dev1"];
    assert v == JoinDots(parts);
    assert parts[1][0] == 'd';
    NotPlaceholder(v, parts);
    NotReleaseStart(v);
  }


  /** "1.0.y": `y` is neither a placeholder piece nor part of a keyword. */
  lemma {:induction false} RejectsStrayLetter(s: seq<char>)
    requires s == "1.0.y"
    ensures Parse(s) == Err(InvalidSpecifier)
  {
    StripPlain(s);
    NeitherStrayLetterBody(s);
    PlainBodyIff(s);
  }

  lemma {:induction false} NeitherStrayLetterBody(v: seq<char>)
    requires v == "1.0.y"
    ensures !IsRelease(v) && !IsPlaceholder(v)
  {
    var parts := ["1", "0", "y"];
    assert v == JoinDots(parts);
    assert parts[2] == ['y'] && !IsDigit('y') && Lower('y') == 'y';
    NotPlaceholder(v, parts);
    NotReleaseLetter(v, 4);
  }


  /** "x.x+foobar": a placeholder takes no local part. */
  lemma {:induction false} RejectsPlaceholderLocal(s: seq<char>)
    requires s == "x.x+foobar"
    ensures Parse(s) == Err(InvalidSpecifier)
  {
    StripPlain(s);
    NeitherLocalBody(s);
    PlainBodyIff(s);
  }

  lemma {:induction false} NeitherLocalBody(v: seq<char>)
    requires v == "x.x+foobar"
    ensures !IsRelease(v) && !IsPlaceholder(v)
  {
    var parts := ["x", "x+foobar"];
    assert v == JoinDots(parts);
    assert parts[1][0] == 'x' && |parts[1]| != 1;
    NotPlaceholder(v, parts);
    NotReleaseStart(v);
  }

  /** "x.x.x.post1": a placeholder takes no post-release part. */
  lemma {:induction false} RejectsPlaceholderPost(s: seq<char>)
    requires s == "x.x.x.post1"
    ensures Parse(s) == Err(InvalidSpecifier)
  {
    StripPlain(s);
    NeitherPostBody(s);
    PlainBodyIff(s);
  }

  lemma {:induction false} NeitherPostBody(v: seq<char>)
    requires v == "x.x.x.post1"
    ensures !IsRelease(v) && !IsPlaceholder(v)
  {
    var parts := ["x", "x", "x", "post1"];
    assert v == JoinDots(parts);
    NotPlaceholder(v, parts);
    NotReleaseStart(v);
  }

  /** "^x.42": a placeholder takes no operator. */
  lemma {:induction false} RejectsCaretPlaceholder(s: seq<char>)
    requires s == "^x.42"
    ensures Parse(s) == Err(InvalidSpecifier)
  {
    StripPlain(s);
    assert s[1..] == "x.42";
    NotReleaseStart("x.42");
    OperatorBodyIff(s);
  }

  /** "~1.x.x": a placeholder takes no operator. */
  lemma {:induction false} RejectsTildePlaceholder(s: seq<char>)
    requires s == "~1.x.x"
    ensures Parse(s) == Err(InvalidSpecifier)
  {
    StripPlain(s);
    assert s[1..] == "1.x.x";
    NotReleaseLetter("1.x.x", 2);
    OperatorBodyIff(s);
  }

  /** "^x": a placeholder takes no operator. */
  lemma {:induction false} RejectsCaretWildcard(s: seq<char>)
    requires s == "^x"
    ensures Parse(s) == Err(InvalidSpecifier)
  {
    StripPlain(s);
    assert s[1..] == "x";
    NotReleaseStart("x");
    OperatorBodyIff(s);
  }

  /** "*x": nothing follows `*`. */
  lemma {:induction false} RejectsStarPlaceholder(s: seq<char>)
    requires s == "*x"
    ensures Parse(s) == Err(InvalidSpecifier)
  {
    StripPlain(s);
    StarRejected(s, 0);
  }

  /** "1.0.xx" "1.0." "1..0.0": the three strings of the table are written without commas
      between them, so the table holds their concatenation, which is invalid as well. */
  lemma {:induction false} RejectsJoinedBadFormats(s: seq<char>)
    requires s == "1.0.xx1.0.1..0.0"
    ensures Parse(s) == Err(InvalidSpecifier)
  {
    JoinedPlain(s);
    NeitherJoinedBody(s);
    PlainBodyIff(s);
  }

  lemma {:induction false} JoinedPlain(v: seq<char>)
    requires v == "1.0.xx1.0.1..0.0"
    ensures Strip(v) == v && '!' !in v && v[0] == '1'
  {
    StripPlain(v);
  }

  lemma {:induction false} NeitherJoinedBody(v: seq<char>)
    requires v == "1.0.xx1.0.1..0.0"
    ensures !IsRelease(v) && !IsPlaceholder(v)
  {
    JoinedNotPlaceholder(v);
    JoinedNotRelease(v);
  }

  lemma {:induction false} JoinedNotPlaceholder(v: seq<char>)
    requires v == "1.0.xx1.0.1..0.0"
    ensures !IsPlaceholder(v)
  {
    var parts := ["1", "0", "xx1", "0", "1", "", "0", "0"];
    JoinedHead();
    assert forall i | 0 <= i < |parts| :: NoDot(parts[i]);
    NotPlaceholder(v, parts);
  }

  lemma {:induction false} JoinedNotRelease(v: seq<char>)
    requires v == "1.0.xx1.0.1..0.0"
    ensures !IsRelease(v)
  {
    assert v[4] == 'x';
    NotReleaseLetter(v, 4);
  }

  lemma {:induction false} JoinedHead()
    ensures JoinDots(["1", "0", "xx1", "0", "1", "", "0", "0"]) == "1.0.xx1.0.1..0.0"
  {
    JoinedMiddle();
    assert ["0", "xx1", "0", "1", "", "0", "0"][1..] == ["xx1", "0", "1", "", "0", "0"];
    assert ["1", "0", "xx1", "0", "1", "", "0", "0"][1..] == ["0", "xx1", "0", "1", "", "0", "0"];
  }

  lemma {:induction false} JoinedMiddle()
    ensures JoinDots(["xx1", "0", "1", "", "0", "0"]) == "xx1.0.1..0.0"
  {
    JoinedTail();
    assert ["0", "1", "", "0", "0"][1..] == ["1", "", "0", "0"];
    assert ["xx1", "0", "1", "", "0", "0"][1..] == ["0", "1", "", "0", "0"];
  }


  lemma {:induction false} JoinedTail()
    ensures JoinDots(["1", "", "0", "0"]) == "1..0.0"
  {
    assert ["0", "0"][1..] == ["0"];
    assert ["", "0", "0"][1..] == ["0", "0"];
    assert ["1", "", "0", "0"][1..] == ["", "0", "0"];
  }

  /** "1.0.xx": a wildcard is a single `x`. */
  lemma {:induction false} RejectsDoubleWildcard(s: seq<char>)
    requires s == "1.0.xx"
    ensures Parse(s) == Err(InvalidSpecifier)
  {
    StripPlain(s);
    NeitherDoubleWildcardBody(s);
    PlainBodyIff(s);
  }

  lemma {:induction false} NeitherDoubleWildcardBody(v: seq<char>)
    requires v == "1.0.xx"
    ensures !IsRelease(v) && !IsPlaceholder(v)
  {
    var parts := ["1", "0", "xx"];
    assert v == JoinDots(parts);
    assert |parts[2]| != 1 && parts[2][0] == 'x';
    NotPlaceholder(v, parts);
    NotReleaseLetter(v, 4);
  }

  /** "1.0.": a trailing dot. */
  lemma {:induction false} RejectsTrailingDot(s: seq<char>)
    requires s == "1.0."
    ensures Parse(s) == Err(InvalidSpecifier)
  {
    StripPlain(s);
    NeitherTrailingDotBody(s);
    PlainBodyIff(s);
  }

  lemma {:induction false} NeitherTrailingDotBody(v: seq<char>)
    requires v == "1.0."
    ensures !IsRelease(v) && !IsPlaceholder(v)
  {
    var parts := ["1", "0", ""];
    assert v == JoinDots(parts);
    NotPlaceholder(v, parts);
    NotReleaseDots(v, parts);
  }

  /** "1..0.0": an empty number. */
  lemma {:induction false} RejectsEmptyNumber(s: seq<char>)
    requires s == "1..0.0"
    ensures Parse(s) == Err(InvalidSpecifier)
  {
    StripPlain(s);
    NeitherEmptyNumberBody(s);
    PlainBodyIff(s);
  }

  lemma {:induction false} NeitherEmptyNumberBody(v: seq<char>)
    requires v == "1..0.0"
    ensures !IsRelease(v) && !IsPlaceholder(v)
  {
    var parts := ["1", "", "0", "0"];
    assert v == JoinDots(parts);
    NotPlaceholder(v, parts);
    NotReleaseDots(v, parts);
  }

  /** "1!*": no epoch on the wildcard operator. */
  lemma {:induction false} RejectsEpochStar(s: seq<char>)
    requires s == "1!*"
    ensures Parse(s) == Err(InvalidSpecifier)
  {
    StripPlain(s);
    StarRejected(s, 2);
  }

  /** "*1": nothing follows `*`. */
  lemma {:induction false} RejectsStarMajor(s: seq<char>)
    requires s == "*1"
    ensures Parse(s) == Err(InvalidSpecifier)
  {
    StripPlain(s);
    StarRejected(s, 0);
  }

  /** "*1.0.0": nothing follows `*`. */
  lemma {:induction false} RejectsStarVersion(s: seq<char>)
    requires s == "*1.0.0"
    ensures Parse(s) == Err(InvalidSpecifier)
  {
    StripPlain(s);
    StarRejected(s, 0);
  }

  /** "1.2.3.4": a release has at most three numbers, and so has a placeholder. */
  lemma {:induction false} RejectsFourNumbers(s: seq<char>)
    requires s == "1.2.3.4"
    ensures Parse(s) == Err(InvalidSpecifier)
  {
    StripPlain(s);
    NeitherFourNumbersBody(s);
    PlainBodyIff(s);
  }

  lemma {:induction false} NeitherFourNumbersBody(v: seq<char>)
    requires v == "1.2.3.4"
    ensures !IsRelease(v) && !IsPlaceholder(v)
  {
    var parts := ["1", "2", "3", "4"];
    assert v == JoinDots(parts);
    NotPlaceholder(v, parts);
    NotReleaseDots(v, parts);
  }

  /** "42.x": the wildcard after a number. */
  lemma {:induction false} AcceptsMinorPlaceholder(s: seq<char>)
    requires s == "42.x"
    ensures Parse(s).Ok? && Parse(s).value.spec == ("", s)
    ensures Parse(s).value.selector.Placeholder? && |Parse(s).value.selector.parts| == 2
  {
    var segs := MinorPlaceholderText(s);
    ParsePlaceholder(s, None, segs, 1);
  }

  lemma {:induction false} MinorPlaceholderText(s: seq<char>) returns (segs: seq<seq<char>>)
    requires s == "42.x"
    ensures segs == ["42", "x"]
    ensures Strip(s) == s && s == OptText(None) + JoinDots(segs)
    ensures PlaceForm(segs) && !IsDigits(segs[1]) && "X" !in segs
  {
    segs := ["42", "x"];
    StripPlain(s);
  }


  /** "1!^10.2.3": epoch, operator and release. */
  lemma {:induction false} AcceptsEpochCaret(s: seq<char>)
    requires s == "1!^10.2.3"
    ensures Parse(s).Ok? && Parse(s).value.selector.Packaging?
    ensures Parse(s).value.selector.mode == Minor
  {
    var epoch, body := EpochCaretText(s);
    ReleaseAccepted(s, epoch, Minor, body);
  }

  lemma {:induction false} EpochCaretText(s: seq<char>) returns (epoch: Option<seq<char>>, body: seq<char>)
    requires s == "1!^10.2.3"
    ensures epoch == Some("1!") && body == "10.2.3"
    ensures IsEpochGroup(epoch.value) && IsRelease(body)
    ensures Strip(s) == OptText(epoch) + Glyph(Minor) + body
  {
    epoch, body := Some("1!"), "10.2.3";
    StripPlain(s);
    assert ReleaseForm(body, ["10", "2", "3"], []);
  }


  /** "1!x.x.x": an epoch in front of a placeholder. */
  lemma {:induction false} AcceptsEpochPlaceholder(s: seq<char>)
    requires s == "1!x.x.x"
    ensures Parse(s).Ok? && Parse(s).value.spec == ("", s)
    ensures Parse(s).value.selector.Placeholder? && Parse(s).value.selector.epoch.Some?
    ensures |Parse(s).value.selector.parts| == 3
  {
    var epoch, segs := EpochPlaceholderText(s);
    ParsePlaceholder(s, epoch, segs, 0);
  }

  lemma {:induction false} EpochPlaceholderText(s: seq<char>) returns (epoch: Option<seq<char>>, segs: seq<seq<char>>)
    requires s == "1!x.x.x"
    ensures epoch == Some("1!") && segs == ["x", "x", "x"]
    ensures IsEpochGroup(epoch.value)
    ensures Strip(s) == s && s == OptText(epoch) + JoinDots(segs)
    ensures PlaceForm(segs) && !IsDigits(segs[0]) && "X" !in segs
  {
    epoch, segs := Some("1!"), ["x", "x", "x"];
    StripPlain(s);
  }


  /** "~11.2.3": the patch operator and a release. */
  lemma {:induction false} AcceptsTildeRelease(s: seq<char>)
    requires s == "~11.2.3"
    ensures Parse(s).Ok? && Parse(s).value.spec == ("~", "11.2.3")
    ensures Parse(s).value.selector.Packaging? && Parse(s).value.selector.mode == Patch
  {
    var body := TildeReleaseText(s);
    ReleaseAccepted(s, None, Patch, body);
  }

  lemma {:induction false} TildeReleaseText(s: seq<char>) returns (body: seq<char>)
    requires s == "~11.2.3"
    ensures body == "11.2.3" && IsRelease(body)
    ensures Strip(s) == OptText(None) + Glyph(Patch) + body
    ensures Glyph(Patch) == "~" && OptText(None) + body == body
  {
    body := "11.2.3";
    StripPlain(s);
    assert ReleaseForm(body, ["11", "2", "3"], []);
  }


  /** "X": the pattern ignores case, so it accepts an upper-case wildcard, which construction
      then refuses with `ValueError`; read without regard to case it is the lone wildcard. */
  lemma {:induction false} UpperWildcard(s: seq<char>)
    requires s == "X"
    ensures Parse(s) == Err(ValueError)
    ensures ParseFolded(s).Ok? && ParseFolded(s).value.selector.Placeholder?
    ensures ParseFolded(s).value.selector.parts == [X]
  {
    UpperWildcardRaises(s);
    UpperWildcardFolded(s);
  }

  lemma {:induction false} UpperWildcardRaises(s: seq<char>)
    requires s == "X"
    ensures Match(s).Some? && Parse(s) == Err(ValueError)
  {
    var g := UpperWildcardGroups(s);
    LegalMatch(s, g);
    ParseErrors(s);
  }

  lemma {:induction false} UpperWildcardFolded(s: seq<char>)
    requires s == "X"
    ensures ParseFolded(s).Ok? && ParseFolded(s).value.selector.Placeholder?
    ensures ParseFolded(s).value.selector.parts == [X]
  {
    var g := UpperWildcardSelector(s);
    LegalMatch(s, g);
  }

  lemma {:induction false} UpperWildcardSelector(v: seq<char>) returns (g: Groups)
    requires v == "X"
    ensures Legal(g) && Strip(v) == Spelled(g)
    ensures SelectorOf(FoldGroups(g)).Ok? && SelectorOf(FoldGroups(g)).value.Placeholder?
    ensures SelectorOf(FoldGroups(g)).value.parts == [X]
  {
    g := UpperWildcardGroups(v);
    FoldedPlaceholder(g);
    var parts := SelectorOf(FoldGroups(g)).value.parts;
    assert ReadsParts(["x"], parts);
    assert |parts| == 1 && parts[0] == X;
  }

  lemma {:induction false} UpperWildcardGroups(s: seq<char>) returns (g: Groups)
    requires s == "X"
    ensures g == Groups(None, "", s, Some(s))
    ensures Legal(g) && Strip(s) == Spelled(g)
    ensures SplitDots(s) == ["X"] && LowerWildcards(["X"]) == ["x"]
  {
    g := Groups(None, "", s, Some(s));
    StripPlain(s);
    assert IsPlaceSegment(s) && s == JoinDots([s]);
    assert PlaceForm([s]);
    NotReleaseStart(s);
    SplitJoinDots([s]);
  }

  // ---------------------------------------------------------------------------------------
  // Spellings the canonical rows rely on

  /** How `__str__` spells the placeholders of the canonical table. */
  lemma {:induction false} PlaceholderSpellings(o: Oracle)
    ensures Str(o, Placeholder(None, [X])) == "x"
    ensures Str(o, Placeholder(None, [Num(1), X])) == "1.x"
    ensures Str(o, Placeholder(None, [Num(1), X, X])) == "1.x.x"
    ensures Str(o, Placeholder(None, [Num(1), Num(0), X])) == "1.0.x"
    ensures Str(o, Placeholder(None, [Num(1), X, Num(1)])) == "1.x.1"
    ensures Str(o, Placeholder(None, [X, Num(1), Num(0)])) == "x.1.0"
  {
    assert NatText(1) == "1" && NatText(0) == "0";
    assert PartTexts([X]) == ["x"];
    assert PartTexts([Num(1), X]) == ["1", "x"];
    assert PartTexts([Num(1), X, X]) == ["1", "x", "x"];
    assert PartTexts([Num(1), Num(0), X]) == ["1", "0", "x"];
    assert PartTexts([Num(1), X, Num(1)]) == ["1", "x", "1"];
    assert PartTexts([X, Num(1), Num(0)]) == ["x", "1", "0"];
    JoinChars2('1', 'x');
    JoinChars3('1', 'x', 'x');
    JoinChars3('1', '0', 'x');
    JoinChars3('1', 'x', '1');
    JoinChars3('x', '1', '0');
  }

  /** How `__str__` spells the epoch placeholders of the canonical table. */
  lemma {:induction false} EpochPlaceholderSpellings(o: Oracle)
    ensures Str(o, Placeholder(Some(1), [Num(1), X])) == "1!1.x"
    ensures Str(o, Placeholder(Some(1), [X, Num(1), Num(0)])) == "1!x.1.0"
  {
    assert NatText(1) == "1" && NatText(0) == "0";
    assert FormatEpoch(Some(1)) == "1!";
    assert PartTexts([Num(1), X]) == ["1", "x"];
    assert PartTexts([X, Num(1), Num(0)]) == ["x", "1", "0"];
    JoinChars2('1', 'x');
    JoinChars3('x', '1', '0');
  }

  /** The version texts of the canonical table without an epoch. */
  lemma {:induction false} VersionSpellings(o: Oracle)
    ensures VersionText(o, Version(0, [1], [])) == "1"
    ensures VersionText(o, Version(0, [1, 0], [])) == "1.0"
    ensures VersionText(o, Version(0, [1, 0, 0], [])) == "1.0.0"
    ensures VersionText(o, Version(0, [1, 0, 4], [])) == "1.0.4"
  {
    assert NatText(1) == "1" && NatText(0) == "0" && NatText(4) == "4";
    assert EpochText(0) == [];
    assert NumbersText([1]) == ["1"];
    assert NumbersText([1, 0]) == ["1", "0"];
    assert NumbersText([1, 0, 0]) == ["1", "0", "0"];
    assert NumbersText([1, 0, 4]) == ["1", "0", "4"];
    JoinChars2('1', '0');
    JoinChars3('1', '0', '0');
    JoinChars3('1', '0', '4');
  }

  /** The version texts of the canonical table with epoch 1. */
  lemma {:induction false} EpochVersionSpellings(o: Oracle)
    ensures VersionText(o, Version(1, [1], [])) == "1!1"
    ensures VersionText(o, Version(1, [1, 0, 0], [])) == "1!1.0.0"
    ensures VersionText(o, Version(1, [1, 0, 4], [])) == "1!1.0.4"
  {
    assert NatText(1) == "1" && NatText(0) == "0" && NatText(4) == "4";
    assert EpochText(1) == "1!";
    assert NumbersText([1]) == ["1"];
    assert NumbersText([1, 0, 0]) == ["1", "0", "0"];
    assert NumbersText([1, 0, 4]) == ["1", "0", "4"];
    JoinChars3('1', '0', '0');
    JoinChars3('1', '0', '4');
  }

  /** How `__str__` spells the bare versions of the canonical table. */
  lemma {:induction false} BareSpellings(o: Oracle)
    ensures Str(o, Packaging(MaybeExact, Version(0, [1], []))) == "1"
    ensures Str(o, Packaging(MaybeExact, Version(1, [1], []))) == "1!1"
    ensures Str(o, Packaging(MaybeExact, Version(0, [1, 0], []))) == "1.0"
    ensures Str(o, Packaging(MaybeExact, Version(0, [1, 0, 4], []))) == "1.0.4"
  {
    VersionSpellings(o);
    assert FormatEpoch(Some(0)) == [] && FormatEpoch(Some(1)) == "1!";
  }

  /** How `__str__` spells the ranges of the canonical table without an epoch. */
  lemma {:induction false} RangeSpellings(o: Oracle)
    ensures Str(o, Packaging(Minor, Version(0, [1, 0, 4], []))) == "^1.0.4"
    ensures Str(o, Packaging(Patch, Version(0, [1, 0, 4], []))) == "~1.0.4"
  {
    VersionSpellings(o);
    assert FormatEpoch(Some(0)) == [];
  }

  /** How `__str__` spells the ranges of the canonical table with epoch 1. */
  lemma {:induction false} EpochRangeSpellings(o: Oracle)
    ensures Str(o, Packaging(Minor, Version(1, [1, 0, 4], []))) == "1!^1.0.4"
    ensures Str(o, Packaging(Minor, Version(1, [1, 0, 0], []))) == "1!^1.0.0"
  {
    VersionSpellings(o);
    assert FormatEpoch(Some(1)) == "1!";
  }

  // ---------------------------------------------------------------------------------------
  // The canonical table

  /** A selector that survives `Str` then `Parse`, parsed from its own spelling: the
      canonical spec pair of the specifier is the spec pair of the canonical selector, and
      the canonical text is that selector's spelling. */
  lemma {:induction false} SpelledCanonical(o: Oracle, s: seq<char>, sel: Selector, c: Selector)
    requires RoundTrips(sel) && Str(o, sel) == s && Canonical(o, sel) == Ok(c)
    ensures Parse(s) == Ok(Specifier(Spec(o, sel), sel))
    ensures CanonicalSpec(o, Parse(s).value) == Ok(Spec(o, c))
    ensures CanonicalText(o, Parse(s).value) == Ok(Str(o, c))
  {
    StrRoundTrip(o, sel);
  }

  /** ("*", "*"). */
  lemma {:induction false} CanonicalAny(o: Oracle, s: seq<char>)
    requires s == "*"
    ensures Parse(s).Ok? && CanonicalSpec(o, Parse(s).value) == Ok(("*", ""))
  {
    StripPlain(s);
    ParseAny(s);
  }

  /** ("x", "*"): the lone wildcard means any version. */
  lemma {:induction false} CanonicalMajorWildcard(o: Oracle, s: seq<char>)
    requires s == "x"
    ensures Parse(s).Ok? && CanonicalSpec(o, Parse(s).value) == Ok(("*", ""))
  {
    var sel, c := MajorWildcardFacts(o);
    SpelledCanonical(o, s, sel, c);
  }

  lemma {:induction false} MajorWildcardFacts(o: Oracle) returns (sel: Selector, c: Selector)
    ensures sel == Placeholder(None, [X])
    ensures c == Any
    ensures RoundTrips(sel) && Str(o, sel) == "x"
    ensures Canonical(o, sel) == Ok(c) && Spec(o, c) == ("*", "")
  {
    sel, c := Placeholder(None, [X]), Any;
    PlaceholderSpellings(o);
  }

  /** ("1", "^1.0.0"): a bare major version means the minor range of that major. */
  lemma {:induction false} CanonicalBareMajor(o: Oracle, s: seq<char>)
    requires s == "1"
    ensures Parse(s).Ok? && CanonicalSpec(o, Parse(s).value) == Ok(("^", "1.0.0"))
  {
    var sel, c := BareMajorFacts(o);
    SpelledCanonical(o, s, sel, c);
  }

  lemma {:induction false} BareMajorFacts(o: Oracle) returns (sel: Selector, c: Selector)
    ensures sel == Packaging(MaybeExact, Version(0, [1], []))
    ensures c == Packaging(Minor, Version(0, [1, 0, 0], []))
    ensures RoundTrips(sel) && Str(o, sel) == "1"
    ensures Canonical(o, sel) == Ok(c) && Spec(o, c) == ("^", "1.0.0")
  {
    sel, c := Packaging(MaybeExact, Version(0, [1], [])), Packaging(Minor, Version(0, [1, 0, 0], []));
    BareSpellings(o);
    MinorFolding(o, None, 1);
    VersionSpellings(o);
  }

  /** ("1!1", "1!^1.0.0"): the pair puts the epoch after the operator, so its join
      "^1!1.0.0" is no longer a valid specifier; the canonical selector itself prints as
      the table expects. */
  lemma {:induction false} CanonicalEpochBareMajor(o: Oracle, s: seq<char>)
    requires s == "1!1"
    ensures Parse(s).Ok? && CanonicalSpec(o, Parse(s).value) == Ok(("^", "1!1.0.0"))
    ensures CanonicalText(o, Parse(s).value) == Ok("1!^1.0.0")
    ensures Parse(Joined(CanonicalSpec(o, Parse(s).value).value)) == Err(InvalidSpecifier)
  {
    var sel, c := EpochBareMajorFacts(o);
    SpelledCanonical(o, s, sel, c);
    JoinedSpecRejected(o, c);
  }

  lemma {:induction false} EpochBareMajorFacts(o: Oracle) returns (sel: Selector, c: Selector)
    ensures sel == Packaging(MaybeExact, Version(1, [1], []))
    ensures c == Packaging(Minor, Version(1, [1, 0, 0], []))
    ensures RoundTrips(sel) && Str(o, sel) == "1!1"
    ensures Canonical(o, sel) == Ok(c) && Spec(o, c) == ("^", "1!1.0.0")
    ensures Str(o, c) == "1!^1.0.0"
    ensures c.Packaging? && c.mode == Minor && c.version.epoch == 1 && RoundTrips(c)
  {
    sel, c := Packaging(MaybeExact, Version(1, [1], [])), Packaging(Minor, Version(1, [1, 0, 0], []));
    BareSpellings(o);
    MinorFolding(o, Some(1), 1);
    EpochVersionSpellings(o);
    EpochRangeSpellings(o);
  }

  /** ("1.x", "^1.0.0"). */
  lemma {:induction false} CanonicalMinorWildcard(o: Oracle, s: seq<char>)
    requires s == "1.x"
    ensures Parse(s).Ok? && CanonicalSpec(o, Parse(s).value) == Ok(("^", "1.0.0"))
  {
    var sel, c := MinorWildcardFacts(o);
    SpelledCanonical(o, s, sel, c);
  }

  lemma {:induction false} MinorWildcardFacts(o: Oracle) returns (sel: Selector, c: Selector)
    ensures sel == Placeholder(None, [Num(1), X])
    ensures c == Packaging(Minor, Version(0, [1, 0, 0], []))
    ensures RoundTrips(sel) && Str(o, sel) == "1.x"
    ensures Canonical(o, sel) == Ok(c) && Spec(o, c) == ("^", "1.0.0")
  {
    sel, c := Placeholder(None, [Num(1), X]), Packaging(Minor, Version(0, [1, 0, 0], []));
    PlaceholderSpellings(o);
    MinorFolding(o, None, 1);
    VersionSpellings(o);
  }

  /** ("1!1.x", "1!^1.0.0"): as for "1!1", the join of the pair is "^1!1.0.0". */
  lemma {:induction false} CanonicalEpochMinorWildcard(o: Oracle, s: seq<char>)
    requires s == "1!1.x"
    ensures Parse(s).Ok? && CanonicalSpec(o, Parse(s).value) == Ok(("^", "1!1.0.0"))
    ensures CanonicalText(o, Parse(s).value) == Ok("1!^1.0.0")
    ensures Parse(Joined(CanonicalSpec(o, Parse(s).value).value)) == Err(InvalidSpecifier)
  {
    var sel, c := EpochMinorWildcardFacts(o);
    SpelledCanonical(o, s, sel, c);
    JoinedSpecRejected(o, c);
  }

  lemma {:induction false} EpochMinorWildcardFacts(o: Oracle) returns (sel: Selector, c: Selector)
    ensures sel == Placeholder(Some(1), [Num(1), X])
    ensures c == Packaging(Minor, Version(1, [1, 0, 0], []))
    ensures RoundTrips(sel) && Str(o, sel) == "1!1.x"
    ensures Canonical(o, sel) == Ok(c) && Spec(o, c) == ("^", "1!1.0.0")
    ensures Str(o, c) == "1!^1.0.0"
    ensures c.Packaging? && c.mode == Minor && c.version.epoch == 1 && RoundTrips(c)
  {
    sel, c := Placeholder(Some(1), [Num(1), X]), Packaging(Minor, Version(1, [1, 0, 0], []));
    EpochPlaceholderSpellings(o);
    MinorFolding(o, Some(1), 1);
    EpochVersionSpellings(o);
    EpochRangeSpellings(o);
  }

  /** ("^1.0.4", "^1.0.4"), given that `canonicalize_version` keeps 1.0.4. */
  lemma {:induction false} CanonicalCaretKept(o: Oracle, s: seq<char>)
    requires s == "^1.0.4"
    requires o.canonicalize(Version(0, [1, 0, 4], [])) == Version(0, [1, 0, 4], [])
    ensures Parse(s).Ok? && CanonicalSpec(o, Parse(s).value) == Ok(("^", "1.0.4"))
  {
    var sel, c := CaretKeptFacts(o);
    SpelledCanonical(o, s, sel, c);
  }

  lemma {:induction false} CaretKeptFacts(o: Oracle) returns (sel: Selector, c: Selector)
    requires o.canonicalize(Version(0, [1, 0, 4], [])) == Version(0, [1, 0, 4], [])
    ensures sel == Packaging(Minor, Version(0, [1, 0, 4], []))
    ensures c == Packaging(Minor, Version(0, [1, 0, 4], []))
    ensures RoundTrips(sel) && Str(o, sel) == "^1.0.4"
    ensures Canonical(o, sel) == Ok(c) && Spec(o, c) == ("^", "1.0.4")
  {
    sel, c := Packaging(Minor, Version(0, [1, 0, 4], [])), Packaging(Minor, Version(0, [1, 0, 4], []));
    RangeSpellings(o);
    VersionSpellings(o);
  }

  /** ("1!^1.0.4", "1!^1.0.4"), given that `canonicalize_version` keeps 1!1.0.4; the
      join of the pair is "^1!1.0.4". */
  lemma {:induction false} CanonicalEpochCaretKept(o: Oracle, s: seq<char>)
    requires s == "1!^1.0.4"
    requires o.canonicalize(Version(1, [1, 0, 4], [])) == Version(1, [1, 0, 4], [])
    ensures Parse(s).Ok? && CanonicalSpec(o, Parse(s).value) == Ok(("^", "1!1.0.4"))
    ensures CanonicalText(o, Parse(s).value) == Ok("1!^1.0.4")
    ensures Parse(Joined(CanonicalSpec(o, Parse(s).value).value)) == Err(InvalidSpecifier)
  {
    var sel, c := EpochCaretKeptFacts(o);
    SpelledCanonical(o, s, sel, c);
    JoinedSpecRejected(o, c);
  }

  lemma {:induction false} EpochCaretKeptFacts(o: Oracle) returns (sel: Selector, c: Selector)
    requires o.canonicalize(Version(1, [1, 0, 4], [])) == Version(1, [1, 0, 4], [])
    ensures sel == Packaging(Minor, Version(1, [1, 0, 4], []))
    ensures c == Packaging(Minor, Version(1, [1, 0, 4], []))
    ensures RoundTrips(sel) && Str(o, sel) == "1!^1.0.4"
    ensures Canonical(o, sel) == Ok(c) && Spec(o, c) == ("^", "1!1.0.4")
    ensures Str(o, c) == "1!^1.0.4"
    ensures c.Packaging? && c.mode == Minor && c.version.epoch == 1 && RoundTrips(c)
  {
    sel, c := Packaging(Minor, Version(1, [1, 0, 4], [])), Packaging(Minor, Version(1, [1, 0, 4], []));
    EpochRangeSpellings(o);
    EpochVersionSpellings(o);
  }

  /** ("1.0", "~1.0.0"): a bare major.minor version means the patch range. */
  lemma {:induction false} CanonicalBareMinor(o: Oracle, s: seq<char>)
    requires s == "1.0"
    ensures Parse(s).Ok? && CanonicalSpec(o, Parse(s).value) == Ok(("~", "1.0.0"))
  {
    var sel, c := BareMinorFacts(o);
    SpelledCanonical(o, s, sel, c);
  }

  lemma {:induction false} BareMinorFacts(o: Oracle) returns (sel: Selector, c: Selector)
    ensures sel == Packaging(MaybeExact, Version(0, [1, 0], []))
    ensures c == Packaging(Patch, Version(0, [1, 0, 0], []))
    ensures RoundTrips(sel) && Str(o, sel) == "1.0"
    ensures Canonical(o, sel) == Ok(c) && Spec(o, c) == ("~", "1.0.0")
  {
    sel, c := Packaging(MaybeExact, Version(0, [1, 0], [])), Packaging(Patch, Version(0, [1, 0, 0], []));
    BareSpellings(o);
    PatchFolding(o, None, 1, 0);
    VersionSpellings(o);
  }

  /** ("1.0.x", "~1.0.0"). */
  lemma {:induction false} CanonicalPatchWildcard(o: Oracle, s: seq<char>)
    requires s == "1.0.x"
    ensures Parse(s).Ok? && CanonicalSpec(o, Parse(s).value) == Ok(("~", "1.0.0"))
  {
    var sel, c := PatchWildcardFacts(o);
    SpelledCanonical(o, s, sel, c);
  }

  lemma {:induction false} PatchWildcardFacts(o: Oracle) returns (sel: Selector, c: Selector)
    ensures sel == Placeholder(None, [Num(1), Num(0), X])
    ensures c == Packaging(Patch, Version(0, [1, 0, 0], []))
    ensures RoundTrips(sel) && Str(o, sel) == "1.0.x"
    ensures Canonical(o, sel) == Ok(c) && Spec(o, c) == ("~", "1.0.0")
  {
    sel, c := Placeholder(None, [Num(1), Num(0), X]), Packaging(Patch, Version(0, [1, 0, 0], []));
    PlaceholderSpellings(o);
    PatchFolding(o, None, 1, 0);
    VersionSpellings(o);
  }

  /** ("~1.0.4", "~1.0.4"), given that `canonicalize_version` keeps 1.0.4. */
  lemma {:induction false} CanonicalTildeKept(o: Oracle, s: seq<char>)
    requires s == "~1.0.4"
    requires o.canonicalize(Version(0, [1, 0, 4], [])) == Version(0, [1, 0, 4], [])
    ensures Parse(s).Ok? && CanonicalSpec(o, Parse(s).value) == Ok(("~", "1.0.4"))
  {
    var sel, c := TildeKeptFacts(o);
    SpelledCanonical(o, s, sel, c);
  }

  lemma {:induction false} TildeKeptFacts(o: Oracle) returns (sel: Selector, c: Selector)
    requires o.canonicalize(Version(0, [1, 0, 4], [])) == Version(0, [1, 0, 4], [])
    ensures sel == Packaging(Patch, Version(0, [1, 0, 4], []))
    ensures c == Packaging(Patch, Version(0, [1, 0, 4], []))
    ensures RoundTrips(sel) && Str(o, sel) == "~1.0.4"
    ensures Canonical(o, sel) == Ok(c) && Spec(o, c) == ("~", "1.0.4")
  {
    sel, c := Packaging(Patch, Version(0, [1, 0, 4], [])), Packaging(Patch, Version(0, [1, 0, 4], []));
    RangeSpellings(o);
    VersionSpellings(o);
  }

  /** ("1.0.4", "1.0.4"), given that `canonicalize_version` keeps 1.0.4: three numbers
      are an exact version. */
  lemma {:induction false} CanonicalExactKept(o: Oracle, s: seq<char>)
    requires s == "1.0.4"
    requires o.canonicalize(Version(0, [1, 0, 4], [])) == Version(0, [1, 0, 4], [])
    ensures Parse(s).Ok? && CanonicalSpec(o, Parse(s).value) == Ok(("", "1.0.4"))
  {
    var sel, c := ExactKeptFacts(o);
    SpelledCanonical(o, s, sel, c);
  }

  lemma {:induction false} ExactKeptFacts(o: Oracle) returns (sel: Selector, c: Selector)
    requires o.canonicalize(Version(0, [1, 0, 4], [])) == Version(0, [1, 0, 4], [])
    ensures sel == Packaging(MaybeExact, Version(0, [1, 0, 4], []))
    ensures c == Packaging(MaybeExact, Version(0, [1, 0, 4], []))
    ensures RoundTrips(sel) && Str(o, sel) == "1.0.4"
    ensures Canonical(o, sel) == Ok(c) && Spec(o, c) == ("", "1.0.4")
  {
    sel, c := Packaging(MaybeExact, Version(0, [1, 0, 4], [])), Packaging(MaybeExact, Version(0, [1, 0, 4], []));
    BareSpellings(o);
    PublicPieces(o, Version(0, [1, 0, 4], []));
    VersionSpellings(o);
  }

  /** "1.0.0", absent from the table: with `canonicalize_version` dropping trailing zeros,
      the exact version's canonical spec is ("", "1"), and that text's own canonical spec is
      the range ("^", "1.0.0"). */
  lemma {:induction false} CanonicalExactTrailingZeros(o: Oracle, s: seq<char>)
    requires s == "1.0.0" && CanonicalizeStripsZeros(o)
    ensures Parse(s).Ok? && CanonicalSpec(o, Parse(s).value) == Ok(("", "1"))
    ensures var t := Joined(CanonicalSpec(o, Parse(s).value).value);
      Parse(t).Ok? && CanonicalSpec(o, Parse(t).value) == Ok(("^", "1.0.0"))
  {
    var sel, c := TrailingZerosFacts(o);
    SpelledCanonical(o, s, sel, c);
    WidenedText(o, Joined(("", "1")));
  }

  lemma {:induction false} WidenedText(o: Oracle, t: seq<char>)
    requires t == Joined(("", "1"))
    ensures Parse(t).Ok? && CanonicalSpec(o, Parse(t).value) == Ok(("^", "1.0.0"))
  {
    assert t == "1";
    CanonicalBareMajor(o, t);
  }

  lemma {:induction false} TrailingZerosFacts(o: Oracle) returns (sel: Selector, c: Selector)
    requires CanonicalizeStripsZeros(o)
    ensures sel == Packaging(MaybeExact, Version(0, [1, 0, 0], []))
    ensures c == Packaging(MaybeExact, Version(0, [1], []))
    ensures RoundTrips(sel) && Str(o, sel) == "1.0.0"
    ensures Canonical(o, sel) == Ok(c) && Spec(o, c) == ("", "1")
  {
    sel, c := Packaging(MaybeExact, Version(0, [1, 0, 0], [])), Packaging(MaybeExact, Version(0, [1], []));
    ExactTrailingZerosWiden(o);
    TrailingZerosSpellings(o);
  }

  lemma {:induction false} TrailingZerosSpellings(o: Oracle)
    ensures Str(o, Packaging(MaybeExact, Version(0, [1, 0, 0], []))) == "1.0.0"
    ensures Spec(o, Packaging(MaybeExact, Version(0, [1], []))) == ("", "1")
  {
    VersionSpellings(o);
    assert FormatEpoch(Some(0)) == [];
  }

  /** ("1.x.x", "^1.0.0"). */
  lemma {:induction false} CanonicalDoubleWildcard(o: Oracle, s: seq<char>)
    requires s == "1.x.x"
    ensures Parse(s).Ok? && CanonicalSpec(o, Parse(s).value) == Ok(("^", "1.0.0"))
  {
    var sel, c := DoubleWildcardFacts(o);
    SpelledCanonical(o, s, sel, c);
  }

  lemma {:induction false} DoubleWildcardFacts(o: Oracle) returns (sel: Selector, c: Selector)
    ensures sel == Placeholder(None, [Num(1), X, X])
    ensures c == Packaging(Minor, Version(0, [1, 0, 0], []))
    ensures RoundTrips(sel) && Str(o, sel) == "1.x.x"
    ensures Canonical(o, sel) == Ok(c) && Spec(o, c) == ("^", "1.0.0")
  {
    sel, c := Placeholder(None, [Num(1), X, X]), Packaging(Minor, Version(0, [1, 0, 0], []));
    PlaceholderSpellings(o);
    MinorFolding(o, None, 1);
    VersionSpellings(o);
  }

  /** ("1.x.1", "1.x.1"): a wildcard between numbers is kept. */
  lemma {:induction false} CanonicalInnerWildcard(o: Oracle, s: seq<char>)
    requires s == "1.x.1"
    ensures Parse(s).Ok? && CanonicalSpec(o, Parse(s).value) == Ok(("", "1.x.1"))
  {
    var sel, c := InnerWildcardFacts(o);
    SpelledCanonical(o, s, sel, c);
  }

  lemma {:induction false} InnerWildcardFacts(o: Oracle) returns (sel: Selector, c: Selector)
    ensures sel == Placeholder(None, [Num(1), X, Num(1)])
    ensures c == sel
    ensures RoundTrips(sel) && Str(o, sel) == "1.x.1"
    ensures Canonical(o, sel) == Ok(c) && Spec(o, c) == ("", "1.x.1")
  {
    sel, c := Placeholder(None, [Num(1), X, Num(1)]), Placeholder(None, [Num(1), X, Num(1)]);
    PlaceholderSpellings(o);
    assert [Num(1), X, Num(1)][1..] == [X, Num(1)];
  }

  /** ("x.1.0", "x.1.0"): a leading wildcard is kept. */
  lemma {:induction false} CanonicalLeadingWildcard(o: Oracle, s: seq<char>)
    requires s == "x.1.0"
    ensures Parse(s).Ok? && CanonicalSpec(o, Parse(s).value) == Ok(("", "x.1.0"))
  {
    var sel, c := LeadingWildcardFacts(o);
    SpelledCanonical(o, s, sel, c);
  }

  lemma {:induction false} LeadingWildcardFacts(o: Oracle) returns (sel: Selector, c: Selector)
    ensures sel == Placeholder(None, [X, Num(1), Num(0)])
    ensures c == sel
    ensures RoundTrips(sel) && Str(o, sel) == "x.1.0"
    ensures Canonical(o, sel) == Ok(c) && Spec(o, c) == ("", "x.1.0")
  {
    sel, c := Placeholder(None, [X, Num(1), Num(0)]), Placeholder(None, [X, Num(1), Num(0)]);
    PlaceholderSpellings(o);
    assert [X, Num(1), Num(0)][1..] == [Num(1), Num(0)];
  }

  /** ("1!x.1.0", "1!x.1.0"): kept, with its epoch. */
  lemma {:induction false} CanonicalEpochLeadingWildcard(o: Oracle, s: seq<char>)
    requires s == "1!x.1.0"
    ensures Parse(s).Ok? && CanonicalSpec(o, Parse(s).value) == Ok(("", "1!x.1.0"))
  {
    var sel, c := EpochLeadingWildcardFacts(o);
    SpelledCanonical(o, s, sel, c);
  }

  lemma {:induction false} EpochLeadingWildcardFacts(o: Oracle) returns (sel: Selector, c: Selector)
    ensures sel == Placeholder(Some(1), [X, Num(1), Num(0)])
    ensures c == sel
    ensures RoundTrips(sel) && Str(o, sel) == "1!x.1.0"
    ensures Canonical(o, sel) == Ok(c) && Spec(o, c) == ("", "1!x.1.0")
  {
    sel, c := Placeholder(Some(1), [X, Num(1), Num(0)]), Placeholder(Some(1), [X, Num(1), Num(0)]);
    EpochPlaceholderSpellings(o);
    assert [X, Num(1), Num(0)][1..] == [Num(1), Num(0)];
  }
}

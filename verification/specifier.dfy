/** `SemverSpecifier`: constructing a specifier from its text (the pattern match, the
    `(operator, version)` pair with the epoch moved into the version, and the version selector
    the match stands for), and its canonical spec. */
module Specifiers {
  import opened Results
  import opened Text
  import opened Suffix
  import opened Grammar
  import opened Pep440
  import opened Selectors

  /** A constructed specifier: its `_spec` pair and its version selector. */
  datatype Specifier = Specifier(spec: (seq<char>, seq<char>), selector: Selector)

  /** How `PlaceholderVersionSelector.__init__` reads one dot-separated piece: exactly `x` is
      the wildcard, anything else goes through `int()`. */
  function PartOf(seg: seq<char>): Result<Part, Error> {
    if seg == "x" then Ok(X)
    else if IsDigits(seg) then Ok(Num(Value(seg)))
    else Err(ValueError)
  }

  /** `tuple(... for part in segs)`: every piece read, or the `ValueError` of a bad one. */
  function PartsOf(segs: seq<seq<char>>): (r: Result<seq<Part>, Error>)
    ensures r.Ok? <==> forall i | 0 <= i < |segs| :: PartOf(segs[i]).Ok?
    ensures r.Ok? ==> |r.value| == |segs|
    ensures r.Ok? ==> forall i | 0 <= i < |segs| :: PartOf(segs[i]) == Ok(r.value[i])
    ensures r.Err? ==> r.error == ValueError
  {
    if |segs| == 0 then Ok([])
    else
      var head := PartOf(segs[0]);
      var rest := PartsOf(segs[1..]);
      assert forall i | 1 <= i < |segs| :: segs[i] == segs[1..][i - 1];
      if head.Ok? && rest.Ok? then Ok([head.value] + rest.value) else Err(ValueError)
  }

  /** `PlaceholderVersionSelector(epoch, text)`. */
  function PlaceholderOf(e: Option<nat>, text: seq<char>): Result<Selector, Error> {
    var parts := PartsOf(SplitDots(text));
    if parts.Ok? then Ok(Placeholder(e, parts.value)) else Err(parts.error)
  }

  /** `int(match.group("epoch")[:-1]) if match.group("epoch") else None`. */
  function ParsedEpoch(epoch: Option<seq<char>>): Result<Option<nat>, Error> {
    if OptText(epoch) == [] then Ok(None)
    else if IsDigits(epoch.value[..|epoch.value| - 1]) then
      Ok(Some(Value(epoch.value[..|epoch.value| - 1])))
    else Err(ValueError)
  }

  /** The epoch a version text starting with `t` has: the number of the epoch group, 0
      without one. */
  function EpochNumber(t: seq<char>): nat
    requires t == [] || IsEpochGroup(t)
  {
    if t == [] then 0 else Value(t[..|t| - 1])
  }

  /** `Version(epoch + body)` on what the pattern hands over: the epoch group's number, the
      release numbers and the rest of the body as written.  `packaging` accepts more than
      the release alternative does, but nothing else reaches this call; other texts are
      reported as invalid. */
  function VersionOf(epoch: seq<char>, body: seq<char>): Result<Version, Error> {
    if epoch != [] && !IsEpochGroup(epoch) then Err(InvalidVersion)
    else
      match ReleaseBody(body)
      case None => Err(InvalidVersion)
      case Some((segs, ps)) => Ok(Version(EpochNumber(epoch), Values(segs), RenderAll(ps)))
  }

  /** The selector `SemverSpecifier.__init__` builds from the groups of the match. */
  function SelectorOf(g: Groups): Result<Selector, Error> {
    if OptText(g.placeholder) != [] then
      match ParsedEpoch(g.epoch)
      case Err(x) => Err(x)
      case Ok(e) => PlaceholderOf(e, g.placeholder.value)
    else if g.operator == "*" then
      if OptText(g.epoch) != [] then Err(AssertionError) else Ok(Any)
    else
      match ModeOf(g.operator)
      case None => Err(ValueError)
      case Some(m) =>
        match VersionOf(OptText(g.epoch), g.version)
        case Err(x) => Err(x)
        case Ok(v) => Ok(Packaging(m, v))
  }

  /** `SemverSpecifier(text)`: no match raises `InvalidSpecifier`; otherwise the spec pair is
      the operator and the version text with the epoch group in front, and the selector is
      the one the groups stand for. */
  function Parse(s: seq<char>): Result<Specifier, Error> {
    match Match(s)
    case None => Err(InvalidSpecifier)
    case Some(g) =>
      match SelectorOf(g)
      case Err(x) => Err(x)
      case Ok(sel) => Ok(Specifier((g.operator, OptText(g.epoch) + g.version), sel))
  }

  /** `_canonical_spec`: the spec pair of the canonical selector. */
  function CanonicalSpec(o: Oracle, sp: Specifier): Result<(seq<char>, seq<char>), Error> {
    match Canonical(o, sp.selector)
    case Err(x) => Err(x)
    case Ok(c) => Ok(Spec(o, c))
  }

  /** `"".join(pair)`. */
  function Joined(pair: (seq<char>, seq<char>)): seq<char> {
    pair.0 + pair.1
  }

  /** The canonical selector written as a specifier, the epoch in front of the operator, as
      `__str__` writes it. */
  function CanonicalText(o: Oracle, sp: Specifier): Result<seq<char>, Error> {
    match Canonical(o, sp.selector)
    case Err(x) => Err(x)
    case Ok(c) => Ok(Str(o, c))
  }

  // ---------------------------------------------------------------------------------------
  // What construction can raise

  /** On the groups of a legal match the selector is built without any failing `assert`,
      `Mode(...)` or `Version(...)`: the only error left is the `ValueError` of a placeholder
      piece spelled `X`, which the case-insensitive pattern lets through and `int()`
      rejects. */
  lemma {:induction false} SelectorOfLegal(g: Groups)
    requires Legal(g)
    ensures SelectorOf(g).Err? ==> SelectorOf(g).error == ValueError
    ensures SelectorOf(g).Err? <==> g.placeholder.Some? && "X" in SplitDots(g.placeholder.value)
  {
    if g.placeholder.Some? {
      var v := g.placeholder.value;
      PlaceholderBodyIff(v);
      PlaceholderChars(v);
      var segs := SplitDots(v);
      assert PlaceForm(segs);
      forall i | 0 <= i < |segs|
        ensures PartOf(segs[i]).Err? <==> segs[i] == "X"
      {
        PlacePart(segs[i]);
      }
      if "X" in segs {
        var i :| 0 <= i < |segs| && segs[i] == "X";
        assert PartOf(segs[i]).Err?;
      }
    } else if g.operator != "*" {
      ReleaseBodyIff(g.version);
    }
  }

  /** A placeholder piece is read by `int()` unless it is the upper-case wildcard. */
  lemma {:induction false} PlacePart(seg: seq<char>)
    requires IsPlaceSegment(seg)
    ensures PartOf(seg).Err? <==> seg == "X"
  {
    if |seg| == 1 && Lower(seg[0]) == 'x' {
      assert seg == [seg[0]];
    }
  }

  /** Construction fails with `InvalidSpecifier` exactly when the pattern does not match, and
      otherwise only with the `ValueError` of an upper-case `X` placeholder piece. */
  lemma {:induction false} ParseErrors(s: seq<char>)
    ensures Parse(s) == Err(InvalidSpecifier) <==> Match(s).None?
    ensures Parse(s).Err? ==> Parse(s).error in {InvalidSpecifier, ValueError}
    ensures Parse(s) == Err(ValueError) <==>
      Match(s).Some? && Match(s).value.placeholder.Some?
      && "X" in SplitDots(Match(s).value.placeholder.value)
  {
    if Match(s).Some? {
      var g := Match(s).value;
      MatchIff(s, g);
      SelectorOfLegal(g);
    }
  }

  // ---------------------------------------------------------------------------------------
  // Reading an upper-case wildcard

  /** Placeholder pieces with an upper-case wildcard `X` written as `x`. */
  function LowerWildcards(segs: seq<seq<char>>): (r: seq<seq<char>>)
    ensures |r| == |segs|
    ensures forall i | 0 <= i < |segs| :: r[i] == if segs[i] == "X" then "x" else segs[i]
  {
    seq(|segs|, i requires 0 <= i < |segs| => if segs[i] == "X" then "x" else segs[i])
  }

  /** The groups handed to construction when the placeholder's wildcards are read without
      regard to case, as the pattern matches them. */
  function FoldGroups(g: Groups): Groups {
    if g.placeholder.Some? then
      g.(placeholder := Some(JoinDots(LowerWildcards(SplitDots(g.placeholder.value)))))
    else g
  }

  /** Construction with the wildcard piece compared without regard to case: what `Parse`
      does, except that a placeholder piece `X` means the wildcard instead of raising
      `ValueError`. */
  function ParseFolded(s: seq<char>): Result<Specifier, Error> {
    match Match(s)
    case None => Err(InvalidSpecifier)
    case Some(g) =>
      match SelectorOf(FoldGroups(g))
      case Err(x) => Err(x)
      case Ok(sel) => Ok(Specifier((g.operator, OptText(g.epoch) + g.version), sel))
  }

  /** With the wildcard read without regard to case, every text the pattern accepts
      constructs a specifier: the only error left is `InvalidSpecifier`.  Where `Parse`
      succeeds the two agree, and where it raises `ValueError` the upper-case pieces are
      read as wildcards. */
  lemma {:induction false} FoldedParseErrors(s: seq<char>)
    ensures ParseFolded(s).Err? <==> Match(s).None?
    ensures ParseFolded(s).Err? ==> ParseFolded(s) == Err(InvalidSpecifier)
    ensures Parse(s).Ok? ==> ParseFolded(s) == Parse(s)
    ensures Parse(s) == Err(ValueError) ==>
      && ParseFolded(s).Ok? && ParseFolded(s).value.selector.Placeholder?
      && var segs := SplitDots(Match(s).value.placeholder.value);
         ReadsParts(LowerWildcards(segs), ParseFolded(s).value.selector.parts)
  {
    ParseErrors(s);
    if Match(s).Some? {
      var g := Match(s).value;
      MatchIff(s, g);
      SelectorOfLegal(g);
      if g.placeholder.Some? {
        FoldedPlaceholder(g);
      }
    }
  }

  /** Construction on the folded groups of a legal placeholder match reads every piece,
      and changes nothing when there is no upper-case wildcard. */
  lemma {:induction false} FoldedPlaceholder(g: Groups)
    requires Legal(g) && g.placeholder.Some?
    ensures SelectorOf(FoldGroups(g)).Ok? && SelectorOf(FoldGroups(g)).value.Placeholder?
    ensures ReadsParts(LowerWildcards(SplitDots(g.placeholder.value)), SelectorOf(FoldGroups(g)).value.parts)
    ensures "X" !in SplitDots(g.placeholder.value) ==> FoldGroups(g) == g
  {
    var v := g.placeholder.value;
    var segs := SplitDots(v);
    var fsegs := LowerWildcards(segs);
    var e := ParsedEpoch(g.epoch);
    assert e.Ok? by { LegalEpoch(g); }
    assert PlaceForm(segs) && OptText(g.placeholder) != [] by {
      PlaceholderBodyIff(v);
      PlaceholderChars(v);
    }
    FoldedPieces(segs);
    SplitJoinDots(fsegs);
    PlaceholderOfSegments(e.value, fsegs);
    assert SelectorOf(FoldGroups(g)) == PlaceholderOf(e.value, JoinDots(fsegs));
    if "X" !in segs {
      UnfoldedWildcards(segs);
      JoinSplitDots(v);
    }
  }

  /** The epoch group of a match always reads as a number. */
  lemma {:induction false} LegalEpoch(g: Groups)
    requires Legal(g)
    ensures ParsedEpoch(g.epoch).Ok?
  {
    if g.epoch.Some? {
      assert IsEpochGroup(g.epoch.value);
    }
  }

  /** Without an upper-case wildcard there is nothing to lower. */
  lemma {:induction false} UnfoldedWildcards(segs: seq<seq<char>>)
    requires "X" !in segs
    ensures LowerWildcards(segs) == segs
  {
    var f := LowerWildcards(segs);
    forall i | 0 <= i < |segs|
      ensures f[i] == segs[i]
    {
      assert segs[i] in segs;
    }
  }

  /** Lowering the wildcards keeps placeholder pieces placeholder pieces and leaves no
      upper-case wildcard. */
  lemma {:induction false} FoldedPieces(segs: seq<seq<char>>)
    requires PlaceForm(segs)
    ensures var f := LowerWildcards(segs);
      && PlaceForm(f) && "X" !in f && forall i | 0 <= i < |f| :: NoDot(f[i])
  {
    var f := LowerWildcards(segs);
    forall i | 0 <= i < |f|
      ensures IsPlaceSegment(f[i]) && f[i] != "X" && NoDot(f[i])
    {
      if segs[i] == "X" {
        assert f[i] == "x" && Lower(f[i][0]) == 'x';
      }
      PlaceSegmentChars(f[i]);
    }
  }

  // ---------------------------------------------------------------------------------------
  // Shapes of specifiers

  /** The specifier means any version exactly when its text is a lone `*` (no epoch, nothing
      after it), and then its spec pair is `("*", "")`. */
  lemma {:induction false} ParseAny(s: seq<char>)
    ensures (Parse(s).Ok? && Parse(s).value.selector == Any) <==> Strip(s) == "*"
    ensures Strip(s) == "*" ==> Parse(s) == Ok(Specifier(("*", ""), Any))
  {
    var star := Groups(None, "*", [], None);
    assert Spelled(star) == "*";
    if Parse(s).Ok? && Parse(s).value.selector == Any {
      var g := Match(s).value;
      MatchIff(s, g);
      AnyGroups(g);
    }
    if Strip(s) == "*" {
      MatchIff(s, star);
      assert Match(s) == Some(star);
      assert SelectorOf(star) == Ok(Any);
      assert Parse(s) == Ok(Specifier((star.operator, OptText(star.epoch) + star.version), Any));
      assert OptText(star.epoch) + star.version == [];
    }
  }

  /** The only legal groups that stand for any version are those of a lone `*`. */
  lemma {:induction false} AnyGroups(g: Groups)
    requires Legal(g) && SelectorOf(g) == Ok(Any)
    ensures g == Groups(None, "*", [], None)
  {
  }

  /** A `*` anywhere in an accepted specifier is the whole specifier: no epoch and no version
      can come with the wildcard operator. */
  lemma {:induction false} WildcardAlone(s: seq<char>, i: nat)
    requires Parse(s).Ok? && i < |Strip(s)| && Strip(s)[i] == '*'
    ensures Strip(s) == "*"
  {
    var g := Match(s).value;
    MatchIff(s, g);
    if g.operator != "*" {
      SpelledChars(g, i);
      assert false;
    }
  }

  /** An operator in front of a body that only the placeholder alternative matches makes
      the specifier invalid: placeholders take no operator. */
  lemma {:induction false} OperatorRejectsPlaceholder(s: seq<char>, op: seq<char>, v: seq<char>)
    requires op == "^" || op == "~" || op == "*"
    requires IsPlaceholder(v) && !IsRelease(v)
    requires Strip(s) == op + v
    ensures Parse(s) == Err(InvalidSpecifier)
  {
    if Match(s).Some? {
      var g := Match(s).value;
      MatchIff(s, g);
      PlaceholderChars(v);
      GlyphFirst(g, op + v);
      Halves(g.operator, g.version);
      Halves(op, v);
      assert false;
    }
  }

  /** Where a legal match whose text starts with an operator glyph puts that glyph: into the
      operator group, and the rest into the version group. */
  lemma {:induction false} GlyphFirst(g: Groups, t: seq<char>)
    requires Legal(g) && Spelled(g) == t
    requires |t| > 0 && (t[0] == '^' || t[0] == '~' || t[0] == '*')
    ensures g.epoch.None? && g.operator == t[..1] && g.version == t[1..]
  {
    GlyphNoEpoch(g, t);
    GlyphOperator(g, t);
  }

  lemma {:induction false} GlyphNoEpoch(g: Groups, t: seq<char>)
    requires Legal(g) && Spelled(g) == t
    requires |t| > 0 && (t[0] == '^' || t[0] == '~' || t[0] == '*')
    ensures g.epoch.None?
  {
    if g.epoch.Some? {
      assert false;
    }
  }

  lemma {:induction false} GlyphOperator(g: Groups, t: seq<char>)
    requires Legal(g) && Spelled(g) == t && g.epoch.None?
    requires |t| > 0 && (t[0] == '^' || t[0] == '~' || t[0] == '*')
    ensures g.operator == t[..1] && g.version == t[1..]
  {
    assert t == g.operator + g.version;
    if g.operator == "" {
      assert t[0] == g.version[0];
      GlyphChar(t[0]);
      BodyChars(g.operator, g.version, g.placeholder);
      assert false;
    }
    assert |g.operator| == 1;
    Halves(g.operator, g.version);
  }

  /** An operator glyph is neither a digit nor an `x`. */
  lemma {:induction false} GlyphChar(c: char)
    requires c == '^' || c == '~' || c == '*'
    ensures !IsDigit(c) && Lower(c) != 'x'
  {
  }

  // ---------------------------------------------------------------------------------------
  // What the accepted specifiers stand for

  /** The epoch a specifier with the given epoch group has, as `Version` reads it. */
  function EpochOf(epoch: Option<seq<char>>): nat
    requires epoch.None? || IsEpochGroup(epoch.value)
  {
    EpochNumber(OptText(epoch))
  }

  /** An optional epoch group, an optional `^` or `~`, and a release (one to three numbers
      and a well-formed tail) make a packaging selector with that mode, whose version has
      that epoch, those numbers and that tail; the spec pair is the operator and the rest. */
  lemma {:induction false} ParseRelease(s: seq<char>, epoch: Option<seq<char>>, m: Mode,
                     segs: seq<seq<char>>, ps: seq<Piece>)
    requires epoch.None? || IsEpochGroup(epoch.value)
    requires IsFinal(segs) && WfTail(ps, 0)
    requires Strip(s) == OptText(epoch) + Glyph(m) + (JoinDots(segs) + RenderAll(ps))
    ensures Parse(s) == Ok(Specifier(
      (Glyph(m), OptText(epoch) + (JoinDots(segs) + RenderAll(ps))),
      Packaging(m, Version(EpochOf(epoch), Values(segs), RenderAll(ps)))))
  {
    var body := JoinDots(segs) + RenderAll(ps);
    var g := Groups(epoch, Glyph(m), body, None);
    assert IsRelease(body) by {
      assert ReleaseForm(body, segs, ps);
    }
    assert Legal(g);
    MatchIff(s, g);
    ReleaseBodyOf(segs, ps);
    assert ModeOf(Glyph(m)) == Some(m);
    assert SelectorOf(g) == Ok(Packaging(m, Version(EpochOf(epoch), Values(segs), RenderAll(ps))));
  }

  /** An optional epoch group and one to three placeholder pieces, one of them a wildcard,
      make a placeholder selector with the epoch's number and the pieces read one by one;
      an upper-case `X` piece makes construction fail instead. */
  lemma {:induction false} ParsePlaceholder(s: seq<char>, epoch: Option<seq<char>>, segs: seq<seq<char>>, k: nat)
    requires epoch.None? || IsEpochGroup(epoch.value)
    requires PlaceForm(segs) && k < |segs| && !IsDigits(segs[k])
    requires Strip(s) == OptText(epoch) + JoinDots(segs)
    ensures Parse(s).Ok? <==> "X" !in segs
    ensures Parse(s).Err? ==> Parse(s) == Err(ValueError)
    ensures Parse(s).Ok? ==>
      && Parse(s).value.spec == ("", Strip(s))
      && Parse(s).value.selector.Placeholder?
      && Parse(s).value.selector.epoch == (if epoch.None? then None else Some(EpochOf(epoch)))
      && ReadsParts(segs, Parse(s).value.selector.parts)
  {
    var e := if epoch.None? then None else Some(EpochOf(epoch));
    var body := JoinDots(segs);
    var g := Groups(epoch, "", body, Some(body));
    PlaceholderMatch(s, epoch, segs, k);
    assert SelectorOf(g) == PlaceholderOf(e, body) by {
      PlaceholderIs(segs, k);
      PlaceholderSelector(epoch, body);
    }
    ParseOfGroups(s, g);
    PlaceholderOfSegments(e, segs);
  }

  /** The recogniser takes the placeholder alternative on an optional epoch group and
      placeholder pieces, one of which is not a number. */
  lemma {:induction false} PlaceholderMatch(s: seq<char>, epoch: Option<seq<char>>, segs: seq<seq<char>>, k: nat)
    requires epoch.None? || IsEpochGroup(epoch.value)
    requires PlaceForm(segs) && k < |segs| && !IsDigits(segs[k])
    requires Strip(s) == OptText(epoch) + JoinDots(segs)
    ensures Match(s) == Some(Groups(epoch, "", JoinDots(segs), Some(JoinDots(segs))))
  {
    PlaceholderLegal(epoch, segs, k);
    LegalMatch(s, Groups(epoch, "", JoinDots(segs), Some(JoinDots(segs))));
  }

  lemma {:induction false} PlaceholderIs(segs: seq<seq<char>>, k: nat)
    requires PlaceForm(segs) && k < |segs| && !IsDigits(segs[k])
    ensures IsPlaceholder(JoinDots(segs))
  {
  }

  /** Once the recogniser has found the groups, `__init__` builds the selector they stand for
      and keeps the operator and the epoch and version text as the spec pair. */
  lemma {:induction false} ParseOfGroups(s: seq<char>, g: Groups)
    requires Match(s) == Some(g)
    ensures SelectorOf(g).Err? ==> Parse(s) == Err(SelectorOf(g).error)
    ensures SelectorOf(g).Ok? ==>
      Parse(s) == Ok(Specifier((g.operator, OptText(g.epoch) + g.version), SelectorOf(g).value))
  {
  }

  /** The groups of a placeholder match are legal: no release reads the pieces, one of which
      is not a number. */
  lemma {:induction false} PlaceholderLegal(epoch: Option<seq<char>>, segs: seq<seq<char>>, k: nat)
    requires epoch.None? || IsEpochGroup(epoch.value)
    requires PlaceForm(segs) && k < |segs| && !IsDigits(segs[k])
    ensures var body := JoinDots(segs); var g := Groups(epoch, "", body, Some(body));
      Legal(g) && Spelled(g) == OptText(epoch) + body
  {
    WildcardNotRelease(segs, k);
    PlaceholderIs(segs, k);
    var body := JoinDots(segs);
    assert OptText(epoch) + "" + body == OptText(epoch) + body;
  }

  /** The recogniser finds the legal groups that spell the stripped text. */
  lemma {:induction false} LegalMatch(s: seq<char>, g: Groups)
    requires Legal(g) && Strip(s) == Spelled(g)
    ensures Match(s) == Some(g)
  {
    MatchIff(s, g);
  }

  /** Construction on a placeholder group reads the epoch group's number and the pieces. */
  lemma {:induction false} PlaceholderSelector(epoch: Option<seq<char>>, body: seq<char>)
    requires epoch.None? || IsEpochGroup(epoch.value)
    requires IsPlaceholder(body)
    ensures SelectorOf(Groups(epoch, "", body, Some(body)))
         == PlaceholderOf(if epoch.None? then None else Some(EpochOf(epoch)), body)
  {
    PlaceholderChars(body);
  }

  /** `parts` is what reading the placeholder pieces `segs` one by one gives. */
  predicate ReadsParts(segs: seq<seq<char>>, parts: seq<Part>) {
    && |parts| == |segs|
    && forall i | 0 <= i < |segs| ::
         (parts[i] == X <==> segs[i] == "x")
         && (parts[i].Num? ==> IsDigits(segs[i]) && parts[i].n == Value(segs[i]))
  }

  /** `PlaceholderVersionSelector(e, ".".join(segs))` on placeholder pieces: it fails on an
      upper-case `X`, and otherwise reads every piece. */
  lemma {:induction false} PlaceholderOfSegments(e: Option<nat>, segs: seq<seq<char>>)
    requires PlaceForm(segs)
    ensures PlaceholderOf(e, JoinDots(segs)).Ok? <==> "X" !in segs
    ensures PlaceholderOf(e, JoinDots(segs)).Err? ==> PlaceholderOf(e, JoinDots(segs)) == Err(ValueError)
    ensures PlaceholderOf(e, JoinDots(segs)).Ok? ==>
      var r := PlaceholderOf(e, JoinDots(segs)).value;
      r.Placeholder? && r.epoch == e && ReadsParts(segs, r.parts)
  {
    forall i | 0 <= i < |segs|
      ensures NoDot(segs[i])
      ensures PartOf(segs[i]).Err? <==> segs[i] == "X"
    {
      PlaceSegmentChars(segs[i]);
      PlacePart(segs[i]);
    }
    SplitJoinDots(segs);
    if "X" in segs {
      var i :| 0 <= i < |segs| && segs[i] == "X";
      assert PartOf(segs[i]).Err?;
    }
  }

  /** The selectors whose `__str__` reads back as themselves: any version; a placeholder of
      one to three parts with a wildcard and no explicit zero epoch; a packaging selector
      whose version has one to three numbers and no pre/post/dev/local part. */
  predicate RoundTrips(sel: Selector) {
    match sel
    case Any => true
    case Placeholder(e, ps) => 1 <= |ps| <= 3 && X in ps && e != Some(0)
    case Packaging(_, v) => 1 <= |v.release| <= 3 && v.suffix == []
  }

  /** `SemverSpecifier(str(selector))` gives the selector back, with the selector's spec
      pair as its spec. */
  lemma {:induction false} StrRoundTrip(o: Oracle, sel: Selector)
    requires RoundTrips(sel)
    ensures Parse(Str(o, sel)) == Ok(Specifier(Spec(o, sel), sel))
  {
    match sel
    case Any =>
      StripPlain("*");
      ParseAny("*");
    case Placeholder(e, ps) =>
      PlaceholderRoundTrip(o, e, ps);
    case Packaging(m, v) =>
      PackagingRoundTrip(o, m, v);
  }

  /** The epoch group `__str__` writes for a non-zero epoch, as an optional group. */
  function EpochGroup(e: nat): (r: Option<seq<char>>)
    ensures r.None? || IsEpochGroup(r.value)
    ensures OptText(r) == FormatEpoch(Some(e)) && EpochOf(r) == e
  {
    FormatEpochReads(Some(e));
    if e == 0 then None else Some(FormatEpoch(Some(e)))
  }

  lemma {:induction false} PlaceholderRoundTrip(o: Oracle, e: Option<nat>, ps: seq<Part>)
    requires 1 <= |ps| <= 3 && X in ps && e != Some(0)
    ensures Parse(Str(o, Placeholder(e, ps))) == Ok(Specifier(Spec(o, Placeholder(e, ps)), Placeholder(e, ps)))
  {
    var sel := Placeholder(e, ps);
    var s := Str(o, sel);
    var segs := PartTexts(ps);
    var k :| 0 <= k < |ps| && ps[k] == X;
    var epoch := if e.None? then None else EpochGroup(e.value);
    PartTextsRead(ps);
    PlaceholderStrText(o, e, ps, k);
    ParsePlaceholder(s, epoch, segs, k);
    ReadsOwnParts(ps, Parse(s).value.selector.parts);
  }

  /** `__str__` of a placeholder is the unpadded text of its epoch group and the texts of
      its parts, one of them the wildcard. */
  lemma {:induction false} PlaceholderStrText(o: Oracle, e: Option<nat>, ps: seq<Part>, k: nat)
    requires 1 <= |ps| <= 3 && k < |ps| && ps[k] == X && e != Some(0)
    ensures !IsDigits(PartTexts(ps)[k])
    ensures var epoch := if e.None? then None else EpochGroup(e.value);
      Strip(Str(o, Placeholder(e, ps))) == OptText(epoch) + JoinDots(PartTexts(ps))
  {
    var segs := PartTexts(ps);
    var epoch := if e.None? then None else EpochGroup(e.value);
    PartTextsRead(ps);
    assert !IsDigits(segs[k]) by {
      assert segs[k] == "x" && !IsDigit(segs[k][0]);
    }
    assert Str(o, Placeholder(e, ps)) == OptText(epoch) + JoinDots(segs);
    PlaceholderLegal(epoch, segs, k);
    LegalUnpadded(Groups(epoch, "", JoinDots(segs), Some(JoinDots(segs))));
  }

  /** The texts of placeholder parts are placeholder pieces, never an upper-case `X`, and a
      piece is the wildcard exactly when its part is. */
  lemma {:induction false} PartTextsRead(ps: seq<Part>)
    requires 1 <= |ps| <= 3
    ensures PlaceForm(PartTexts(ps)) && "X" !in PartTexts(ps)
    ensures ReadsParts(PartTexts(ps), ps)
  {
    var segs := PartTexts(ps);
    forall i | 0 <= i < |segs|
      ensures IsPlaceSegment(segs[i]) && segs[i] != "X"
      ensures (ps[i] == X <==> segs[i] == "x")
      ensures ps[i].Num? ==> IsDigits(segs[i]) && ps[i].n == Value(segs[i])
    {
      if ps[i].Num? {
        assert AllDigits(NatText(ps[i].n));
        ValueOfNatText(ps[i].n);
      }
    }
  }

  /** Reading the texts of parts gives those parts: reading is a function of the texts. */
  lemma {:induction false} ReadsOwnParts(ps: seq<Part>, qs: seq<Part>)
    requires ReadsParts(PartTexts(ps), ps) && ReadsParts(PartTexts(ps), qs)
    ensures qs == ps
  {
    forall i | 0 <= i < |ps|
      ensures qs[i] == ps[i]
    {
      if ps[i].Num? {
        assert qs[i].Num?;
      }
    }
  }

  lemma {:induction false} PackagingRoundTrip(o: Oracle, m: Mode, v: Version)
    requires 1 <= |v.release| <= 3 && v.suffix == []
    ensures Parse(Str(o, Packaging(m, v))) == Ok(Specifier(Spec(o, Packaging(m, v)), Packaging(m, v)))
  {
    var s := Str(o, Packaging(m, v));
    var segs := NumbersText(v.release);
    var epoch := EpochGroup(v.epoch);
    var j := JoinDots(segs);
    var tail: seq<Piece> := [];
    assert RenderAll(tail) == [];
    assert VersionText(o, ReplaceFields(v, Some(0), None)) == j;
    assert Strip(s) == OptText(epoch) + Glyph(m) + (j + RenderAll(tail)) by {
      var g := Groups(epoch, Glyph(m), j + RenderAll(tail), None);
      assert ReleaseForm(j + RenderAll(tail), segs, tail);
      assert Spelled(g) == s;
      LegalUnpadded(g);
    }
    ParseRelease(s, epoch, m, segs, tail);
    assert j + RenderAll(tail) == j;
    assert Version(EpochOf(epoch), Values(segs), RenderAll(tail)) == v by {
      ValuesOfNumbers(v.release);
    }
    assert Spec(o, Packaging(m, v)) == (Glyph(m), OptText(epoch) + j) by {
      ZeroEpochText(o, v);
    }
  }

  /** An explicit zero epoch on a placeholder is not written by `__str__`, so reading the
      text back gives the placeholder without an epoch, which is not equal to it. */
  lemma {:induction false} ZeroEpochPlaceholder(o: Oracle, ps: seq<Part>)
    requires 1 <= |ps| <= 3 && X in ps
    ensures Parse(Str(o, Placeholder(Some(0), ps))).Ok?
    ensures var r := Parse(Str(o, Placeholder(Some(0), ps))).value.selector;
      r == Placeholder(None, ps) && !Same(o, r, Placeholder(Some(0), ps))
  {
    PlaceholderRoundTrip(o, None, ps);
    assert Str(o, Placeholder(Some(0), ps)) == Str(o, Placeholder(None, ps));
  }

  // ---------------------------------------------------------------------------------------
  // The canonical spec

  /** Folding a selector that reads back as itself gives one that reads back as itself, as
      long as `canonicalize_version` does so for a packaging selector's version. */
  lemma {:induction false} CanonicalRoundTrips(o: Oracle, sel: Selector)
    requires RoundTrips(sel)
    requires sel.Packaging? ==> RoundTrips(Packaging(sel.mode, o.canonicalize(sel.version)))
    ensures Canonical(o, sel).Ok? ==> RoundTrips(Canonical(o, sel).value)
  {
    if sel.Packaging? && sel.mode == MaybeExact && |sel.version.release| != 1 {
      PublicPieces(o, sel.version);
    }
    if sel.Placeholder? && |sel.parts| == 3 {
      assert sel.parts[1..] == [sel.parts[1], sel.parts[2]];
    }
  }

  /** The canonical selector written with its epoch in front of the operator is a specifier
      that stands for the canonical selector again, with the canonical spec as its spec. */
  lemma {:induction false} CanonicalTextReparses(o: Oracle, sp: Specifier)
    requires RoundTrips(sp.selector)
    requires sp.selector.Packaging? ==>
      RoundTrips(Packaging(sp.selector.mode, o.canonicalize(sp.selector.version)))
    ensures CanonicalText(o, sp).Ok? <==> CanonicalSpec(o, sp).Ok?
    ensures CanonicalText(o, sp).Ok? ==>
      var c := Canonical(o, sp.selector).value;
      Parse(CanonicalText(o, sp).value) == Ok(Specifier(CanonicalSpec(o, sp).value, c))
  {
    CanonicalRoundTrips(o, sp.selector);
    if Canonical(o, sp.selector).Ok? {
      StrRoundTrip(o, Canonical(o, sp.selector).value);
    }
  }

  /** Without an epoch, joining the canonical spec pair gives the canonical text. */
  lemma {:induction false} CanonicalTextJoined(o: Oracle, sp: Specifier)
    requires Canonical(o, sp.selector).Ok?
    requires var c := Canonical(o, sp.selector).value; c.Packaging? ==> c.version.epoch == 0
    ensures CanonicalText(o, sp) == Ok(Joined(CanonicalSpec(o, sp).value))
  {
    SpecStr(o, Canonical(o, sp.selector).value);
  }

  /** An operator glyph directly followed by text holding a '!' is no specifier: the epoch
      group must come first, and no release holds a '!'. */
  lemma {:induction false} EpochAfterGlyphRejected(s: seq<char>, i: nat)
    requires |Strip(s)| > 0 && (Strip(s)[0] == '^' || Strip(s)[0] == '~')
    requires 0 < i < |Strip(s)| && Strip(s)[i] == '!'
    ensures Parse(s) == Err(InvalidSpecifier)
  {
    if Match(s).Some? {
      var g := Match(s).value;
      MatchIff(s, g);
      GlyphFirst(g, Strip(s));
      BangInVersion(g, Strip(s), i);
      assert false;
    }
  }

  /** Where the '!' after a leading glyph would sit in a legal match: in the version group,
      whose characters are tail characters. */
  lemma {:induction false} BangInVersion(g: Groups, t: seq<char>, i: nat)
    requires Legal(g) && Spelled(g) == t && 0 < i < |t|
    requires g.epoch.None? && |g.operator| == 1 && g.operator != "*" && g.version == t[1..]
    ensures t[i] != '!'
  {
    BodyChars(g.operator, g.version, g.placeholder);
    assert t[i] == g.version[i - 1];
    assert IsTailChar(g.version[i - 1]);
  }

  /** Joining the spec pair of a `^` or `~` selector with a non-zero epoch puts the epoch
      after the operator, and that text is no specifier, while `__str__` of the same
      selector reads back as it. */
  lemma {:induction false} JoinedSpecRejected(o: Oracle, c: Selector)
    requires RoundTrips(c) && c.Packaging? && c.mode != MaybeExact && c.version.epoch != 0
    ensures Parse(Joined(Spec(o, c))) == Err(InvalidSpecifier)
    ensures Parse(Str(o, c)) == Ok(Specifier(Spec(o, c), c))
  {
    JoinedSpecShape(o, c);
    EpochAfterGlyphRejected(Joined(Spec(o, c)), |NatText(c.version.epoch)| + 1);
    StrRoundTrip(o, c);
  }

  /** The joined spec pair of a `^` or `~` selector with a non-zero epoch: the glyph, then
      the epoch's digits and its '!'. */
  lemma {:induction false} JoinedSpecShape(o: Oracle, c: Selector)
    requires c.Packaging? && c.mode != MaybeExact && c.version.epoch != 0 && c.version.suffix == []
    ensures var t := Joined(Spec(o, c)); var i := |NatText(c.version.epoch)| + 1;
      && Strip(t) == t && i < |t| && (t[0] == '^' || t[0] == '~') && t[i] == '!'
  {
    var v := c.version;
    var d := NatText(v.epoch);
    var rest := VersionText(o, v);
    var g := Glyph(c.mode);
    assert |g| == 1 && (g[0] == '^' || g[0] == '~');
    assert Joined(Spec(o, c)) == g + rest;
    assert rest == d + "!" + JoinDots(NumbersText(v.release));
    GlyphVersionUnpadded(o, c.mode, v);
  }

  /** A glyph followed by the text of a version without pre/post/dev/local parts carries no
      white space. */
  lemma {:induction false} GlyphVersionUnpadded(o: Oracle, m: Mode, v: Version)
    requires v.suffix == []
    ensures var t := Glyph(m) + VersionText(o, v); Strip(t) == t
  {
    var rest := VersionText(o, v);
    var t := Glyph(m) + rest;
    var n := |Glyph(m)|;
    PlainChars(o, v);
    forall i | 0 <= i < |t|
      ensures !IsSpace(t[i])
    {
      if i >= n {
        assert t[i] == rest[i - n];
      }
    }
    StripNoSpace(t);
  }
}

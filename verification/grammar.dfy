/** The specifier pattern of `SemverSpecifier`: an optional epoch `N!`, an operator `^`, `~`,
    `*` or none, and a version body, surrounded by optional whitespace and matched ignoring
    case.  The body is one of three alternatives, tried in this order:

      empty        only right after a `*`
      release      (\d+\.){0,2}\d+ followed by a tail (see module Suffix), not after a `*`
      placeholder  ((\d+|x)\.){0,2}(\d+|x), not after `^`, `~` or `*`

    `Legal` and `Spelled` describe the matches the pattern allows, group by group; `Match` is a
    deterministic recogniser that follows the pattern's order of alternatives and its
    look-behinds, and `MatchIff` proves that it returns exactly the allowed groups. */
module Grammar {
  import opened Results
  import opened Text
  import opened Suffix

  // ---------------------------------------------------------------------------------------
  // The release alternative.

  /** `(\d+\.){0,2}\d+`, as the digit strings between its dots. */
  predicate IsFinal(segs: seq<seq<char>>) {
    1 <= |segs| <= 3 && forall i | 0 <= i < |segs| :: IsDigits(segs[i])
  }

  /** `v` is the release `segs` followed by the tail `ps`. */
  predicate ReleaseForm(v: seq<char>, segs: seq<seq<char>>, ps: seq<Piece>) {
    IsFinal(segs) && WfTail(ps, 0) && v == JoinDots(segs) + RenderAll(ps)
  }

  /** The release alternative of the version group matches all of `v`. */
  ghost predicate IsRelease(v: seq<char>) {
    exists segs: seq<seq<char>>, ps: seq<Piece> :: ReleaseForm(v, segs, ps)
  }

  /** The greedy `(\d+\.){0,room-1}\d+` at the start of `v`: the digit strings it takes and how
      many characters they span.  A dot is taken only when a digit follows it. */
  function Segments(v: seq<char>, room: nat): (r: (seq<seq<char>>, nat))
    requires room >= 1
    decreases room
  {
    var d := DigitRun(v);
    if room > 1 && d + 1 < |v| && v[d] == '.' && IsDigit(v[d + 1]) then
      var r := Segments(v[d + 1..], room - 1);
      ([v[..d]] + r.0, d + 1 + r.1)
    else
      ([v[..d]], d)
  }

  /** What `Segments` takes spells the start of `v`, one to `room` digit strings. */
  lemma {:induction false} SegmentsSpell(v: seq<char>, room: nat)
    requires room >= 1 && |v| > 0 && IsDigit(v[0])
    ensures var r := Segments(v, room);
            && 1 <= |r.0| <= room && r.1 <= |v| && v[..r.1] == JoinDots(r.0)
            && forall i | 0 <= i < |r.0| :: IsDigits(r.0[i])
    decreases room
  {
    var d := DigitRun(v);
    assert d > 0;
    if room > 1 && d + 1 < |v| && v[d] == '.' && IsDigit(v[d + 1]) {
      var w := v[d + 1..];
      SegmentsSpell(w, room - 1);
      var r := Segments(w, room - 1);
      SpellStep(v, d, r.0, r.1);
      DigitsCons(v[..d], r.0);
    } else {
      assert JoinDots([v[..d]]) == v[..d];
    }
  }

  lemma {:induction false} SpellStep(v: seq<char>, d: nat, segs: seq<seq<char>>, n: nat)
    requires d + 1 + n <= |v| && v[d] == '.' && |segs| >= 1
    requires v[d + 1..][..n] == JoinDots(segs)
    ensures v[..d + 1 + n] == JoinDots([v[..d]] + segs)
  {
    var all := [v[..d]] + segs;
    assert JoinDots(all) == v[..d] + "." + JoinDots(segs) by {
      assert all[0] == v[..d] && all[1..] == segs;
    }
    assert v[..d + 1 + n] == v[..d] + "." + v[d + 1..][..n] by {
      var e := d + 1 + n;
      assert v[d + 1..][..n] == v[d + 1..e];
      SliceAround(v, d, e);
      assert [v[d]] == ".";
    }
  }

  lemma {:induction false} DigitsCons(s: seq<char>, segs: seq<seq<char>>)
    requires IsDigits(s) && forall i | 0 <= i < |segs| :: IsDigits(segs[i])
    ensures var all := [s] + segs; forall i | 0 <= i < |all| :: IsDigits(all[i])
  {
    var all := [s] + segs;
    assert forall i | 1 <= i < |all| :: all[i] == segs[i - 1];
  }

  /** On a release followed by something that cannot continue it, `Segments` takes exactly
      the release. */
  lemma {:induction false} SegmentsOf(segs: seq<seq<char>>, u: seq<char>, room: nat)
    requires 1 <= |segs| <= room && forall i | 0 <= i < |segs| :: IsDigits(segs[i])
    requires |u| == 0 || (!IsDigit(u[0]) && (u[0] == '.' ==> |u| > 1 && !IsDigit(u[1])))
    ensures Segments(JoinDots(segs) + u, room) == (segs, |JoinDots(segs)|)
    decreases room
  {
    var s0 := segs[0];
    if |segs| == 1 {
      assert segs == [s0] && JoinDots(segs) == s0;
      SegmentsStop(s0, u, room);
    } else {
      SegmentsOf(segs[1..], u, room - 1);
      SegmentsCons(segs, u, room);
    }
  }

  /** The inductive step of `SegmentsOf`: the first digit string, a dot, and the segments
      the rest spells. */
  lemma {:induction false} SegmentsCons(segs: seq<seq<char>>, u: seq<char>, room: nat)
    requires 2 <= |segs| <= room && forall i | 0 <= i < |segs| :: IsDigits(segs[i])
    requires Segments(JoinDots(segs[1..]) + u, room - 1) == (segs[1..], |JoinDots(segs[1..])|)
    ensures Segments(JoinDots(segs) + u, room) == (segs, |JoinDots(segs)|)
  {
    var s0 := segs[0];
    var j := JoinDots(segs[1..]);
    var w := j + u;
    assert JoinDots(segs) + u == s0 + "." + w && |JoinDots(segs)| == |s0| + 1 + |j| by {
      JoinAppend(segs, u);
    }
    assert |w| > 0 && IsDigit(w[0]) by {
      assert IsDigits(segs[1]);
      JoinHead(segs[1..]);
      assert w[0] == j[0];
    }
    assert IsDigits(s0);
    SegmentsStep(s0, w, room);
    HeadTail(segs);
  }

  lemma {:induction false} JoinAppend(segs: seq<seq<char>>, u: seq<char>)
    requires |segs| >= 2
    ensures JoinDots(segs) + u == segs[0] + "." + (JoinDots(segs[1..]) + u)
    ensures JoinDots(segs) == segs[0] + "." + JoinDots(segs[1..])
  {
    var j := JoinDots(segs[1..]);
    assert JoinDots(segs) == segs[0] + "." + j;
    Assoc(segs[0] + ".", j, u);
  }

  /** `Segments` stops after a digit string that nothing can continue. */
  lemma {:induction false} SegmentsStop(s0: seq<char>, u: seq<char>, room: nat)
    requires room >= 1 && IsDigits(s0)
    requires |u| == 0 || (!IsDigit(u[0]) && (u[0] == '.' ==> |u| > 1 && !IsDigit(u[1])))
    ensures Segments(s0 + u, room) == ([s0], |s0|)
  {
    var v := s0 + u;
    DigitRunOver(s0, u);
    assert v[..|s0|] == s0;
    if |u| > 0 {
      assert v[|s0|] == u[0];
    }
    if |u| > 1 {
      assert v[|s0| + 1] == u[1];
    }
  }

  /** `Segments` takes a dot followed by a digit when there is room. */
  lemma {:induction false} SegmentsStep(s0: seq<char>, w: seq<char>, room: nat)
    requires room > 1 && IsDigits(s0) && |w| > 0 && IsDigit(w[0])
    ensures var r := Segments(w, room - 1);
            Segments(s0 + "." + w, room) == ([s0] + r.0, |s0| + 1 + r.1)
  {
    var v := s0 + "." + w;
    assert v == s0 + ("." + w);
    DigitRunOver(s0, "." + w);
    assert v[|s0|] == '.' && v[|s0| + 1] == w[0];
    assert v[|s0| + 1..] == w;
    assert v[..|s0|] == s0;
  }

  /** The release alternative as a recogniser: the greedy release, then the tail scanner on
      the rest. */
  function ReleaseBody(v: seq<char>): (r: Option<(seq<seq<char>>, seq<Piece>)>)
    ensures r.Some? ==> ReleaseForm(v, r.value.0, r.value.1)
  {
    if |v| == 0 || !IsDigit(v[0]) then None
    else
      var sn := Segments(v, 3);
      SegmentsSpell(v, 3);
      match ParseTail(v[sn.1..], 0)
      case None => None
      case Some(ps) =>
        SplitAt(v, sn.1);
        Some((sn.0, ps))
  }

  /** A well-formed tail does not start with a digit, nor with a dot followed by a digit. */
  lemma {:induction false} TailAfterRelease(ps: seq<Piece>)
    requires WfTail(ps, 0)
    ensures var u := RenderAll(ps);
            |u| == 0 || (!IsDigit(u[0]) && (u[0] == '.' ==> |u| > 1 && !IsDigit(u[1])))
  {
    if |ps| > 0 {
      var u := RenderAll(ps);
      TailStart(ps, 0);
      if u[0] == '.' {
        if ps[0].Local? {
          LocalStart(ps);
          assert false;
        }
        var q := ps[0];
        KeywordLetters(q.word, q.kind);
        KeywordInitial(q.word, q.kind);
        TaggedFirst(ps);
        RenderConsLead(ps);
        assert |q.lead| == 1;
        assert u[1] == q.word[0];
      }
    }
  }

  /** The recogniser accepts exactly the bodies the release alternative matches. */
  lemma {:induction false} ReleaseBodyIff(v: seq<char>)
    ensures ReleaseBody(v).Some? <==> IsRelease(v)
  {
    if ReleaseBody(v).Some? {
      var r := ReleaseBody(v).value;
      assert ReleaseForm(v, r.0, r.1);
    }
    if IsRelease(v) {
      var segs: seq<seq<char>>, ps: seq<Piece> :| ReleaseForm(v, segs, ps);
      ReleaseBodyOf(segs, ps);
    }
  }

  /** A release spelled from its numbers and a well-formed tail is recognised with those
      numbers and that tail text. */
  lemma {:induction false} ReleaseBodyOf(segs: seq<seq<char>>, ps: seq<Piece>)
    requires IsFinal(segs) && WfTail(ps, 0)
    ensures var r := ReleaseBody(JoinDots(segs) + RenderAll(ps));
      r.Some? && r.value.0 == segs && RenderAll(r.value.1) == RenderAll(ps)
  {
    var u := RenderAll(ps);
    var v := JoinDots(segs) + u;
    TailAfterRelease(ps);
    SegmentsOf(segs, u, 3);
    JoinHead(segs);
    assert v[0] == JoinDots(segs)[0];
    assert v[|JoinDots(segs)|..] == u;
    ParseTailComplete(ps, 0);
    var r := ReleaseBody(v).value;
    assert v == JoinDots(segs) + RenderAll(r.1);
    Halves(JoinDots(segs), RenderAll(r.1));
  }

  /** What a release body is made of: it starts with a digit, and holds only letters, digits,
      separators and '+'. */
  lemma {:induction false} ReleaseChars(v: seq<char>)
    requires IsRelease(v)
    ensures |v| > 0 && IsDigit(v[0]) && AllTailChars(v)
  {
    var segs: seq<seq<char>>, ps: seq<Piece> :| ReleaseForm(v, segs, ps);
    JoinHead(segs);
    assert v[0] == JoinDots(segs)[0];
    forall i | 0 <= i < |segs|
      ensures AllTailChars(segs[i])
    {
      assert forall j | 0 <= j < |segs[i]| :: IsDigit(segs[i][j]);
    }
    JoinDotsChars(segs);
    TailChars(ps, 0);
    AllTailCharsConcat(JoinDots(segs), RenderAll(ps));
  }

  /** Joining parts made of tail characters with dots gives tail characters. */
  lemma {:induction false} JoinDotsChars(parts: seq<seq<char>>)
    requires forall i | 0 <= i < |parts| :: AllTailChars(parts[i])
    ensures AllTailChars(JoinDots(parts))
  {
    if |parts| > 1 {
      JoinDotsChars(parts[1..]);
      assert AllTailChars(".");
      AllTailCharsConcat(parts[0], ".");
      AllTailCharsConcat(parts[0] + ".", JoinDots(parts[1..]));
    }
  }

  // ---------------------------------------------------------------------------------------
  // The placeholder alternative.

  /** `\d+|x`, ignoring case. */
  predicate IsPlaceSegment(p: seq<char>) {
    IsDigits(p) || (|p| == 1 && Lower(p[0]) == 'x')
  }

  /** One to three placeholder segments. */
  predicate PlaceForm(segs: seq<seq<char>>) {
    1 <= |segs| <= 3 && forall i | 0 <= i < |segs| :: IsPlaceSegment(segs[i])
  }

  /** The placeholder alternative of the version group matches all of `v`. */
  ghost predicate IsPlaceholder(v: seq<char>) {
    exists segs: seq<seq<char>> :: PlaceForm(segs) && v == JoinDots(segs)
  }

  /** The placeholder alternative as a recogniser: cut at the dots and check every piece. */
  predicate PlaceholderBody(v: seq<char>) {
    PlaceForm(SplitDots(v))
  }

  lemma {:induction false} PlaceSegmentChars(p: seq<char>)
    requires IsPlaceSegment(p)
    ensures NoDot(p) && AllTailChars(p) && |p| > 0
    ensures IsDigit(p[0]) || Lower(p[0]) == 'x'
  {
  }

  /** The recogniser accepts exactly the bodies the placeholder alternative matches. */
  lemma {:induction false} PlaceholderBodyIff(v: seq<char>)
    ensures PlaceholderBody(v) <==> IsPlaceholder(v)
  {
    if PlaceholderBody(v) {
      JoinSplitDots(v);
      assert PlaceForm(SplitDots(v)) && v == JoinDots(SplitDots(v));
    }
    if IsPlaceholder(v) {
      var segs: seq<seq<char>> :| PlaceForm(segs) && v == JoinDots(segs);
      forall i | 0 <= i < |segs|
        ensures NoDot(segs[i])
      {
        PlaceSegmentChars(segs[i]);
      }
      SplitJoinDots(segs);
    }
  }

  /** What a placeholder body is made of: it starts with a digit or 'x', and holds only
      letters, digits and dots. */
  lemma {:induction false} PlaceholderChars(v: seq<char>)
    requires IsPlaceholder(v)
    ensures |v| > 0 && (IsDigit(v[0]) || Lower(v[0]) == 'x') && AllTailChars(v)
  {
    var segs: seq<seq<char>> :| PlaceForm(segs) && v == JoinDots(segs);
    forall i | 0 <= i < |segs|
      ensures AllTailChars(segs[i])
    {
      PlaceSegmentChars(segs[i]);
    }
    PlaceSegmentChars(segs[0]);
    JoinHead(segs);
    JoinDotsChars(segs);
  }

  /** A character a placeholder body can hold: a digit, a dot or an `x` of either case. */
  predicate IsPlaceChar(c: char) {
    IsDigit(c) || c == '.' || Lower(c) == 'x'
  }

  predicate AllPlaceChars(s: seq<char>) {
    forall i | 0 <= i < |s| :: IsPlaceChar(s[i])
  }

  lemma {:induction false} JoinPlaceChars(parts: seq<seq<char>>)
    requires forall i | 0 <= i < |parts| :: AllPlaceChars(parts[i])
    ensures AllPlaceChars(JoinDots(parts))
  {
    if |parts| > 1 {
      JoinPlaceChars(parts[1..]);
      var a, j := parts[0], JoinDots(parts[1..]);
      var s := a + "." + j;
      assert JoinDots(parts) == s;
      forall i | 0 <= i < |s|
        ensures IsPlaceChar(s[i])
      {
        if i < |a| {
          assert s[i] == a[i];
        } else if i > |a| {
          assert s[i] == j[i - |a| - 1];
        }
      }
    }
  }

  /** A non-empty well-formed tail starts with a character a piece can start with, and a
      leading dot is followed by the first letter of a keyword. */
  lemma {:induction false} TailHead(ps: seq<Piece>)
    requires WfTail(ps, 0) && |ps| > 0
    ensures var u := RenderAll(ps);
      |u| > 0 && CanStart(u[0], 0) && (u[0] == '.' ==> |u| > 1 && Lower(u[1]) in "abcdpr")
  {
    var u := RenderAll(ps);
    TailStart(ps, 0);
    if u[0] == '.' {
      if ps[0].Local? {
        LocalStart(ps);
        assert false;
      }
      var q := ps[0];
      KeywordInitial(q.word, q.kind);
      TaggedFirst(ps);
      RenderConsLead(ps);
      assert |q.lead| == 1;
      assert u[1] == q.word[0];
    }
  }

  /** A body with an `x` segment is no release: the release alternative would have to read
      the `x` in its tail, and no tail starts that way. */
  lemma {:induction false} WildcardNotRelease(segs: seq<seq<char>>, k: nat)
    requires PlaceForm(segs) && k < |segs| && !IsDigits(segs[k])
    ensures !IsRelease(JoinDots(segs))
  {
    var v := JoinDots(segs);
    if IsRelease(v) {
      var rsegs: seq<seq<char>>, tps: seq<Piece> :| ReleaseForm(v, rsegs, tps);
      if |tps| == 0 {
        SameSegments(segs, rsegs);
      } else {
        assert AllPlaceChars(v) by {
          forall i | 0 <= i < |segs|
            ensures AllPlaceChars(segs[i])
          {
            PlaceSegmentChars(segs[i]);
          }
          JoinPlaceChars(segs);
        }
        TailNotPlace(JoinDots(rsegs), tps);
      }
      assert false;
    }
  }

  /** Placeholder segments and release numbers that join to the same text are the same. */
  lemma {:induction false} SameSegments(segs: seq<seq<char>>, rsegs: seq<seq<char>>)
    requires PlaceForm(segs) && IsFinal(rsegs) && JoinDots(segs) == JoinDots(rsegs) + RenderAll([])
    ensures segs == rsegs
  {
    forall i | 0 <= i < |segs|
      ensures NoDot(segs[i])
    {
      PlaceSegmentChars(segs[i]);
    }
    forall i | 0 <= i < |rsegs|
      ensures NoDot(rsegs[i])
    {
      assert AllDigits(rsegs[i]);
    }
    assert JoinDots(rsegs) + RenderAll([]) == JoinDots(rsegs);
    SplitJoinDots(rsegs);
    SplitJoinDots(segs);
  }

  /** A release followed by a non-empty tail holds a character no placeholder holds. */
  lemma {:induction false} TailNotPlace(j: seq<char>, tps: seq<Piece>)
    requires WfTail(tps, 0) && |tps| > 0
    ensures !AllPlaceChars(j + RenderAll(tps))
  {
    var u := RenderAll(tps);
    TailHead(tps);
    Halves(j, u);
    PlaceStart(u[0]);
    if u[0] == '.' {
      PlaceKeyword(u[1]);
      assert !IsPlaceChar((j + u)[|j| + 1]);
    } else {
      assert !IsPlaceChar((j + u)[|j|]);
    }
  }

  lemma {:induction false} PlaceStart(c: char)
    ensures IsPlaceChar(c) && CanStart(c, 0) ==> c == '.'
  {
  }

  lemma {:induction false} PlaceKeyword(c: char)
    ensures Lower(c) in "abcdpr" ==> !IsPlaceChar(c)
  {
  }

  // ---------------------------------------------------------------------------------------
  // The groups of a match.

  /** The groups `__init__` reads from a match: `epoch` (the text `N!` or absent), `operator`,
      `version`, and `placeholder` (present only when the placeholder alternative matched). */
  datatype Groups = Groups(
    epoch: Option<seq<char>>,
    operator: seq<char>,
    version: seq<char>,
    placeholder: Option<seq<char>>)

  function OptText(o: Option<seq<char>>): seq<char> {
    if o.Some? then o.value else []
  }

  /** The text the three top-level groups span, in order. */
  function Spelled(g: Groups): seq<char> {
    OptText(g.epoch) + g.operator + g.version
  }

  /** `\d+!` */
  predicate IsEpochGroup(e: seq<char>) {
    |e| >= 2 && e[|e| - 1] == '!' && IsDigits(e[..|e| - 1])
  }

  /** `\^|~|\*|` */
  predicate IsOperator(op: seq<char>) {
    op == "" || op == "^" || op == "~" || op == "*"
  }

  /** The version group after operator `op`: empty after `*`; otherwise the release
      alternative when it matches, and else a placeholder, which only the empty operator
      allows. */
  ghost predicate LegalBody(op: seq<char>, version: seq<char>, placeholder: Option<seq<char>>) {
    if op == "*" then version == [] && placeholder.None?
    else if IsRelease(version) then placeholder.None?
    else op == "" && IsPlaceholder(version) && placeholder == Some(version)
  }

  /** The groups of a match of the whole pattern: an epoch is never followed by `*`. */
  ghost predicate Legal(g: Groups) {
    && (g.epoch.None? || IsEpochGroup(g.epoch.value))
    && IsOperator(g.operator)
    && LegalBody(g.operator, g.version, g.placeholder)
    && (g.operator == "*" ==> g.epoch.None?)
  }

  // ---------------------------------------------------------------------------------------
  // The recogniser.

  /** A character that makes the placeholder's look-behind `(?<!\^|~|\*)` fail. */
  predicate IsOperatorChar(before: Option<char>) {
    before.Some? && (before.value == '^' || before.value == '~' || before.value == '*')
  }

  /** `\d+!(?=\^|~|)(?!\*)` at the start of `c`: its length, or 0 when it does not match.
      The look-ahead `(?=\^|~|)` always holds, because of its empty alternative. */
  function EpochLen(c: seq<char>): (n: nat)
    ensures n <= |c|
  {
    var d := DigitRun(c);
    if 0 < d < |c| && c[d] == '!' && !(d + 1 < |c| && c[d + 1] == '*') then d + 1 else 0
  }

  /** The version group's alternatives in order, on the text `body` that must reach the end;
      `before` is the character just before `body`, which the look-behinds inspect. */
  function VersionGroup(body: seq<char>, before: Option<char>, epoch: Option<seq<char>>,
                        op: seq<char>): Option<Groups>
  {
    if before == Some('*') then
      if |body| == 0 then Some(Groups(epoch, op, [], None)) else None
    else if ReleaseBody(body).Some? then Some(Groups(epoch, op, body, None))
    else if IsOperatorChar(before) then None
    else if PlaceholderBody(body) then Some(Groups(epoch, op, body, Some(body)))
    else None
  }

  /** The operator group's alternatives in order, the empty one last. */
  function Operators(c: seq<char>, before: Option<char>, epoch: Option<seq<char>>): Option<Groups> {
    var glyph :=
      if |c| > 0 && (c[0] == '^' || c[0] == '~' || c[0] == '*')
      then VersionGroup(c[1..], Some(c[0]), epoch, c[..1])
      else None;
    if glyph.Some? then glyph else VersionGroup(c, before, epoch, [])
  }

  /** The pattern between the anchoring whitespace: with the epoch first, then without. */
  function MatchAt(c: seq<char>, before: Option<char>): Option<Groups> {
    var e := EpochLen(c);
    var withEpoch := if e > 0 then Operators(c[e..], Some(c[e - 1]), Some(c[..e])) else None;
    if withEpoch.Some? then withEpoch else Operators(c, before, None)
  }

  /** `_regex.search(s)`: the groups of the match, or `None` when the pattern does not match.
      The leading `\s*` takes all leading whitespace and the trailing `\s*$` all trailing
      whitespace, since no group can start or end with whitespace. */
  function Match(s: seq<char>): Option<Groups> {
    var lo := Lo(s);
    MatchAt(Strip(s), if lo > 0 then Some(s[lo - 1]) else None)
  }

  // ---------------------------------------------------------------------------------------
  // The recogniser returns exactly the legal groups.

  /** A version body after an operator other than `*` is not empty, starts with a digit or an
      'x', and holds no '!' nor operator glyph. */
  lemma {:induction false} BodyChars(op: seq<char>, v: seq<char>, ph: Option<seq<char>>)
    requires op != "*" && LegalBody(op, v, ph)
    ensures |v| > 0 && (IsDigit(v[0]) || Lower(v[0]) == 'x') && AllTailChars(v)
  {
    if IsRelease(v) {
      ReleaseChars(v);
    } else {
      PlaceholderChars(v);
    }
  }

  lemma {:induction false} VersionGroupIff(body: seq<char>, before: Option<char>, epoch: Option<seq<char>>,
                        op: seq<char>, g: Groups)
    requires IsOperator(op)
    requires op != "" ==> before == Some(op[0])
    requires op == "" ==> !IsOperatorChar(before)
    ensures VersionGroup(body, before, epoch, op) == Some(g) <==>
            g.epoch == epoch && g.operator == op && g.version == body
            && LegalBody(op, body, g.placeholder)
  {
    ReleaseBodyIff(body);
    PlaceholderBodyIff(body);
  }

  /** `c` is the operator and version groups of `g`, which carries the epoch group `epoch`. */
  ghost predicate Splits(c: seq<char>, epoch: Option<seq<char>>, g: Groups) {
    && g.epoch == epoch && IsOperator(g.operator) && c == g.operator + g.version
    && LegalBody(g.operator, g.version, g.placeholder)
  }

  lemma {:induction false} OperatorsSound(c: seq<char>, before: Option<char>, epoch: Option<seq<char>>)
    requires !IsOperatorChar(before) && Operators(c, before, epoch).Some?
    ensures Splits(c, epoch, Operators(c, before, epoch).value)
  {
    var g := Operators(c, before, epoch).value;
    if |c| > 0 && (c[0] == '^' || c[0] == '~' || c[0] == '*')
       && VersionGroup(c[1..], Some(c[0]), epoch, c[..1]).Some? {
      GlyphSound(c, epoch, g);
    } else {
      VersionGroupIff(c, before, epoch, [], g);
    }
  }

  lemma {:induction false} GlyphSound(c: seq<char>, epoch: Option<seq<char>>, g: Groups)
    requires |c| > 0 && (c[0] == '^' || c[0] == '~' || c[0] == '*')
    requires VersionGroup(c[1..], Some(c[0]), epoch, c[..1]) == Some(g)
    ensures Splits(c, epoch, g)
  {
    assert c[..1] == [c[0]];
    VersionGroupIff(c[1..], Some(c[0]), epoch, c[..1], g);
    SplitAt(c, 1);
  }

  lemma {:induction false} OperatorsComplete(c: seq<char>, before: Option<char>, g: Groups)
    requires !IsOperatorChar(before) && Splits(c, g.epoch, g)
    ensures Operators(c, before, g.epoch) == Some(g)
  {
    var op := g.operator;
    if op == "" {
      BodyChars(op, g.version, g.placeholder);
      assert c == g.version;
      VersionGroupIff(c, before, g.epoch, [], g);
    } else {
      assert c[0] == op[0] && c[..1] == op && c[1..] == g.version;
      VersionGroupIff(c[1..], Some(c[0]), g.epoch, op, g);
    }
  }

  /** What `EpochLen` finds is an epoch group, followed by anything but `*`. */
  lemma {:induction false} EpochLenFacts(c: seq<char>)
    requires EpochLen(c) > 0
    ensures var e := EpochLen(c);
            IsEpochGroup(c[..e]) && c[e - 1] == '!' && (e == |c| || c[e] != '*')
  {
    var d := DigitRun(c);
    assert c[..d + 1][..d] == c[..d];
  }

  /** `EpochLen` finds an epoch group followed by anything but `*`. */
  lemma {:induction false} EpochLenOf(e0: seq<char>, rest: seq<char>)
    requires IsEpochGroup(e0) && (|rest| == 0 || rest[0] != '*')
    ensures EpochLen(e0 + rest) == |e0|
  {
    var d := e0[..|e0| - 1];
    assert e0 + rest == d + ("!" + rest);
    DigitRunOver(d, "!" + rest);
    var c := e0 + rest;
    assert c[|d|] == '!';
    if |rest| > 0 {
      assert c[|d| + 1] == rest[0];
    }
  }

  /** Without an epoch group, `EpochLen` finds none. */
  lemma {:induction false} NoEpoch(op: seq<char>, v: seq<char>, ph: Option<seq<char>>)
    requires IsOperator(op) && LegalBody(op, v, ph)
    ensures EpochLen(op + v) == 0
  {
    var c := op + v;
    if op == "" {
      BodyChars(op, v, ph);
      assert c == v;
      var d := DigitRun(c);
      if 0 < d < |c| {
        assert IsTailChar(c[d]);
      }
    } else {
      assert c[0] == op[0];
    }
  }

  lemma {:induction false} MatchAtSound(c: seq<char>, before: Option<char>)
    requires !IsOperatorChar(before) && MatchAt(c, before).Some?
    ensures c == Spelled(MatchAt(c, before).value) && Legal(MatchAt(c, before).value)
  {
    var e := EpochLen(c);
    var g := MatchAt(c, before).value;
    if e > 0 && Operators(c[e..], Some(c[e - 1]), Some(c[..e])).Some? {
      assert Operators(c[e..], Some(c[e - 1]), Some(c[..e])) == Some(g);
      EpochSound(c, g);
    } else {
      assert Operators(c, before, None) == Some(g);
      OperatorsSound(c, before, None);
      PlainLegal(c, g);
    }
  }

  /** A match that takes the epoch group spells `c` and is legal. */
  lemma {:induction false} EpochSound(c: seq<char>, g: Groups)
    requires EpochLen(c) > 0
    requires var e := EpochLen(c); Operators(c[e..], Some(c[e - 1]), Some(c[..e])) == Some(g)
    ensures c == Spelled(g) && Legal(g)
  {
    var e := EpochLen(c);
    EpochLenFacts(c);
    OperatorsSound(c[e..], Some(c[e - 1]), Some(c[..e]));
    EpochLegal(c[..e], c[e..], g);
    SplitAt(c, e);
  }

  lemma {:induction false} EpochLegal(e0: seq<char>, rest: seq<char>, g: Groups)
    requires IsEpochGroup(e0) && (|rest| == 0 || rest[0] != '*')
    requires Splits(rest, Some(e0), g)
    ensures e0 + rest == Spelled(g) && Legal(g)
  {
  }

  lemma {:induction false} PlainLegal(c: seq<char>, g: Groups)
    requires Splits(c, None, g)
    ensures c == Spelled(g) && Legal(g)
  {
  }

  lemma {:induction false} MatchAtComplete(c: seq<char>, before: Option<char>, g: Groups)
    requires !IsOperatorChar(before) && c == Spelled(g) && Legal(g)
    ensures MatchAt(c, before) == Some(g)
  {
    if g.epoch.Some? {
      EpochComplete(c, g);
      var e := EpochLen(c);
      OperatorsComplete(c[e..], Some(c[e - 1]), g);
    } else {
      assert Splits(c, None, g);
      NoEpoch(g.operator, g.version, g.placeholder);
      OperatorsComplete(c, before, g);
    }
  }

  /** A legal match with an epoch group is found on the path that takes the epoch. */
  lemma {:induction false} EpochComplete(c: seq<char>, g: Groups)
    requires c == Spelled(g) && Legal(g) && g.epoch.Some?
    ensures var e := EpochLen(c);
            && e == |g.epoch.value| > 0 && c[..e] == g.epoch.value && c[e - 1] == '!'
            && Splits(c[e..], g.epoch, g)
  {
    var rest := g.operator + g.version;
    var e0 := g.epoch.value;
    assert |rest| == 0 || rest[0] != '*' by {
      if g.operator == "" {
        BodyChars(g.operator, g.version, g.placeholder);
        assert rest[0] == g.version[0];
      }
    }
    assert c == e0 + rest by {
      Assoc(e0, g.operator, g.version);
    }
    assert EpochLen(c) == |e0| by {
      EpochLenOf(e0, rest);
    }
    assert c[..|e0|] == e0 && c[|e0|..] == rest && c[|e0| - 1] == '!' by {
      Halves(e0, rest);
    }
  }

  /** The recogniser returns exactly the groups of a legal match of the stripped text. */
  lemma {:induction false} MatchIff(s: seq<char>, g: Groups)
    ensures Match(s) == Some(g) <==> Strip(s) == Spelled(g) && Legal(g)
  {
    var lo := Lo(s);
    var before := if lo > 0 then Some(s[lo - 1]) else None;
    assert lo > 0 ==> IsSpace(s[lo - 1]);
    if Match(s) == Some(g) {
      MatchAtSound(Strip(s), before);
    }
    if Strip(s) == Spelled(g) && Legal(g) {
      MatchAtComplete(Strip(s), before, g);
    }
  }

  /** Every character of a legal match is a tail character (digits and letters among them),
      the '!' of the epoch or an operator glyph; a `*` only comes from the operator group. */
  lemma {:induction false} SpelledChars(g: Groups, i: nat)
    requires Legal(g) && i < |Spelled(g)|
    ensures var c := Spelled(g)[i];
      IsTailChar(c) || c == '!' || c == '^' || c == '~' || c == '*'
    ensures Spelled(g)[i] == '*' ==> g.operator == "*"
  {
    var e := OptText(g.epoch);
    var t := Spelled(g);
    if i < |e| {
      assert t[i] == e[i];
      if i < |e| - 1 {
        assert e[..|e| - 1][i] == e[i];
        assert IsDigit(e[i]);
      }
    } else if i < |e| + |g.operator| {
      assert t[i] == g.operator[i - |e|];
    } else {
      assert g.operator != "*";
      BodyChars(g.operator, g.version, g.placeholder);
      assert t[i] == g.version[i - |e| - |g.operator|];
      assert IsTailChar(g.version[i - |e| - |g.operator|]);
    }
  }

  /** The text of a legal match holds no whitespace, so stripping leaves it as it is. */
  lemma {:induction false} LegalUnpadded(g: Groups)
    requires Legal(g)
    ensures Strip(Spelled(g)) == Spelled(g)
  {
    var t := Spelled(g);
    forall i | 0 <= i < |t|
      ensures !IsSpace(t[i])
    {
      SpelledChars(g, i);
    }
    StripNoSpace(t);
  }
}

/** The version selectors a semver specifier stands for: any version (`*`), a placeholder such
    as `1.x` or `1!x.2.3`, or a `packaging` version with a mode (`^`, `~` or none).  Each
    selector renders itself (`__str__`), reports the specifier pair it corresponds to (`spec`),
    folds itself into a canonical selector (`canonical`) and compares itself with others
    (`__eq__`). */
module Selectors {
  import opened Results
  import opened Text
  import opened Pep440

  /** One dot-separated part of a placeholder: a number, or the wildcard `x`. */
  datatype Part = Num(n: nat) | X

  /** `PackagingVersionSelector.Mode`; its value is the operator glyph. */
  datatype Mode = Minor | Patch | MaybeExact

  datatype Selector =
    | Any
    | Placeholder(epoch: Option<nat>, parts: seq<Part>)
    | Packaging(mode: Mode, version: Version)

  /** What the constructors and `canonical` can raise. */
  datatype Error =
    | InvalidSpecifier    // `packaging.specifiers.InvalidSpecifier`: the pattern does not match
    | ValueError          // `int()` on a placeholder part, or `Mode(...)` on an unknown value
    | InvalidVersion      // `packaging.version.InvalidVersion`
    | AssertionError      // a failing `assert` statement

  /** `_format_epoch`: nothing for a missing or zero epoch, else the number and '!'. */
  function FormatEpoch(e: Option<nat>): seq<char> {
    if e == None || e == Some(0) then [] else NatText(e.value) + "!"
  }

  /** The epoch of the version `Version(f"{_format_epoch(e)}...")` reads. */
  function EpochValue(e: Option<nat>): nat {
    if e.Some? then e.value else 0
  }

  /** `Mode.value`. */
  function Glyph(m: Mode): seq<char> {
    match m
    case Minor => "^"
    case Patch => "~"
    case MaybeExact => ""
  }

  /** `Mode(op)`: the mode whose value is `op`; `None` where `Mode` raises. */
  function ModeOf(op: seq<char>): Option<Mode> {
    if op == "^" then Some(Minor)
    else if op == "~" then Some(Patch)
    else if op == "" then Some(MaybeExact)
    else None
  }

  /** `str(part)` of a placeholder part. */
  function PartText(p: Part): (r: seq<char>)
    ensures |r| > 0 && NoDot(r)
  {
    match p
    case X => "x"
    case Num(n) =>
      assert AllDigits(NatText(n));
      NatText(n)
  }

  function PartTexts(ps: seq<Part>): (r: seq<seq<char>>)
    ensures |r| == |ps| && forall i | 0 <= i < |ps| :: r[i] == PartText(ps[i])
  {
    seq(|ps|, i requires 0 <= i < |ps| => PartText(ps[i]))
  }

  /** `__str__` of each selector. */
  function Str(o: Oracle, sel: Selector): seq<char> {
    match sel
    case Any => "*"
    case Placeholder(e, ps) => FormatEpoch(e) + JoinDots(PartTexts(ps))
    case Packaging(m, v) =>
      FormatEpoch(Some(v.epoch)) + Glyph(m) + VersionText(o, ReplaceFields(v, Some(0), None))
  }

  /** The `spec` property: the operator and the version text of the specifier the selector
      corresponds to. */
  function Spec(o: Oracle, sel: Selector): (seq<char>, seq<char>) {
    match sel
    case Any => ("*", "")
    case Placeholder(_, _) => ("", Str(o, sel))
    case Packaging(m, v) => (Glyph(m), VersionText(o, v))
  }

  /** The `canonical` property: `x` means any version, `N`, `N.x` and `N.x.x` mean `^N.0.0`,
      `N.M` and `N.M.x` mean `~N.M.0`; everything else keeps its shape, with the version of a
      packaging selector canonicalised. */
  function Canonical(o: Oracle, sel: Selector): Result<Selector, Error> {
    match sel
    case Any => Ok(Any)
    case Placeholder(e, ps) =>
      if ps == [X] then Ok(Any)
      else if (|ps| == 2 && ps[1] == X) || (|ps| == 3 && ps[1..] == [X, X]) then
        match ps[0]
        case X => Err(InvalidVersion)
        case Num(n) => Ok(Packaging(Minor, Version(EpochValue(e), [n, 0, 0], [])))
      else if |ps| == 3 && ps[1] != X && ps[2] == X then
        match ps[0]
        case X => Err(InvalidVersion)
        case Num(n) => Ok(Packaging(Patch, Version(EpochValue(e), [n, ps[1].n, 0], [])))
      else Ok(sel)
    case Packaging(m, v) =>
      if m == MaybeExact && |v.release| == 1 then
        Ok(Packaging(Minor, ReplaceFields(v, None, Some(v.release + [0, 0]))))
      else if m == MaybeExact && |SplitDots(Public(o, v))| == 2 then
        Ok(Packaging(Patch, ReplaceFields(v, None, Some(v.release + [0]))))
      else Ok(Packaging(m, o.canonicalize(v)))
  }

  /** `__eq__`: selectors of different kinds differ; placeholders compare epoch and parts
      (a missing epoch differs from epoch 0); packaging selectors compare the mode and the
      version, where the tuple comparison accepts the very same version before asking
      `Version.__eq__`. */
  predicate Same(o: Oracle, a: Selector, b: Selector) {
    match a
    case Any => b.Any?
    case Placeholder(e, ps) => b.Placeholder? && b.epoch == e && b.parts == ps
    case Packaging(m, v) =>
      b.Packaging? && b.mode == m && (b.version == v || o.equal(v, b.version))
  }

  // ---------------------------------------------------------------------------------------
  // Properties

  /** The epoch prefix is empty exactly for a missing or zero epoch, and otherwise it is a
      digit string and '!' that reads back as the epoch; it agrees with the version text's
      epoch. */
  lemma {:induction false} FormatEpochReads(e: Option<nat>)
    ensures FormatEpoch(e) == [] <==> e == None || e == Some(0)
    ensures FormatEpoch(e) != [] ==>
      var t := FormatEpoch(e);
      |t| >= 2 && t[|t| - 1] == '!' && IsDigits(t[..|t| - 1]) && Value(t[..|t| - 1]) == e.value
    ensures FormatEpoch(e) == EpochText(EpochValue(e))
  {
    if e.Some? && e.value != 0 {
      var d := NatText(e.value);
      assert (d + "!")[..|d|] == d;
      ValueOfNatText(e.value);
    }
  }

  /** `Mode(op)` succeeds exactly on the three glyphs, and `Mode(m.value) == m`. */
  lemma {:induction false} ModeGlyph(op: seq<char>, m: Mode)
    ensures ModeOf(op) == Some(m) <==> Glyph(m) == op
    ensures ModeOf(op).None? <==> op != "^" && op != "~" && op != ""
  {
  }

  /** `__str__` and `spec` carry the same text: for `*` and placeholders the spec pair joins
      into the string; for packaging selectors the string moves the epoch in front of the
      operator, which the spec pair keeps at the head of its version text. */
  lemma {:induction false} SpecStr(o: Oracle, sel: Selector)
    ensures !sel.Packaging? ==> Spec(o, sel).0 + Spec(o, sel).1 == Str(o, sel)
    ensures sel.Packaging? ==>
      var p := FormatEpoch(Some(sel.version.epoch));
      var sp := Spec(o, sel);
      |p| <= |sp.1| && sp.1[..|p|] == p && Str(o, sel) == p + sp.0 + sp.1[|p|..]
    ensures sel.Packaging? && sel.version.epoch == 0 ==>
      Spec(o, sel).0 + Spec(o, sel).1 == Str(o, sel)
  {
    if sel.Packaging? {
      var v := sel.version;
      var p := FormatEpoch(Some(v.epoch));
      var w := VersionText(o, ReplaceFields(v, Some(0), None));
      ZeroEpochText(o, v);
      FormatEpochReads(Some(v.epoch));
      assert VersionText(o, v) == p + w;
      Halves(p, w);
    }
  }

  /** The text `Version(...)` reads in `canonical` spells the version `Canonical` builds:
      `f"{epoch}{n}.0.0"` and `f"{epoch}{n}.{m}.0"`. */
  lemma {:induction false} CanonicalVersionText(o: Oracle, e: Option<nat>, ns: seq<nat>)
    requires |ns| == 3
    ensures VersionText(o, Version(EpochValue(e), ns, []))
         == FormatEpoch(e) + NatText(ns[0]) + "." + NatText(ns[1]) + "." + NatText(ns[2])
  {
    var v := Version(EpochValue(e), ns, []);
    var p := FormatEpoch(e);
    var t := NumbersText(ns);
    var a, b, c := NatText(ns[0]), NatText(ns[1]), NatText(ns[2]);
    assert VersionText(o, v) == p + JoinDots(t) by {
      FormatEpochReads(e);
    }
    assert JoinDots(t) == a + "." + b + "." + c by {
      assert t[1..][1..] == [c];
      assert JoinDots(t[1..]) == b + "." + c;
    }
  }

  /** `canonical` fails exactly on the placeholders `x.x`, `x.x.x` and `x.N.x` (among those of
      at most three parts): a leading `x` that the folding would put into a version. */
  lemma {:induction false} CanonicalFails(o: Oracle, sel: Selector)
    requires sel.Placeholder? ==> |sel.parts| <= 3
    ensures Canonical(o, sel).Err? <==>
      sel.Placeholder? && |sel.parts| >= 2 && sel.parts[0] == X && sel.parts[|sel.parts| - 1] == X
  {
    if sel.Placeholder? && |sel.parts| == 3 {
      assert sel.parts[1..] == [sel.parts[1], sel.parts[2]];
    }
  }

  /** The three spellings of a minor range fold to the same canonical selector: `N.x`,
      `N.x.x` and the bare `N` all mean `^N.0.0`. */
  lemma {:induction false} MinorFolding(o: Oracle, e: Option<nat>, n: nat)
    ensures Canonical(o, Placeholder(e, [Num(n), X]))
         == Canonical(o, Placeholder(e, [Num(n), X, X]))
         == Canonical(o, Packaging(MaybeExact, Version(EpochValue(e), [n], [])))
         == Ok(Packaging(Minor, Version(EpochValue(e), [n, 0, 0], [])))
  {
    assert [Num(n), X, X][1..] == [X, X];
    assert [n] + [0, 0] == [n, 0, 0];
  }

  /** The two spellings of a patch range fold to the same canonical selector: `N.M.x` and
      the bare `N.M` both mean `~N.M.0`. */
  lemma {:induction false} PatchFolding(o: Oracle, e: Option<nat>, n: nat, m: nat)
    ensures Canonical(o, Placeholder(e, [Num(n), Num(m), X]))
         == Canonical(o, Packaging(MaybeExact, Version(EpochValue(e), [n, m], [])))
         == Ok(Packaging(Patch, Version(EpochValue(e), [n, m, 0], [])))
  {
    var v := Version(EpochValue(e), [n, m], []);
    assert [Num(n), Num(m), X][1..] == [Num(m), X];
    assert [n, m] + [0] == [n, m, 0];
    PublicPieces(o, v);
  }

  /** The public text of a version without pre/post/dev/local parts splits at its dots into
      as many pieces as the release has numbers, whatever its epoch. */
  lemma {:induction false} PublicPieces(o: Oracle, v: Version)
    requires |v.release| >= 1 && v.suffix == []
    ensures |SplitDots(Public(o, v))| == |v.release|
  {
    PlainPublic(o, v);
    var p := EpochText(v.epoch);
    var t := NumbersText(v.release);
    var parts := [p + t[0]] + t[1..];
    assert VersionText(o, v) == p + JoinDots(t);
    JoinPrefix(p, t);
    forall i | 0 <= i < |parts|
      ensures NoDot(parts[i])
    {
      if i == 0 {
        FormatEpochReads(Some(v.epoch));
        DigitsNoDot(t[0]);
        EpochNoDot(p, t[0]);
      } else {
        assert parts[i] == t[i];
        DigitsNoDot(t[i]);
      }
    }
    SplitJoinDots(parts);
  }

  lemma {:induction false} DigitsNoDot(d: seq<char>)
    requires AllDigits(d)
    ensures NoDot(d)
  {
    assert forall k | 0 <= k < |d| :: IsDigit(d[k]);
  }

  lemma {:induction false} EpochNoDot(p: seq<char>, d: seq<char>)
    requires p == [] || (p[|p| - 1] == '!' && AllDigits(p[..|p| - 1]))
    requires NoDot(d)
    ensures NoDot(p + d)
  {
    var s := p + d;
    forall k | 0 <= k < |s|
      ensures s[k] != '.'
    {
      if k < |p| - 1 {
        assert s[k] == p[..|p| - 1][k];
      } else if k >= |p| {
        assert s[k] == d[k - |p|];
      }
    }
  }

  /** `Version(canonicalize_version(v)) == v`, as `packaging` promises: canonicalising
      only changes how a version is written. */
  ghost predicate CanonicalizeKeepsValue(o: Oracle) {
    forall v :: o.equal(o.canonicalize(v), v)
  }

  /** The release `canonicalize_version` writes: trailing zeros dropped, one number kept. */
  function TrimZeros(rel: seq<nat>): (t: seq<nat>)
    decreases |rel|
  {
    if |rel| > 1 && rel[|rel| - 1] == 0 then TrimZeros(rel[..|rel| - 1]) else rel
  }

  /** Trimming keeps a non-empty prefix of the release and drops only zeros. */
  lemma {:induction false} TrimZerosFacts(rel: seq<nat>)
    requires |rel| >= 1
    ensures var t := TrimZeros(rel);
      1 <= |t| <= |rel| && rel[..|t|] == t && forall i | |t| <= i < |rel| :: rel[i] == 0
    decreases |rel|
  {
    if |rel| > 1 && rel[|rel| - 1] == 0 {
      var p := rel[..|rel| - 1];
      TrimZerosFacts(p);
      var t := TrimZeros(p);
      assert rel[..|t|] == p[..|t|];
      forall i | |t| <= i < |rel|
        ensures rel[i] == 0
      {
        if i < |rel| - 1 {
          assert rel[i] == p[i];
        }
      }
    }
  }

  /** `canonicalize_version` of a version without pre/post/dev/local part, as `packaging`
      computes it: the same version with the trailing zeros of its release dropped. */
  ghost predicate CanonicalizeStripsZeros(o: Oracle) {
    forall v: Version | v.suffix == [] :: o.canonicalize(v) == v.(release := TrimZeros(v.release))
  }

  /** With that `canonicalize_version`, `canonical` turns the exact version `1.0.0` into the
      exact version `1`, whose own canonical form is the range `^1.0.0`: the exact selector
      widens to a range once its canonical spec is read again. */
  lemma {:induction false} ExactTrailingZerosWiden(o: Oracle)
    requires CanonicalizeStripsZeros(o)
    ensures Canonical(o, Packaging(MaybeExact, Version(0, [1, 0, 0], [])))
         == Ok(Packaging(MaybeExact, Version(0, [1], [])))
    ensures Canonical(o, Packaging(MaybeExact, Version(0, [1], [])))
         == Ok(Packaging(Minor, Version(0, [1, 0, 0], [])))
  {
    var v := Version(0, [1, 0, 0], []);
    assert [1, 0, 0][..2] == [1, 0] && [1, 0][..1] == [1];
    assert TrimZeros([1, 0, 0]) == [1];
    PublicPieces(o, v);
    assert [1] + [0, 0] == [1, 0, 0];
  }

  /** The release `w` padded with zeros back to `n` numbers. */
  function PadRelease(w: Version, n: nat): (r: Version)
    ensures r.epoch == w.epoch && r.suffix == w.suffix
    ensures |r.release| == if |w.release| >= n then |w.release| else n
    ensures r.release[..|w.release|] == w.release
    ensures forall i | |w.release| <= i < |r.release| :: r.release[i] == 0
  {
    if |w.release| >= n then w else w.(release := w.release + seq(n - |w.release|, _ => 0))
  }

  /** `canonical` with the exact-version branch corrected: the canonicalised version of a bare
      version gets back the zeros `canonicalize_version` dropped, so it stays the same exact
      version rather than one that reads as a range. */
  function CanonicalExact(o: Oracle, sel: Selector): Result<Selector, Error> {
    var r := Canonical(o, sel);
    if sel.Packaging? && sel.mode == MaybeExact && r.Ok? && r.value.Packaging? && r.value.mode == MaybeExact then
      Ok(Packaging(MaybeExact, PadRelease(r.value.version, |sel.version.release|)))
    else r
  }

  /** The corrected branch only touches bare versions: every other selector is canonicalised
      as before. */
  lemma {:induction false} CanonicalExactElsewhere(o: Oracle, sel: Selector)
    requires !(sel.Packaging? && sel.mode == MaybeExact)
    ensures CanonicalExact(o, sel) == Canonical(o, sel)
  {
  }

  /** The corrected branch keeps every bare version of three or more numbers as it is, so
      its canonical spec means the same exact version. */
  lemma {:induction false} CanonicalExactKeeps(o: Oracle, v: Version)
    requires CanonicalizeStripsZeros(o) && |v.release| >= 3 && v.suffix == []
    ensures CanonicalExact(o, Packaging(MaybeExact, v)) == Ok(Packaging(MaybeExact, v))
  {
    PublicPieces(o, v);
    assert o.canonicalize(v) == v.(release := TrimZeros(v.release));
    PadRestores(v);
  }

  /** Padding a trimmed release back to its length gives the version back. */
  lemma {:induction false} PadRestores(v: Version)
    requires |v.release| >= 1
    ensures PadRelease(v.(release := TrimZeros(v.release)), |v.release|) == v
  {
    TrimZerosFacts(v.release);
    var r := PadRelease(v.(release := TrimZeros(v.release)), |v.release|);
    assert r.release == v.release;
  }

  /** A canonical selector is canonical again, up to `__eq__`, unless it is a bare version:
      `*` and the placeholders `canonical` keeps are fixed points, and `^`/`~` selectors
      keep their mode and only have their version canonicalised once more. */
  lemma {:induction false} CanonicalStable(o: Oracle, sel: Selector)
    requires CanonicalizeKeepsValue(o)
    requires Canonical(o, sel).Ok?
    ensures var c := Canonical(o, sel).value;
      (c.Packaging? && c.mode == MaybeExact)
      || (Canonical(o, c).Ok? && Same(o, Canonical(o, c).value, c))
    ensures var c := Canonical(o, sel).value; !c.Packaging? ==> Canonical(o, c) == Ok(c)
  {
    var c := Canonical(o, sel).value;
    match c
    case Any =>
    case Placeholder(e, ps) =>
      assert sel == c;
      if |ps| == 3 {
        assert ps[1..] == [ps[1], ps[2]];
      }
    case Packaging(m, v) =>
      if m != MaybeExact {
        assert o.equal(o.canonicalize(v), v);
      }
  }

  /** A bare version is not always canonical again: when canonicalising drops the zeros of a
      three-number release, as `canonicalize_version("1.0.0") == "1"` does, the canonical
      selector is a bare one-number version, whose own canonical form is a `^` range. */
  lemma {:induction false} BareVersionRecanonical(o: Oracle, v: Version)
    requires |v.release| == 3 && v.suffix == [] && |o.canonicalize(v).release| == 1
    ensures Canonical(o, Packaging(MaybeExact, v)) == Ok(Packaging(MaybeExact, o.canonicalize(v)))
    ensures var w := o.canonicalize(v);
      Canonical(o, Packaging(MaybeExact, w))
      == Ok(Packaging(Minor, ReplaceFields(w, None, Some(w.release + [0, 0]))))
  {
    PublicPieces(o, v);
  }

  /** `canonical` of a bare version with one number, or with two numbers and a public text of
      two pieces, keeps its epoch and its pre/post/dev/local part, and pads its release with
      zeros to three numbers. */
  lemma {:induction false} ShortReleasePadding(o: Oracle, v: Version)
    requires |v.release| == 1 || (|v.release| == 2 && |SplitDots(Public(o, v))| == 2)
    ensures Canonical(o, Packaging(MaybeExact, v)).Ok?
    ensures var c := Canonical(o, Packaging(MaybeExact, v)).value;
      && c.Packaging? && c.mode == (if |v.release| == 1 then Minor else Patch)
      && c.version.epoch == v.epoch && c.version.suffix == v.suffix
      && |c.version.release| == 3 && c.version.release[..|v.release|] == v.release
      && forall i | |v.release| <= i < 3 :: c.version.release[i] == 0
  {
  }

  /** Equality is reflexive and tells the kinds apart; for placeholders it is structural, so
      a missing epoch and epoch 0 differ although they print the same. */
  lemma {:induction false} SameFacts(o: Oracle, a: Selector, b: Selector)
    ensures Same(o, a, a)
    ensures Same(o, a, b) ==> a.Any? == b.Any? && a.Placeholder? == b.Placeholder?
    ensures a.Placeholder? ==> (Same(o, a, b) <==> a == b)
    ensures a.Any? ==> (Same(o, a, b) <==> b == Any)
  {
  }

  /** `Placeholder(None, ps)` and `Placeholder(0, ps)` print alike but are not equal. */
  lemma {:induction false} ZeroEpochDistinct(o: Oracle, ps: seq<Part>)
    ensures Str(o, Placeholder(None, ps)) == Str(o, Placeholder(Some(0), ps))
    ensures !Same(o, Placeholder(None, ps), Placeholder(Some(0), ps))
  {
  }

  /** Equality is symmetric when `Version.__eq__` is. */
  lemma {:induction false} SameSymmetric(o: Oracle, a: Selector, b: Selector)
    requires forall v, w :: o.equal(v, w) ==> o.equal(w, v)
    ensures Same(o, a, b) ==> Same(o, b, a)
  {
  }

  /** Equality is transitive when `Version.__eq__` is, and so, with `SameFacts` and
      `SameSymmetric`, an equivalence. */
  lemma {:induction false} SameTransitive(o: Oracle, a: Selector, b: Selector, c: Selector)
    requires forall u, v, w :: o.equal(u, v) && o.equal(v, w) ==> o.equal(u, w)
    requires Same(o, a, b) && Same(o, b, c)
    ensures Same(o, a, c)
  {
    if a.Packaging? {
      var u, v, w := a.version, b.version, c.version;
      if v != u && w != v {
        assert o.equal(u, v) && o.equal(v, w);
      }
    }
  }
}

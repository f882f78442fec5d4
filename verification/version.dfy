/** The PEP 440 version objects of the `packaging` library, as far as the specifier code relies
    on them.  A version is a record of its epoch, its release numbers and the text of its
    pre-release, post-release, development and local parts; how `packaging` normalises and
    compares those parts is not modelled, and an `Oracle` stands for it. */
module Pep440 {
  import opened Results
  import opened Text

  /** `packaging.version.Version`: epoch, release numbers, and the pre/post/dev/local parts as
      written (empty when there are none). */
  datatype Version = Version(epoch: nat, release: seq<nat>, suffix: seq<char>)

  /** The behaviour of `packaging` this model leaves uninterpreted:
      - `suffixText`: how `str(Version)` spells a non-empty pre/post/dev/local part;
      - `canonicalize`: `Version(canonicalize_version(v))`;
      - `equal`: `Version.__eq__`. */
  datatype Oracle = Oracle(
    suffixText: seq<char> -> seq<char>,
    canonicalize: Version -> Version,
    equal: (Version, Version) -> bool)

  /** How `str(Version)` spells the epoch: nothing for 0, else the number and '!'. */
  function EpochText(e: nat): seq<char> {
    if e == 0 then [] else NatText(e) + "!"
  }

  /** The decimal spelling of each number. */
  function NumbersText(ns: seq<nat>): (r: seq<seq<char>>)
    ensures |r| == |ns| && forall i | 0 <= i < |ns| :: r[i] == NatText(ns[i])
  {
    seq(|ns|, i requires 0 <= i < |ns| => NatText(ns[i]))
  }

  /** `int(...)` of each digit string. */
  function Values(ts: seq<seq<char>>): (r: seq<nat>)
    requires forall i | 0 <= i < |ts| :: AllDigits(ts[i])
    ensures |r| == |ts| && forall i | 0 <= i < |ts| :: r[i] == Value(ts[i])
  {
    seq(|ts|, i requires 0 <= i < |ts| => Value(ts[i]))
  }

  /** Reading back the spelling of release numbers gives the numbers. */
  lemma ValuesOfNumbers(ns: seq<nat>)
    ensures forall i | 0 <= i < |ns| :: AllDigits(NumbersText(ns)[i])
    ensures Values(NumbersText(ns)) == ns
  {
    forall i | 0 <= i < |ns|
      ensures Value(NatText(ns[i])) == ns[i]
    {
      ValueOfNatText(ns[i]);
    }
  }

  /** `str(Version)`: the epoch, the release numbers joined by dots, then the other parts. */
  function VersionText(o: Oracle, v: Version): seq<char> {
    EpochText(v.epoch) + JoinDots(NumbersText(v.release))
    + (if v.suffix == [] then [] else o.suffixText(v.suffix))
  }

  /** The text before the first '+' of `s`, all of `s` when there is none. */
  function BeforePlus(s: seq<char>): (r: seq<char>)
    ensures |r| <= |s| && r == s[..|r|]
    ensures forall i | 0 <= i < |r| :: r[i] != '+'
    ensures |r| < |s| ==> s[|r|] == '+'
  {
    if |s| == 0 || s[0] == '+' then []
    else
      var r := BeforePlus(s[1..]);
      assert [s[0]] + r == s[..|r| + 1];
      [s[0]] + r
  }

  /** `Version.public`: the version text without its local part. */
  function Public(o: Oracle, v: Version): seq<char> {
    BeforePlus(VersionText(o, v))
  }

  /** `version_replace_fields(v, epoch=..., release=...)`: the version with the given fields
      replaced and every other field kept.  `packaging` re-reads the new version's text, which
      spells the same version again. */
  function ReplaceFields(v: Version, epoch: Option<nat>, release: Option<seq<nat>>): (r: Version)
    ensures r.suffix == v.suffix
    ensures epoch.None? ==> r.epoch == v.epoch
    ensures release.None? ==> r.release == v.release
    ensures epoch.Some? ==> r.epoch == epoch.value
    ensures release.Some? ==> r.release == release.value
  {
    v.(epoch := if epoch.Some? then epoch.value else v.epoch,
       release := if release.Some? then release.value else v.release)
  }

  /** Replacing the epoch by 0 removes exactly the epoch's spelling from the version text. */
  lemma ZeroEpochText(o: Oracle, v: Version)
    ensures VersionText(o, v) == EpochText(v.epoch) + VersionText(o, ReplaceFields(v, Some(0), None))
  {
    var w := ReplaceFields(v, Some(0), None);
    assert w.release == v.release && w.suffix == v.suffix && EpochText(w.epoch) == [];
  }

  /** A version without pre/post/dev/local parts has its whole text as public text. */
  lemma PlainPublic(o: Oracle, v: Version)
    requires v.suffix == []
    ensures Public(o, v) == VersionText(o, v)
  {
    PlainChars(o, v);
  }

  /** The text of a version without pre/post/dev/local parts is made of digits, dots and
      the '!' of its epoch. */
  lemma PlainChars(o: Oracle, v: Version)
    requires v.suffix == []
    ensures var t := VersionText(o, v);
      forall i | 0 <= i < |t| :: IsDigit(t[i]) || t[i] == '.' || t[i] == '!'
  {
    var a, b := EpochText(v.epoch), JoinDots(NumbersText(v.release));
    EpochChars(v.epoch);
    JoinChars(NumbersText(v.release));
    assert VersionText(o, v) == a + b;
  }

  lemma EpochChars(e: nat)
    ensures forall i | 0 <= i < |EpochText(e)| :: IsDigit(EpochText(e)[i]) || EpochText(e)[i] == '!'
  {
    if e != 0 {
      var d := NatText(e);
      assert forall i | 0 <= i < |d| :: IsDigit(d[i]);
    }
  }

  lemma {:induction false} JoinChars(parts: seq<seq<char>>)
    requires forall i | 0 <= i < |parts| :: IsDigits(parts[i])
    ensures forall i | 0 <= i < |JoinDots(parts)| :: IsDigit(JoinDots(parts)[i]) || JoinDots(parts)[i] == '.'
  {
    if |parts| == 1 {
      assert JoinDots(parts) == parts[0];
    } else if |parts| > 1 {
      JoinChars(parts[1..]);
      var a := parts[0];
      var j := JoinDots(parts[1..]);
      var s := a + "." + j;
      assert JoinDots(parts) == s;
      forall i | 0 <= i < |s|
        ensures IsDigit(s[i]) || s[i] == '.'
      {
        if i < |a| {
          assert s[i] == a[i];
        } else if i > |a| {
          assert s[i] == j[i - |a| - 1];
        }
      }
    }
  }
}

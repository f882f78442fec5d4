/** The pre-release, post-release, development-release and local-version parts that may follow
    the numeric release of a specifier body: the `remainder` group of the specifier pattern,

      pre    [-_\.]?(a|b|c|rc|alpha|beta|pre|preview)[-_\.]?[0-9]*
      post   -[0-9]+  |  [-_\.]?(post|rev|r)[-_\.]?[0-9]*
      dev    [-_\.]?dev[-_\.]?[0-9]*
      local  \+[a-z0-9]+([-_\.][a-z0-9]+)*

    each optional, in this order, matched ignoring case.  A tail is described twice: as a list
    of `Piece`s (one per optional group the pattern matched) that `RenderAll` spells out, and by
    the deterministic scanner `ParseTail`.  The two agree: the scanner returns pieces that spell
    its input, and it accepts the spelling of every well-formed list of pieces. */
module Suffix {
  import opened Results
  import opened Text

  /** The three parts introduced by a keyword. */
  datatype Kind = PreRelease | PostRelease | DevRelease

  /** The keyword alternatives of each part, as the pattern lists them. */
  function Keywords(k: Kind): seq<seq<char>> {
    match k
    case PreRelease => ["a", "b", "c", "rc", "alpha", "beta", "pre", "preview"]
    case PostRelease => ["post", "rev", "r"]
    case DevRelease => ["dev"]
  }

  /** One optional group of the tail, holding the text each sub-pattern matched. */
  datatype Piece =
    | Tagged(kind: Kind, lead: seq<char>, word: seq<char>, gap: seq<char>, num: seq<char>)
    | DashPost(num: seq<char>)
    | Local(tag: seq<char>)

  /** Position of a keyword part's group in the pattern. */
  function KindRank(k: Kind): nat {
    match k
    case PreRelease => 1
    case PostRelease => 2
    case DevRelease => 3
  }

  /** Position of the piece's group in the pattern; pieces must appear in increasing rank. */
  function Rank(p: Piece): nat {
    match p
    case Tagged(k, _, _, _, _) => KindRank(k)
    case DashPost(_) => 2
    case Local(_) => 4
  }

  /** `[-_\.]?` */
  predicate OptSep(s: seq<char>) {
    |s| == 0 || (|s| == 1 && IsSep(s[0]))
  }

  /** `word` is one of the keywords of `k`, in any letter case. */
  predicate IsKeyword(word: seq<char>, k: Kind) {
    LowerAll(word) in Keywords(k)
  }

  /** `[a-z0-9]+([-_\.][a-z0-9]+)*`, ignoring case. */
  predicate IsLocalLabel(l: seq<char>) {
    && |l| > 0
    && IsAlnum(l[0])
    && forall i | 0 <= i < |l| :: IsAlnum(l[i]) || (IsSep(l[i]) && i + 1 < |l| && IsAlnum(l[i + 1]))
  }

  predicate WfPiece(p: Piece) {
    match p
    case Tagged(k, lead, word, gap, num) =>
      OptSep(lead) && IsKeyword(word, k) && OptSep(gap) && AllDigits(num)
    case DashPost(num) => IsDigits(num)
    case Local(tag) => IsLocalLabel(tag)
  }

  function Render(p: Piece): seq<char> {
    match p
    case Tagged(_, lead, word, gap, num) => lead + word + gap + num
    case DashPost(num) => "-" + num
    case Local(tag) => "+" + tag
  }

  function RenderAll(ps: seq<Piece>): seq<char> {
    if |ps| == 0 then [] else Render(ps[0]) + RenderAll(ps[1..])
  }

  /** A tail the pattern can match after a piece of rank `after` (0 at the start): every piece
      well formed, each group used at most once and in the pattern's order. */
  predicate WfTail(ps: seq<Piece>, after: nat) {
    |ps| == 0 || (WfPiece(ps[0]) && Rank(ps[0]) > after && WfTail(ps[1..], Rank(ps[0])))
  }

  /** Length of the longest keyword of `ws` that `w` begins with (ignoring case), 0 if none. */
  function KeywordLength(w: seq<char>, ws: seq<seq<char>>): nat {
    if |ws| == 0 then 0
    else
      var rest := KeywordLength(w, ws[1..]);
      if StartsWithCI(w, ws[0]) && |ws[0]| > rest then |ws[0]| else rest
  }

  /** No matching keyword is longer than `KeywordLength`. */
  lemma {:induction false} KeywordLengthMax(w: seq<char>, ws: seq<seq<char>>)
    ensures forall kw | kw in ws && StartsWithCI(w, kw) :: |kw| <= KeywordLength(w, ws)
  {
    if |ws| > 0 {
      KeywordLengthMax(w, ws[1..]);
      assert forall kw | kw in ws :: kw == ws[0] || kw in ws[1..];
    }
  }

  /** A non-zero `KeywordLength` is the length of a keyword of the list that `w` begins with. */
  lemma {:induction false} KeywordLengthFound(w: seq<char>, ws: seq<seq<char>>)
    requires KeywordLength(w, ws) > 0
    ensures KeywordLength(w, ws) <= |w|
    ensures LowerAll(w[..KeywordLength(w, ws)]) in ws
  {
    var rest := KeywordLength(w, ws[1..]);
    if StartsWithCI(w, ws[0]) && |ws[0]| > rest {
      assert LowerAll(w[..|ws[0]|]) == ws[0];
    } else {
      KeywordLengthFound(w, ws[1..]);
    }
  }

  /** `KeywordLength` is 0 when no keyword of the list matches. */
  lemma {:induction false} KeywordLengthNone(w: seq<char>, ws: seq<seq<char>>)
    requires forall kw | kw in ws :: !StartsWithCI(w, kw)
    ensures KeywordLength(w, ws) == 0
  {
    if |ws| > 0 {
      assert ws[0] in ws;
      assert forall kw | kw in ws[1..] :: kw in ws;
      KeywordLengthNone(w, ws[1..]);
    }
  }

  /** Length of the greedy `[-_\.]?` at the start of `s`. */
  function GapLen(s: seq<char>): (n: nat)
    ensures n <= |s|
  {
    if |s| > 0 && IsSep(s[0]) then 1 else 0
  }

  /** Length of the greedy `[-_\.]?[0-9]*` at the start of `s`. */
  function ScanLen(s: seq<char>): (n: nat)
    ensures n <= |s|
  {
    GapLen(s) + DigitRun(s[GapLen(s)..])
  }

  /** How far the greedy `[-_\.]?[0-9]*` after a keyword ending at `b` reaches. */
  function ScanEnd(t: seq<char>, b: nat): (n: nat)
    requires b <= |t|
    ensures b <= n <= |t|
  {
    b + ScanLen(t[b..])
  }

  /** The separator and the digits the greedy scan after position `b` takes. */
  lemma ScanParts(t: seq<char>, b: nat)
    requires b <= |t|
    ensures b + GapLen(t[b..]) <= ScanEnd(t, b)
    ensures OptSep(t[b..b + GapLen(t[b..])])
    ensures AllDigits(t[b + GapLen(t[b..])..ScanEnd(t, b)])
  {
    var s := t[b..];
    var g := GapLen(s);
    var d := DigitRun(s[g..]);
    assert ScanEnd(t, b) == b + g + d;
    assert AllDigits(s[g..][..d]);
    assert s[g..][..d] == t[b + g..b + g + d];
    assert g == 1 ==> t[b..b + g] == [s[0]];
  }

  lemma Concat4(t: seq<char>, a: nat, b: nat, c: nat, e: nat)
    requires a <= b <= c <= e <= |t|
    ensures t[..a] + t[a..b] + t[b..c] + t[c..e] == t[..e]
  {
    assert t[..a] + t[a..b] == t[..b];
    assert t[..b] + t[b..c] == t[..c];
    assert t[..c] + t[c..e] == t[..e];
  }

  /** The tagged piece of `t` whose optional separator is `t[..a]` and whose keyword is
      `t[a..b]`; a greedy `[-_\.]?` and a greedy `[0-9]*` follow the keyword.  Returns the piece
      and how many characters of `t` it spans. */
  function TaggedAt(k: Kind, t: seq<char>, a: nat, b: nat): (r: (Piece, nat))
    requires a <= b <= |t|
    ensures b <= r.1 <= |t|
    ensures Render(r.0) == t[..r.1]
    ensures r.1 == ScanEnd(t, b)
    ensures r.0.Tagged? && r.0.kind == k && r.0.lead == t[..a] && r.0.word == t[a..b]
    ensures OptSep(r.0.gap) && AllDigits(r.0.num)
  {
    var c := b + GapLen(t[b..]);
    var e := ScanEnd(t, b);
    ScanParts(t, b);
    Concat4(t, a, b, c, e);
    (Tagged(k, t[..a], t[a..b], t[b..c], t[c..e]), e)
  }

  /** A keyword of length `n` found by `KeywordLength` spells a keyword of the list. */
  lemma KeywordRead(w: seq<char>, ws: seq<seq<char>>, n: nat)
    requires n > 0 && n == KeywordLength(w, ws)
    ensures n <= |w| && LowerAll(w[..n]) in ws
  {
    KeywordLengthFound(w, ws);
  }

  /** Length of the optional separator a tagged piece may start with. */
  function LeadLength(t: seq<char>): (a: nat)
    requires |t| > 0
    ensures a <= 1 && a <= |t|
  {
    if IsSep(t[0]) then 1 else 0
  }

  /** Length of the longest keyword of part `k` after the optional separator at the start of
      `t`, 0 if there is none. */
  function KeywordAt(t: seq<char>, k: Kind): nat
    requires |t| > 0
  {
    KeywordLength(t[LeadLength(t)..], Keywords(k))
  }

  /** The tagged piece of kind `k` at the start of `t`, using the longest keyword of `k`. */
  function KeywordPiece(k: Kind, t: seq<char>): (r: (Piece, nat))
    requires |t| > 0 && KeywordAt(t, k) > 0
    ensures 0 < r.1 <= |t| && Render(r.0) == t[..r.1]
    ensures WfPiece(r.0) && Rank(r.0) == KindRank(k)
    ensures LeadLength(t) + KeywordAt(t, k) <= |t|
    ensures r.1 == ScanEnd(t, LeadLength(t) + KeywordAt(t, k))
  {
    var a := LeadLength(t);
    var n := KeywordAt(t, k);
    KeywordRead(t[a..], Keywords(k), n);
    assert t[a..][..n] == t[a..a + n];
    TaggedAt(k, t, a, a + n)
  }

  /** `-[0-9]` starts `t`: the dashed post-release form. */
  predicate DashDigits(t: seq<char>) {
    |t| > 1 && t[0] == '-' && IsDigit(t[1])
  }

  /** The dashed post-release number at the start of `t`. */
  function DashPiece(t: seq<char>): (r: (Piece, nat))
    requires DashDigits(t)
    ensures 0 < r.1 <= |t| && Render(r.0) == t[..r.1]
    ensures WfPiece(r.0) && Rank(r.0) == 2
    ensures r.1 == 1 + DigitRun(t[1..])
  {
    var d := DigitRun(t[1..]);
    assert t[1..][..d] == t[1..1 + d];
    (DashPost(t[1..1 + d]), 1 + d)
  }

  /** The first piece of a non-empty tail, when the pattern allows one after rank `after`.
      Separators, digits and keywords are taken greedily, and the longest keyword wins: no
      piece can start with a digit or with a letter that lengthens a keyword, so the pattern's
      backtracking into shorter choices never finds a match the greedy choice misses. */
  function NextPiece(t: seq<char>, after: nat): (r: Option<(Piece, nat)>)
    ensures r.Some? ==> 0 < r.value.1 <= |t| && Render(r.value.0) == t[..r.value.1]
    ensures r.Some? ==> WfPiece(r.value.0) && Rank(r.value.0) > after
  {
    if |t| == 0 then None
    else if t[0] == '+' then
      if after < 4 && IsLocalLabel(t[1..]) then Some((Local(t[1..]), |t|)) else None
    else if after < 1 && KeywordAt(t, PreRelease) > 0 then Some(KeywordPiece(PreRelease, t))
    else if after < 2 && DashDigits(t) then Some(DashPiece(t))
    else if after < 2 && KeywordAt(t, PostRelease) > 0 then Some(KeywordPiece(PostRelease, t))
    else if after < 3 && KeywordAt(t, DevRelease) > 0 then Some(KeywordPiece(DevRelease, t))
    else None
  }

  /** The scanner for a whole tail after a piece of rank `after`: `None` when the pattern's
      `remainder` group cannot match all of `t`. */
  function ParseTail(t: seq<char>, after: nat): (r: Option<seq<Piece>>)
    ensures r.Some? ==> RenderAll(r.value) == t && WfTail(r.value, after)
    decreases |t|
  {
    if |t| == 0 then Some([])
    else
      match NextPiece(t, after)
      case None => None
      case Some((p, n)) =>
        match ParseTail(t[n..], Rank(p))
        case None => None
        case Some(ps) =>
          assert ([p] + ps)[1..] == ps;
          assert t == t[..n] + t[n..];
          Some([p] + ps)
  }

  // ---------------------------------------------------------------------------------------
  // What a well-formed tail can look like.

  /** The characters a well-formed tail of rank above `after` can start with. */
  predicate CanStart(c: char, after: nat) {
    || c == '+' || IsSep(c)
    || (after < 1 && Lower(c) in "abcrp")
    || (after < 2 && Lower(c) in "pr")
    || (after < 3 && Lower(c) == 'd')
  }

  /** A character a later piece can start with does not continue a keyword. */
  lemma NotKeywordLetter(c: char, after: nat)
    requires IsDigit(c) || CanStart(c, after)
    ensures Lower(c) !in "lev"
    ensures after >= 2 ==> Lower(c) !in "rc"
  {
  }

  /** Every keyword starts with a letter, which tells the parts apart except for 'p' and 'r'. */
  lemma KeywordInitial(word: seq<char>, k: Kind)
    requires IsKeyword(word, k)
    ensures |word| > 0 && IsLetter(word[0])
    ensures k == PreRelease ==> Lower(word[0]) in "abcrp"
    ensures k == PostRelease ==> Lower(word[0]) in "pr"
    ensures k == DevRelease ==> Lower(word[0]) == 'd'
  {
    assert LowerAll(word)[0] == Lower(word[0]);
  }

  /** Every character of a keyword is a letter. */
  lemma KeywordLetters(word: seq<char>, k: Kind)
    requires IsKeyword(word, k)
    ensures forall i | 0 <= i < |word| :: IsLetter(word[i])
  {
    var kw := LowerAll(word);
    assert forall i | 0 <= i < |kw| :: 'a' <= kw[i] <= 'z';
    assert forall i | 0 <= i < |word| :: Lower(word[i]) == kw[i];
  }

  /** The first character of a well-formed non-empty tail. */
  lemma TailStart(ps: seq<Piece>, after: nat)
    requires WfTail(ps, after) && |ps| > 0
    ensures |RenderAll(ps)| > 0
    ensures CanStart(RenderAll(ps)[0], after)
    ensures !IsDigit(RenderAll(ps)[0])
  {
    var t := RenderAll(ps);
    var q := ps[0];
    assert t == Render(q) + RenderAll(ps[1..]);
    match q
    case Tagged(k, lead, word, gap, num) =>
      KeywordInitial(word, k);
      assert Render(q) == lead + word + gap + num;
      if |lead| == 0 {
        assert t[0] == word[0];
      } else {
        assert t[0] == lead[0];
      }
    case DashPost(num) =>
      assert t[0] == '-';
    case Local(tag) =>
      assert t[0] == '+';
  }

  /** Characters a tail is made of: letters, digits, separators and '+'. */
  predicate IsTailChar(c: char) {
    IsAlnum(c) || IsSep(c) || c == '+'
  }

  predicate AllTailChars(s: seq<char>) {
    forall i | 0 <= i < |s| :: IsTailChar(s[i])
  }

  lemma AllTailCharsConcat(a: seq<char>, b: seq<char>)
    requires AllTailChars(a) && AllTailChars(b)
    ensures AllTailChars(a + b)
  {
    var s := a + b;
    forall i | 0 <= i < |s|
      ensures IsTailChar(s[i])
    {
      if i < |a| {
        assert s[i] == a[i];
      } else {
        assert s[i] == b[i - |a|];
      }
    }
  }

  lemma PieceChars(q: Piece)
    requires WfPiece(q)
    ensures AllTailChars(Render(q))
  {
    match q
    case Tagged(k, lead, word, gap, num) =>
      KeywordLetters(word, k);
      assert AllTailChars(lead) && AllTailChars(word) && AllTailChars(gap) && AllTailChars(num);
      AllTailCharsConcat(lead, word);
      AllTailCharsConcat(lead + word, gap);
      AllTailCharsConcat(lead + word + gap, num);
    case DashPost(num) =>
      assert AllTailChars("-") && AllTailChars(num);
      AllTailCharsConcat("-", num);
    case Local(tag) =>
      assert AllTailChars("+") && AllTailChars(tag);
      AllTailCharsConcat("+", tag);
  }

  /** A well-formed tail is made of tail characters only. */
  lemma {:induction false} TailChars(ps: seq<Piece>, after: nat)
    requires WfTail(ps, after)
    ensures AllTailChars(RenderAll(ps))
  {
    if |ps| > 0 {
      PieceChars(ps[0]);
      TailChars(ps[1..], Rank(ps[0]));
      AllTailCharsConcat(Render(ps[0]), RenderAll(ps[1..]));
    }
  }

  /** A letter that occurs in some keyword, in either case. */
  predicate IsKeywordLetter(c: char) {
    Lower(c) in "abcdehiloprstvw"
  }

  /** Characters of a tail before its local part: digits, separators and keyword letters. */
  predicate IsPublicTailChar(c: char) {
    IsDigit(c) || IsSep(c) || IsKeywordLetter(c)
  }

  predicate AllPublicTailChars(s: seq<char>) {
    forall i | 0 <= i < |s| :: IsPublicTailChar(s[i])
  }

  lemma AllPublicTailCharsConcat(a: seq<char>, b: seq<char>)
    requires AllPublicTailChars(a) && AllPublicTailChars(b)
    ensures AllPublicTailChars(a + b)
  {
    var s := a + b;
    forall i | 0 <= i < |s|
      ensures IsPublicTailChar(s[i])
    {
      if i < |a| {
        assert s[i] == a[i];
      } else {
        assert s[i] == b[i - |a|];
      }
    }
  }

  /** Every character of a keyword is a keyword letter. */
  lemma KeywordLetterSet(word: seq<char>, k: Kind)
    requires IsKeyword(word, k)
    ensures AllPublicTailChars(word)
  {
    var kw := LowerAll(word);
    assert forall i | 0 <= i < |kw| :: kw[i] in "abcdehiloprstvw";
    assert forall i | 0 <= i < |word| :: Lower(word[i]) == kw[i];
  }

  /** A well-formed tail either has a local part, which starts with '+', or is made of
      digits, separators and keyword letters only. */
  lemma {:induction false} PublicTailChars(ps: seq<Piece>, after: nat)
    requires WfTail(ps, after)
    ensures '+' in RenderAll(ps) || AllPublicTailChars(RenderAll(ps))
  {
    if |ps| > 0 {
      var q, t, u := ps[0], RenderAll(ps), RenderAll(ps[1..]);
      assert t == Render(q) + u;
      match q
      case Local(tag) =>
        assert t[0] == '+';
      case DashPost(num) =>
        PublicTailChars(ps[1..], Rank(q));
        assert Render(q) == "-" + num;
        assert AllPublicTailChars("-") && AllPublicTailChars(num);
        AllPublicTailCharsConcat("-", num);
        if '+' !in u {
          AllPublicTailCharsConcat(Render(q), u);
        }
      case Tagged(k, lead, word, gap, num) =>
        PublicTailChars(ps[1..], Rank(q));
        KeywordLetterSet(word, k);
        assert AllPublicTailChars(lead) && AllPublicTailChars(gap) && AllPublicTailChars(num);
        AllPublicTailCharsConcat(lead, word);
        AllPublicTailCharsConcat(lead + word, gap);
        AllPublicTailCharsConcat(lead + word + gap, num);
        if '+' !in u {
          AllPublicTailCharsConcat(Render(q), u);
        }
    }
  }

  /** A tail allowed after rank `a` is allowed after every lower rank too. */
  lemma WfTailWeaken(ps: seq<Piece>, a: nat, b: nat)
    requires WfTail(ps, a) && b <= a
    ensures WfTail(ps, b)
  {
  }

  // ---------------------------------------------------------------------------------------
  // Completeness of the scanner.

  /** Of two keywords of one part, the longer extends the shorter only by 'l', 'e' or 'v'
      ("a"/"alpha", "b"/"beta", "pre"/"preview", "r"/"rev"). */
  lemma KeywordExtension(k: Kind, k0: seq<char>, kw: seq<char>)
    requires k0 in Keywords(k) && kw in Keywords(k)
    ensures |k0| < |kw| && kw[..|k0|] == k0 ==> kw[|k0|] in "lev"
  {
    if |k0| < |kw| && kw[..|k0|] == k0 {
      assert kw[0] == k0[0] by { assert kw[..|k0|][0] == kw[0]; }
      if |k0| > 1 {
        assert kw[1] == k0[1] by { assert kw[..|k0|][1] == kw[1]; }
      }
      if |k0| > 2 {
        assert kw[2] == k0[2] by { assert kw[..|k0|][2] == kw[2]; }
      }
    }
  }

  /** `KeywordLength` is the length of the longest keyword that matches. */
  lemma LongestKeyword(w: seq<char>, ws: seq<seq<char>>, kw0: seq<char>)
    requires kw0 in ws && |kw0| > 0 && StartsWithCI(w, kw0)
    requires forall kw | kw in ws && StartsWithCI(w, kw) :: |kw| <= |kw0|
    ensures KeywordLength(w, ws) == |kw0|
  {
    KeywordLengthMax(w, ws);
    KeywordLengthFound(w, ws);
    var n := KeywordLength(w, ws);
    assert StartsWithCI(w, LowerAll(w[..n]));
  }

  /** The scanner reads exactly the keyword `word` when the next character cannot lengthen it. */
  lemma KeywordLengthOf(word: seq<char>, u: seq<char>, k: Kind)
    requires IsKeyword(word, k)
    requires |u| == 0 || Lower(u[0]) !in "lev"
    ensures KeywordLength(word + u, Keywords(k)) == |word|
  {
    var w := word + u;
    var k0 := LowerAll(word);
    KeywordInitial(word, k);
    assert k0 in Keywords(k) && |k0| > 0;
    assert StartsWithCI(w, k0);
    forall kw | kw in Keywords(k) && StartsWithCI(w, kw)
      ensures |kw| <= |word|
    {
      NoLongerKeyword(word, u, k, kw);
    }
    LongestKeyword(w, Keywords(k), k0);
  }

  /** No keyword of the same part matches further into `word + u`. */
  lemma NoLongerKeyword(word: seq<char>, u: seq<char>, k: Kind, kw: seq<char>)
    requires IsKeyword(word, k)
    requires |u| == 0 || Lower(u[0]) !in "lev"
    requires kw in Keywords(k) && StartsWithCI(word + u, kw)
    ensures |kw| <= |word|
  {
    var w := word + u;
    var k0 := LowerAll(word);
    assert forall i | 0 <= i < |word| && i < |kw| :: kw[i] == Lower(w[i]) == k0[i];
    assert |kw| > |word| ==> kw[..|k0|] == k0;
    assert |kw| > |word| ==> kw[|word|] == Lower(u[0]);
    KeywordExtension(k, k0, kw);
  }

  /** `StartsWithCI` fails when some character differs. */
  lemma Differs(w: seq<char>, kw: seq<char>, i: nat)
    requires i < |w| && i < |kw| && Lower(w[i]) != kw[i]
    ensures !StartsWithCI(w, kw)
  {
  }

  /** The first two characters of a post-release or development keyword and what follows it:
      never those of a pre-release keyword. */
  lemma LaterKeywordStart(word: seq<char>, u: seq<char>, k: Kind)
    requires IsKeyword(word, k) && k != PreRelease
    requires |u| == 0 || IsDigit(u[0]) || CanStart(u[0], KindRank(k))
    ensures |word + u| > 0 && Lower((word + u)[0]) in "prd"
    ensures k == DevRelease ==> Lower((word + u)[0]) == 'd'
    ensures |word + u| > 1 ==> Lower((word + u)[1]) !in "rc"
  {
    var w := word + u;
    var k0 := LowerAll(word);
    assert Lower(w[0]) == k0[0];
    if |word| > 1 {
      assert Lower(w[1]) == k0[1];
    } else if |u| > 0 {
      assert w[1] == u[0];
      NotKeywordLetter(u[0], KindRank(k));
    }
  }

  /** A keyword of a later part, followed by what may follow it, starts no keyword of an
      earlier part. */
  lemma EarlierKeywordsAbsent(word: seq<char>, u: seq<char>, k: Kind, k': Kind)
    requires IsKeyword(word, k) && KindRank(k') < KindRank(k)
    requires |u| == 0 || IsDigit(u[0]) || CanStart(u[0], KindRank(k))
    ensures KeywordLength(word + u, Keywords(k')) == 0
  {
    LaterKeywordStart(word, u, k);
    if k' == PreRelease {
      NoPreKeyword(word + u);
    } else {
      NoPostKeyword(word + u);
    }
  }

  /** Every pre-release keyword starts with a letter other than 'p', 'r' and 'd', or continues
      with 'r' or 'c'. */
  lemma PreKeywordShapes()
    ensures forall kw | kw in Keywords(PreRelease) ::
              |kw| > 0 && (kw[0] !in "prd" || (|kw| > 1 && kw[1] in "rc"))
  {
  }

  /** No pre-release keyword starts a text whose first letters are those of a later part. */
  lemma NoPreKeyword(w: seq<char>)
    requires |w| > 0 && Lower(w[0]) in "prd"
    requires |w| > 1 ==> Lower(w[1]) !in "rc"
    ensures KeywordLength(w, Keywords(PreRelease)) == 0
  {
    PreKeywordShapes();
    forall kw | kw in Keywords(PreRelease)
      ensures !StartsWithCI(w, kw)
    {
      if |kw| <= |w| {
        if Lower(w[0]) != kw[0] {
          Differs(w, kw, 0);
        } else {
          Differs(w, kw, 1);
        }
      }
    }
    KeywordLengthNone(w, Keywords(PreRelease));
  }

  /** No post-release keyword starts with 'd'. */
  lemma NoPostKeyword(w: seq<char>)
    requires |w| > 0 && Lower(w[0]) == 'd'
    ensures KeywordLength(w, Keywords(PostRelease)) == 0
  {
    forall kw | kw in Keywords(PostRelease)
      ensures !StartsWithCI(w, kw)
    {
      Differs(w, kw, 0);
    }
    KeywordLengthNone(w, Keywords(PostRelease));
  }

  /** No keyword starts at a character that is not a letter. */
  lemma NoKeywordAt(w: seq<char>, k: Kind)
    requires |w| == 0 || !IsLetter(w[0])
    ensures KeywordLength(w, Keywords(k)) == 0
  {
    forall kw | kw in Keywords(k)
      ensures !StartsWithCI(w, kw)
    {
      if |w| > 0 {
        Differs(w, kw, 0);
      }
    }
    KeywordLengthNone(w, Keywords(k));
  }

  /** `DigitRun` stops exactly at the end of a digit string that a non-digit follows. */
  lemma DigitRunOver(a: seq<char>, b: seq<char>)
    requires AllDigits(a) && (|b| == 0 || !IsDigit(b[0]))
    ensures DigitRun(a + b) == |a|
  {
    var s := a + b;
    var n := DigitRun(s);
    assert forall i | 0 <= i < |a| :: s[i] == a[i];
    assert |b| > 0 ==> s[|a|] == b[0];
    assert forall i | 0 <= i < n :: s[..n][i] == s[i];
  }

  /** The scanner reads a local label after '+'. */
  lemma NextLocal(tag: seq<char>, after: nat)
    requires IsLocalLabel(tag) && after < 4
    ensures NextPiece("+" + tag, after) == Some((Local(tag), 1 + |tag|))
  {
    assert ("+" + tag)[1..] == tag;
  }

  /** The scanner reads a dashed post-release number up to the first non-digit. */
  lemma NextDashPost(num: seq<char>, rest: seq<char>, after: nat)
    requires IsDigits(num) && after < 2 && (|rest| == 0 || !IsDigit(rest[0]))
    ensures NextPiece("-" + num + rest, after) == Some((DashPost(num), 1 + |num|))
  {
    var t := "-" + num + rest;
    assert t[1..] == num + rest;
    assert t[1] == num[0];
    NoKeywordAt(t[1..], PreRelease);
    assert KeywordAt(t, PreRelease) == 0;
    DigitRunOver(num, rest);
    assert t[1..][..|num|] == num;
    assert DashPiece(t) == (DashPost(num), 1 + |num|);
  }

  /** Where a tagged piece's keyword starts, and that it is not a dashed post-release. */
  lemma TaggedLead(t: seq<char>, k: Kind, lead: seq<char>, word: seq<char>, u: seq<char>)
    requires t == lead + word + u
    requires OptSep(lead) && IsKeyword(word, k)
    ensures |t| > 0 && t[0] != '+' && !DashDigits(t) && |word| > 0
    ensures LeadLength(t) == |lead| && t[|lead|..] == word + u
    ensures t[|lead| + |word|..] == u
  {
    KeywordInitial(word, k);
    if |lead| == 0 {
      assert t[0] == word[0];
    } else {
      assert t[0] == lead[0] && t[1] == word[0];
    }
  }

  /** What the scanner sees at a tagged piece of part `k`: no '+', no dashed number, the
      piece's own separator and keyword, and no keyword of an earlier part. */
  lemma TaggedKeywords(t: seq<char>, k: Kind, lead: seq<char>, word: seq<char>, u: seq<char>)
    requires t == lead + word + u
    requires OptSep(lead) && IsKeyword(word, k)
    requires |u| == 0 || IsDigit(u[0]) || CanStart(u[0], KindRank(k))
    ensures |t| > 0 && t[0] != '+' && !DashDigits(t)
    ensures LeadLength(t) == |lead| && KeywordAt(t, k) == |word| > 0
    ensures k != PreRelease ==> KeywordAt(t, PreRelease) == 0
    ensures k == DevRelease ==> KeywordAt(t, PostRelease) == 0
    ensures t[|lead| + |word|..] == u
  {
    TaggedLead(t, k, lead, word, u);
    if |u| > 0 {
      NotKeywordLetter(u[0], KindRank(k));
    }
    KeywordLengthOf(word, u, k);
    if k != PreRelease {
      EarlierKeywordsAbsent(word, u, k, PreRelease);
    }
    if k == DevRelease {
      EarlierKeywordsAbsent(word, u, k, PostRelease);
    }
  }

  /** The scanner takes the tagged piece of the first part whose keyword it finds, reaching
      as far as the greedy separator and digits after the keyword. */
  lemma NextKeyword(t: seq<char>, after: nat, k: Kind, b: nat)
    requires |t| > 0 && t[0] != '+' && !DashDigits(t) && after < KindRank(k)
    requires KeywordAt(t, k) > 0 && LeadLength(t) + KeywordAt(t, k) == b
    requires k != PreRelease ==> KeywordAt(t, PreRelease) == 0
    requires k == DevRelease ==> KeywordAt(t, PostRelease) == 0
    ensures NextPiece(t, after).Some?
    ensures NextPiece(t, after).value.1 == ScanEnd(t, b)
    ensures Rank(NextPiece(t, after).value.0) == KindRank(k)
  {
    match k
    case PreRelease => NextPre(t, after, b);
    case PostRelease => NextPost(t, after, b);
    case DevRelease => NextDev(t, after, b);
  }

  /** The branch of `NextPiece` each keyword takes, and where its piece ends. */
  lemma NextPre(t: seq<char>, after: nat, b: nat)
    requires |t| > 0 && t[0] != '+' && after < 1
    requires KeywordAt(t, PreRelease) > 0 && LeadLength(t) + KeywordAt(t, PreRelease) == b
    ensures NextPiece(t, after) == Some(KeywordPiece(PreRelease, t))
    ensures NextPiece(t, after).value.1 == ScanEnd(t, b)
    ensures Rank(NextPiece(t, after).value.0) == KindRank(PreRelease)
  {
  }

  lemma NextPost(t: seq<char>, after: nat, b: nat)
    requires |t| > 0 && t[0] != '+' && !DashDigits(t) && after < 2
    requires KeywordAt(t, PostRelease) > 0 && KeywordAt(t, PreRelease) == 0
    requires LeadLength(t) + KeywordAt(t, PostRelease) == b
    ensures NextPiece(t, after) == Some(KeywordPiece(PostRelease, t))
    ensures NextPiece(t, after).value.1 == ScanEnd(t, b)
    ensures Rank(NextPiece(t, after).value.0) == KindRank(PostRelease)
  {
  }

  lemma NextDev(t: seq<char>, after: nat, b: nat)
    requires |t| > 0 && t[0] != '+' && !DashDigits(t) && after < 3
    requires KeywordAt(t, DevRelease) > 0 && KeywordAt(t, PreRelease) == 0
    requires KeywordAt(t, PostRelease) == 0
    requires LeadLength(t) + KeywordAt(t, DevRelease) == b
    ensures NextPiece(t, after) == Some(KeywordPiece(DevRelease, t))
    ensures NextPiece(t, after).value.1 == ScanEnd(t, b)
    ensures Rank(NextPiece(t, after).value.0) == KindRank(DevRelease)
  {
  }


  /** After a keyword, the greedy separator and digits take exactly the piece's own `gap` and
      `num` when the next piece cannot lend them one. */
  lemma ScanOwn(s: seq<char>, gap: seq<char>, num: seq<char>, rest: seq<char>)
    requires s == gap + num + rest
    requires OptSep(gap) && AllDigits(num) && (|rest| == 0 || !IsDigit(rest[0]))
    requires |gap| + |num| > 0 || |rest| == 0 || !IsSep(rest[0])
    ensures ScanLen(s) == |gap| + |num| && s[ScanLen(s)..] == rest
  {
    if |gap| > 0 {
      assert s[0] == gap[0];
    } else if |num| > 0 {
      assert s[0] == num[0];
    } else if |rest| > 0 {
      assert s[0] == rest[0];
    }
    assert s[|gap|..] == num + rest;
    DigitRunOver(num, rest);
    assert s[|gap| + |num|..] == rest;
  }

  /** After a bare keyword, the greedy separator takes the '-' of a following dashed
      post-release, and the greedy digits its number. */
  lemma ScanStealDash(s: seq<char>, num: seq<char>, rest: seq<char>)
    requires s == "-" + num + rest
    requires AllDigits(num) && (|rest| == 0 || !IsDigit(rest[0]))
    ensures s[ScanLen(s)..] == rest
  {
    assert s[0] == '-';
    assert s[1..] == num + rest;
    DigitRunOver(num, rest);
    assert s[1 + |num|..] == rest;
  }

  /** After a bare keyword, the greedy separator takes the leading separator of a following
      tagged piece, and no digits follow. */
  lemma ScanStealLead(s: seq<char>, c: char, v: seq<char>)
    requires s == [c] + v
    requires IsSep(c) && |v| > 0 && IsLetter(v[0])
    ensures s[ScanLen(s)..] == v
  {
    assert s[0] == c;
    assert s[1..] == v;
  }

  /** What may follow a keyword, when the tail after its piece is well formed. */
  lemma AfterKeyword(gap: seq<char>, num: seq<char>, rest: seq<Piece>, r: nat)
    requires OptSep(gap) && AllDigits(num) && WfTail(rest, r)
    ensures var u := gap + num + RenderAll(rest);
            |u| == 0 || IsDigit(u[0]) || CanStart(u[0], r)
  {
    var u := gap + num + RenderAll(rest);
    if |gap| > 0 {
      assert u[0] == gap[0];
    } else if |num| > 0 {
      assert u[0] == num[0];
    } else if |rest| > 0 {
      TailStart(rest, r);
      assert u == RenderAll(rest);
    }
  }

  /** What the greedy separator and digits after a keyword leave is the spelling of a tail the
      pattern allows after that keyword's piece. */
  lemma ScanAfterKeyword(s: seq<char>, gap: seq<char>, num: seq<char>, tail: seq<Piece>, r: nat)
    returns (rest: seq<Piece>)
    requires s == gap + num + RenderAll(tail)
    requires OptSep(gap) && AllDigits(num) && WfTail(tail, r) && r >= 1
    ensures s[ScanLen(s)..] == RenderAll(rest) && WfTail(rest, r)
  {
    var R := RenderAll(tail);
    if |tail| > 0 {
      TailStart(tail, r);
    }
    if |gap| + |num| > 0 || |R| == 0 || !IsSep(R[0]) {
      ScanOwn(s, gap, num, R);
      rest := tail;
    } else {
      assert s == R;
      rest := ScanSteal(tail, r);
    }
  }

  /** After a bare keyword, the greedy separator and digits borrow from the next piece. */
  lemma ScanSteal(tail: seq<Piece>, r: nat) returns (rest: seq<Piece>)
    requires WfTail(tail, r) && r >= 1 && |tail| > 0 && IsSep(RenderAll(tail)[0])
    ensures var s := RenderAll(tail);
            s[ScanLen(s)..] == RenderAll(rest) && WfTail(rest, r)
  {
    if tail[0].DashPost? {
      rest := StealDash(tail, r);
    } else {
      if tail[0].Local? {
        LocalStart(tail);
        assert false;
      }
      rest := StealLead(tail, r);
    }
  }

  /** A bare keyword followed by a dashed post-release: the keyword's piece takes the number. */
  lemma StealDash(tail: seq<Piece>, r: nat) returns (rest: seq<Piece>)
    requires WfTail(tail, r) && r >= 1 && |tail| > 0 && tail[0].DashPost?
    ensures var s := RenderAll(tail);
            s[ScanLen(s)..] == RenderAll(rest) && WfTail(rest, r)
  {
    var num := tail[0].num;
    var R2 := RenderAll(tail[1..]);
    assert RenderAll(tail) == "-" + num + R2;
    if |tail[1..]| > 0 {
      TailStart(tail[1..], 2);
    }
    ScanStealDash(RenderAll(tail), num, R2);
    WfTailWeaken(tail[1..], 2, r);
    rest := tail[1..];
  }

  /** A bare keyword followed by a tagged piece with a leading separator: the keyword's piece
      takes the separator. */
  lemma StealLead(tail: seq<Piece>, r: nat) returns (rest: seq<Piece>)
    requires WfTail(tail, r) && r >= 1 && |tail| > 0 && tail[0].Tagged?
    requires IsSep(RenderAll(tail)[0])
    ensures var s := RenderAll(tail);
            s[ScanLen(s)..] == RenderAll(rest) && WfTail(rest, r)
  {
    rest := [Bare(tail[0])] + tail[1..];
    DropLeadText(tail, r);
    DropLeadWf(tail, r);
    ScanStealLead(RenderAll(tail), RenderAll(tail)[0], RenderAll(rest));
  }

  /** A tagged piece without its leading separator. */
  function Bare(q: Piece): (r: Piece)
    requires q.Tagged?
    ensures r.Tagged? && r.lead == []
  {
    Tagged(q.kind, [], q.word, q.gap, q.num)
  }

  /** Dropping the leading separator of the first piece drops the first character. */
  lemma DropLeadText(tail: seq<Piece>, r: nat)
    requires WfTail(tail, r) && |tail| > 0 && tail[0].Tagged? && IsSep(RenderAll(tail)[0])
    ensures var rest := [Bare(tail[0])] + tail[1..];
            && RenderAll(tail) == [RenderAll(tail)[0]] + RenderAll(rest)
            && |RenderAll(rest)| > 0 && IsLetter(RenderAll(rest)[0])
  {
    var q2 := tail[0];
    var R2 := RenderAll(tail[1..]);
    var v := q2.word + q2.gap + q2.num;
    KeywordInitial(q2.word, q2.kind);
    RenderConsLead(tail);
    TaggedFirst(tail);
    assert |q2.lead| == 1;
    RenderConsBare(tail);
    assert (v + R2)[0] == q2.word[0];
    assert q2.lead == [RenderAll(tail)[0]];
  }

  /** A tail whose first piece is a local label starts with '+'. */
  lemma LocalStart(ps: seq<Piece>)
    requires |ps| > 0 && ps[0].Local?
    ensures |RenderAll(ps)| > 0 && RenderAll(ps)[0] == '+'
  {
    assert RenderAll(ps) == Render(ps[0]) + RenderAll(ps[1..]);
  }

  /** A tail whose first piece is tagged starts with that piece's separator, or else with its
      keyword. */
  lemma TaggedFirst(ps: seq<Piece>)
    requires |ps| > 0 && ps[0].Tagged? && |ps[0].word| > 0
    ensures |RenderAll(ps)| > 0
    ensures RenderAll(ps)[0] == if |ps[0].lead| > 0 then ps[0].lead[0] else ps[0].word[0]
  {
    RenderConsLead(ps);
  }

  /** The spelling of a tail whose first piece is tagged, split after its keyword. */
  lemma RenderConsTagged(ps: seq<Piece>)
    requires |ps| > 0 && ps[0].Tagged?
    ensures RenderAll(ps) == ps[0].lead + ps[0].word + (ps[0].gap + ps[0].num + RenderAll(ps[1..]))
  {
    var q := ps[0];
    assert RenderAll(ps) == Render(q) + RenderAll(ps[1..]);
    Group3(q.lead + q.word, q.gap, q.num, RenderAll(ps[1..]));
  }

  lemma Group3<T>(a: seq<T>, b: seq<T>, c: seq<T>, d: seq<T>)
    ensures a + b + c + d == a + (b + c + d)
  {
  }

  /** The spelling of a tail whose first piece is tagged, split after its separator. */
  lemma RenderConsLead(ps: seq<Piece>)
    requires |ps| > 0 && ps[0].Tagged?
    ensures RenderAll(ps) == ps[0].lead + (ps[0].word + ps[0].gap + ps[0].num + RenderAll(ps[1..]))
  {
    var q := ps[0];
    assert RenderAll(ps) == Render(q) + RenderAll(ps[1..]);
    Group4(q.lead, q.word, q.gap, q.num, RenderAll(ps[1..]));
  }

  lemma Group4<T>(a: seq<T>, b: seq<T>, c: seq<T>, d: seq<T>, e: seq<T>)
    ensures a + b + c + d + e == a + (b + c + d + e)
  {
  }

  /** The spelling of a tail after removing its first piece's leading separator. */
  lemma RenderConsBare(ps: seq<Piece>)
    requires |ps| > 0 && ps[0].Tagged?
    ensures RenderAll([Bare(ps[0])] + ps[1..]) == ps[0].word + ps[0].gap + ps[0].num + RenderAll(ps[1..])
  {
    var rest := [Bare(ps[0])] + ps[1..];
    assert rest[0] == Bare(ps[0]) && rest[1..] == ps[1..];
    RenderBare(Bare(ps[0]));
  }

  /** Dropping the leading separator of the first piece keeps the tail well formed. */
  lemma DropLeadWf(tail: seq<Piece>, r: nat)
    requires WfTail(tail, r) && |tail| > 0 && tail[0].Tagged?
    ensures WfTail([Bare(tail[0])] + tail[1..], r)
  {
    var rest := [Bare(tail[0])] + tail[1..];
    assert rest[0] == Bare(tail[0]) && rest[1..] == tail[1..];
  }

  lemma RenderBare(q: Piece)
    requires q.Tagged? && q.lead == []
    ensures Render(q) == q.word + q.gap + q.num
  {
    assert [] + q.word == q.word;
  }

  /** The scanner's step at a tagged piece of part `k`, stated on the piece's parts. */
  lemma TaggedStep(t: seq<char>, after: nat, q: Piece, u: seq<char>)
    requires q.Tagged? && t == q.lead + q.word + u
    requires OptSep(q.lead) && IsKeyword(q.word, q.kind) && after < KindRank(q.kind)
    requires |u| == 0 || IsDigit(u[0]) || CanStart(u[0], KindRank(q.kind))
    ensures NextPiece(t, after).Some?
    ensures NextPiece(t, after).value.1 == |q.lead| + |q.word| + ScanLen(u)
    ensures Rank(NextPiece(t, after).value.0) == KindRank(q.kind)
    ensures t[|q.lead| + |q.word|..] == u
  {
    TaggedKeywords(t, q.kind, q.lead, q.word, u);
    NextKeyword(t, after, q.kind, |q.lead| + |q.word|);
  }

  /** Completeness of one step for a tagged first piece. */
  lemma NextTaggedComplete(ps: seq<Piece>, after: nat) returns (rest: seq<Piece>)
    requires WfTail(ps, after) && |ps| > 0 && ps[0].Tagged?
    ensures NextPiece(RenderAll(ps), after).Some?
    ensures WfTail(rest, Rank(NextPiece(RenderAll(ps), after).value.0))
    ensures RenderAll(ps)[NextPiece(RenderAll(ps), after).value.1..] == RenderAll(rest)
  {
    var t := RenderAll(ps);
    var q := ps[0];
    var tail := ps[1..];
    var u := q.gap + q.num + RenderAll(tail);
    RenderConsTagged(ps);
    AfterKeyword(q.gap, q.num, tail, KindRank(q.kind));
    TaggedStep(t, after, q, u);
    rest := ScanAfterKeyword(u, q.gap, q.num, tail, KindRank(q.kind));
    SliceShift(t, |q.lead| + |q.word|, u, ScanLen(u));
  }

  lemma SliceShift(t: seq<char>, b: nat, u: seq<char>, n: nat)
    requires b <= |t| && t[b..] == u && n <= |u|
    ensures t[b + n..] == u[n..]
  {
  }

  /** The scanner's first step on a well-formed tail succeeds, and what it leaves is again the
      spelling of a well-formed tail (possibly of different pieces: a separator or a dashed
      number after a bare keyword is taken into the keyword's own piece). */
  lemma NextPieceComplete(ps: seq<Piece>, after: nat) returns (rest: seq<Piece>)
    requires WfTail(ps, after) && |ps| > 0
    ensures NextPiece(RenderAll(ps), after).Some?
    ensures WfTail(rest, Rank(NextPiece(RenderAll(ps), after).value.0))
    ensures RenderAll(ps)[NextPiece(RenderAll(ps), after).value.1..] == RenderAll(rest)
  {
    var q := ps[0];
    var R := RenderAll(ps[1..]);
    assert RenderAll(ps) == Render(q) + R;
    match q
    case Local(tag) =>
      assert R == [];
      NextLocal(tag, after);
      rest := [];
    case DashPost(num) =>
      if |ps[1..]| > 0 {
        TailStart(ps[1..], 2);
      }
      NextDashPost(num, R, after);
      assert RenderAll(ps)[1 + |num|..] == R;
      rest := ps[1..];
    case Tagged(_, _, _, _, _) =>
      rest := NextTaggedComplete(ps, after);
  }

  /** The scanner accepts the spelling of every well-formed tail. */
  lemma {:induction false} ParseTailComplete(ps: seq<Piece>, after: nat)
    requires WfTail(ps, after)
    ensures ParseTail(RenderAll(ps), after).Some?
    decreases |RenderAll(ps)|
  {
    if |ps| > 0 {
      var t := RenderAll(ps);
      var rest := NextPieceComplete(ps, after);
      var pn := NextPiece(t, after).value;
      ParseTailComplete(rest, Rank(pn.0));
    }
  }
}

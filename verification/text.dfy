/** Character classes and the small text functions the grammar and the renderers share:
    Python's `\s`, `\d`, ASCII case folding, `int()` / `str()` on decimal numbers,
    `str.split(".")` / `".".join(...)`, and the anchoring whitespace of the specifier pattern. */
module Text {

  /** Python's `\s` on str patterns: exactly the characters for which `str.isspace()` holds. */
  predicate IsSpace(c: char) {
    var n := c as int;
    || (9 <= n <= 13) || (28 <= n <= 32) || n == 0x85 || n == 0xA0 || n == 0x1680
    || (0x2000 <= n <= 0x200A) || n == 0x2028 || n == 0x2029 || n == 0x202F
    || n == 0x205F || n == 0x3000
  }

  /** `\d` and `[0-9]`, restricted to ASCII digits. */
  predicate IsDigit(c: char) {
    '0' <= c <= '9'
  }

  predicate AllDigits(s: seq<char>) {
    forall i | 0 <= i < |s| :: IsDigit(s[i])
  }

  /** `\d+`: a non-empty run of digits. */
  predicate IsDigits(s: seq<char>) {
    |s| > 0 && AllDigits(s)
  }

  /** The case folding `re.IGNORECASE` applies to the ASCII letters of the pattern. */
  function Lower(c: char): char {
    if 'A' <= c <= 'Z' then (c as int + 32) as char else c
  }

  predicate IsLetter(c: char) {
    'a' <= Lower(c) <= 'z'
  }

  /** `[a-z0-9]` under `re.IGNORECASE`. */
  predicate IsAlnum(c: char) {
    IsDigit(c) || IsLetter(c)
  }

  /** `[-_\.]`, the separator class of the pattern. */
  predicate IsSep(c: char) {
    c == '-' || c == '_' || c == '.'
  }

  function LowerAll(s: seq<char>): (r: seq<char>)
    ensures |r| == |s|
    ensures forall i | 0 <= i < |s| :: r[i] == Lower(s[i])
  {
    seq(|s|, i requires 0 <= i < |s| => Lower(s[i]))
  }

  /** Does `w` begin with the lower-case keyword `kw`, ignoring case? */
  predicate StartsWithCI(w: seq<char>, kw: seq<char>) {
    |kw| <= |w| && forall i | 0 <= i < |kw| :: Lower(w[i]) == kw[i]
  }

  /** Length of the longest run of digits at the start of `s` (a greedy `\d*`). */
  function DigitRun(s: seq<char>): (n: nat)
    ensures n <= |s|
    ensures AllDigits(s[..n])
    ensures n < |s| ==> !IsDigit(s[n])
  {
    if |s| == 0 || !IsDigit(s[0]) then 0
    else
      var m := DigitRun(s[1..]);
      assert s[..m + 1] == [s[0]] + s[1..][..m];
      m + 1
  }

  function DigitValue(c: char): nat
    requires IsDigit(c)
  {
    c as int - '0' as int
  }

  function DigitChar(d: nat): char
    requires d < 10
  {
    ('0' as int + d) as char
  }

  /** Python's `int(text)` on a string of ASCII digits. */
  function Value(ds: seq<char>): nat
    requires AllDigits(ds)
  {
    if |ds| == 0 then 0 else Value(ds[..|ds| - 1]) * 10 + DigitValue(ds[|ds| - 1])
  }

  /** Python's `str(n)` on a non-negative integer: its decimal digits, no leading zero. */
  function NatText(n: nat): (r: seq<char>)
    ensures IsDigits(r)
  {
    if n < 10 then [DigitChar(n)] else NatText(n / 10) + [DigitChar(n % 10)]
  }

  /** `int(str(n)) == n`: the decimal rendering reads back as the same number. */
  lemma {:induction false} ValueOfNatText(n: nat)
    ensures Value(NatText(n)) == n
  {
    if n >= 10 {
      var a := NatText(n / 10);
      var r := NatText(n);
      assert r == a + [DigitChar(n % 10)];
      assert r[..|r| - 1] == a;
      ValueOfNatText(n / 10);
    }
  }

  /** Cutting a sequence in two and gluing the halves back. */
  lemma SplitAt<T>(s: seq<T>, i: nat)
    requires i <= |s|
    ensures s[..i] + s[i..] == s
  {
  }

  lemma Assoc<T>(a: seq<T>, b: seq<T>, c: seq<T>)
    ensures a + b + c == a + (b + c)
  {
  }

  /** The two halves of a concatenation. */
  lemma Halves<T>(a: seq<T>, b: seq<T>)
    ensures (a + b)[|a|..] == b && (a + b)[..|a|] == a
    ensures |a| > 0 ==> (a + b)[|a| - 1] == a[|a| - 1]
  {
  }

  /** A slice cut around one of its elements. */
  lemma SliceAround<T>(v: seq<T>, d: nat, e: nat)
    requires d < e <= |v|
    ensures v[..e] == v[..d] + [v[d]] + v[d + 1..e]
  {
    var r := v[..d] + [v[d]] + v[d + 1..e];
    assert |r| == e;
    forall i | 0 <= i < e
      ensures r[i] == v[i]
    {
      if i > d {
        assert r[i] == v[d + 1..e][i - d - 1];
      }
    }
  }

  /** A non-empty sequence is its head followed by its tail. */
  lemma HeadTail<T>(s: seq<T>)
    requires |s| > 0
    ensures [s[0]] + s[1..] == s
  {
  }

  /** Python's `".".join(parts)`. */
  function JoinDots(parts: seq<seq<char>>): seq<char> {
    if |parts| == 0 then []
    else if |parts| == 1 then parts[0]
    else parts[0] + "." + JoinDots(parts[1..])
  }

  /** Joining one-character parts puts a dot between the characters. */
  lemma JoinChars2(a: char, b: char)
    ensures JoinDots([[a], [b]]) == [a, '.', b]
  {
    assert [[a], [b]][1..] == [[b]];
  }

  lemma JoinChars3(a: char, b: char, c: char)
    ensures JoinDots([[a], [b], [c]]) == [a, '.', b, '.', c]
  {
    assert [[a], [b], [c]][1..] == [[b], [c]];
    JoinChars2(b, c);
  }

  /** Text in front of a joined list joins onto its first part. */
  lemma JoinPrefix(p: seq<char>, parts: seq<seq<char>>)
    requires |parts| >= 1
    ensures p + JoinDots(parts) == JoinDots([p + parts[0]] + parts[1..])
  {
    var q := [p + parts[0]] + parts[1..];
    assert q[0] == p + parts[0] && q[1..] == parts[1..];
    if |parts| == 1 {
      assert JoinDots(q) == q[0];
    } else {
      var rest := JoinDots(parts[1..]);
      assert JoinDots(parts) == parts[0] + "." + rest;
      assert JoinDots(q) == q[0] + "." + rest;
      Assoc(p, parts[0] + ".", rest);
      Assoc(p, parts[0], ".");
    }
  }

  /** The joined text starts with the first part, when that is not empty. */
  lemma JoinHead(parts: seq<seq<char>>)
    requires |parts| >= 1 && |parts[0]| > 0
    ensures |JoinDots(parts)| > 0 && JoinDots(parts)[0] == parts[0][0]
  {
    if |parts| > 1 {
      assert JoinDots(parts) == parts[0] + "." + JoinDots(parts[1..]);
    }
  }

  /** `s` holds no '.'. */
  predicate NoDot(s: seq<char>) {
    forall j | 0 <= j < |s| :: s[j] != '.'
  }

  /** Index of the first '.' in `s`, or `|s|` when there is none. */
  function DotIndex(s: seq<char>): (i: nat)
    ensures i <= |s|
    ensures NoDot(s[..i])
    ensures i < |s| ==> s[i] == '.'
  {
    if |s| == 0 then 0
    else if s[0] == '.' then 0
    else
      var j := DotIndex(s[1..]);
      assert s[..j + 1] == [s[0]] + s[1..][..j];
      j + 1
  }

  /** Python's `s.split(".")`: always at least one piece, and no piece holds a '.'. */
  function SplitDots(s: seq<char>): (r: seq<seq<char>>)
    ensures |r| >= 1
    ensures forall i | 0 <= i < |r| :: NoDot(r[i])
    decreases |s|
  {
    var i := DotIndex(s);
    if i == |s| then [s] else [s[..i]] + SplitDots(s[i + 1..])
  }

  /** Splitting and joining are inverse: `".".join(s.split(".")) == s`. */
  lemma {:induction false} JoinSplitDots(s: seq<char>)
    ensures JoinDots(SplitDots(s)) == s
    decreases |s|
  {
    var i := DotIndex(s);
    if i == |s| {
      assert s[..i] == s;
      assert SplitDots(s) == [s];
    } else {
      var tail := s[i + 1..];
      var rest := SplitDots(tail);
      JoinSplitDots(tail);
      var parts := SplitDots(s);
      assert parts == [s[..i]] + rest;
      assert |parts| >= 2 && parts[0] == s[..i] && parts[1..] == rest;
      assert JoinDots(parts) == s[..i] + "." + JoinDots(rest);
      assert s == s[..i] + "." + tail;
    }
  }

  /** Joining dot-free pieces and splitting again gives the same pieces back. */
  lemma {:induction false} SplitJoinDots(parts: seq<seq<char>>)
    requires |parts| >= 1
    requires forall i | 0 <= i < |parts| :: NoDot(parts[i])
    ensures SplitDots(JoinDots(parts)) == parts
  {
    var s := JoinDots(parts);
    if |parts| == 1 {
      DotFreeIndex(parts[0]);
    } else {
      var rest := JoinDots(parts[1..]);
      assert s == parts[0] + "." + rest;
      DotFreePrefixIndex(parts[0], rest);
      assert s[..|parts[0]|] == parts[0];
      assert s[|parts[0]| + 1..] == rest;
      SplitJoinDots(parts[1..]);
      assert parts == [parts[0]] + parts[1..];
    }
  }

  lemma DotFreeIndex(p: seq<char>)
    requires NoDot(p)
    ensures DotIndex(p) == |p|
  {
    var i := DotIndex(p);
    assert !DotAt(p, i);
  }

  /** `s` has a '.' at index `i`. */
  predicate DotAt(s: seq<char>, i: nat) {
    i < |s| && s[i] == '.'
  }

  lemma DotFreePrefixIndex(p: seq<char>, rest: seq<char>)
    requires NoDot(p)
    ensures DotIndex(p + "." + rest) == |p|
  {
    var s := p + "." + rest;
    var i := DotIndex(s);
    assert forall k | 0 <= k < |p| :: s[k] == p[k];
    assert s[|p|] == '.';
    assert forall k | 0 <= k < i :: s[..i][k] == s[k];
  }

  /** Length of the maximal run of whitespace at the start of `s` (the greedy `^\s*`). */
  function LeadingSpaces(s: seq<char>): (n: nat)
    ensures n <= |s|
    ensures forall i | 0 <= i < n :: IsSpace(s[i])
    ensures n < |s| ==> !IsSpace(s[n])
  {
    if |s| == 0 || !IsSpace(s[0]) then 0 else LeadingSpaces(s[1..]) + 1
  }

  /** Length of the maximal run of whitespace at the end of `s` (the `\s*$`). */
  function TrailingSpaces(s: seq<char>): (n: nat)
    ensures n <= |s|
    ensures forall i | |s| - n <= i < |s| :: IsSpace(s[i])
    ensures n < |s| ==> !IsSpace(s[|s| - n - 1])
  {
    if |s| == 0 || !IsSpace(s[|s| - 1]) then 0 else TrailingSpaces(s[..|s| - 1]) + 1
  }

  /** Where the text between the anchoring whitespace starts. */
  function Lo(s: seq<char>): nat {
    LeadingSpaces(s)
  }

  /** Where the text between the anchoring whitespace ends. */
  function Hi(s: seq<char>): (hi: nat)
    ensures Lo(s) <= hi <= |s|
  {
    |s| - TrailingSpaces(s[Lo(s)..])
  }

  /** The text between the anchoring whitespace: `s.strip()` for Python's notion of space. */
  function Strip(s: seq<char>): seq<char> {
    s[Lo(s)..Hi(s)]
  }

  predicate AllSpace(w: seq<char>) {
    forall i | 0 <= i < |w| :: IsSpace(w[i])
  }

  /** Whitespace around a text that neither starts nor ends with whitespace is exactly what
      `Strip` removes. */
  lemma StripPadded(w1: seq<char>, t: seq<char>, w2: seq<char>)
    requires AllSpace(w1) && AllSpace(w2)
    requires |t| > 0 && !IsSpace(t[0]) && !IsSpace(t[|t| - 1])
    ensures Strip(w1 + t + w2) == t
  {
    var s := w1 + t + w2;
    var lo := LeadingSpaces(s);
    assert forall k | 0 <= k < |w1| :: s[k] == w1[k];
    assert s[|w1|] == t[0];
    assert lo == |w1|;
    var u := s[lo..];
    assert u == t + w2;
    var n := TrailingSpaces(u);
    assert forall k | |t| <= k < |u| :: u[k] == w2[k - |t|];
    assert u[|t| - 1] == t[|t| - 1];
    assert n == |w2|;
    assert s[|w1|..|s| - |w2|] == t;
  }

  /** `Strip` leaves unchanged a text that neither starts nor ends with whitespace. */
  lemma StripPlain(t: seq<char>)
    requires |t| > 0 && !IsSpace(t[0]) && !IsSpace(t[|t| - 1])
    ensures Strip(t) == t
  {
    StripPadded([], t, []);
    assert [] + t + [] == t;
  }

  /** `Strip` leaves unchanged a text without whitespace. */
  lemma StripNoSpace(t: seq<char>)
    requires forall i | 0 <= i < |t| :: !IsSpace(t[i])
    ensures Strip(t) == t
  {
    if |t| > 0 {
      StripPlain(t);
    }
  }
}

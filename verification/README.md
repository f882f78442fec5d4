# Semver specifiers of slap, in Dafny

This project models the semver specifier of `slap.core.semver`: the class `SemverSpecifier`
that reads texts such as `1.x`, `^1.2.3`, `~1.0.4.dev1`, `1!^10.2.3` or `*`. It covers:

- the regular expression that recognises them, an optional epoch `N!`, an operator `^`, `~` or
  `*`, and either a release with its pre/post/dev/local parts or a placeholder of one to three
  numbers or `x`;
- construction, which picks one of three selectors: any version, a placeholder, or a
  `packaging` version with a mode;
- each selector's `__str__`, `__eq__`, `spec` pair and `canonical` form;
- `_format_epoch`, `_canonical_spec`, and `version_replace_fields` of `utils.py`.

Modules, in dependency order:

| module | file | what it holds |
|---|---|---|
| `Results` | results.dfy | `Option` and `Result` |
| `Text` | text.dfy | characters, digit strings and their values, splitting and joining at dots, the `\s*` trim |
| `Suffix` | suffix.dfy | the `remainder` group (pre-, post-, dev-release and local parts) as a scanner, with a reference grammar |
| `Grammar` | grammar.dfy | the whole pattern: a recogniser `Match` and the reference predicate `Legal` of the groups a match may have |
| `Pep440` | version.dfy | `packaging.version.Version` as a record, and the `Oracle` for what `packaging` computes |
| `Selectors` | selector.dfy | the three version selectors, the mode, `_format_epoch`, `canonical`, `spec`, `__str__`, `__eq__` |
| `Specifiers` | specifier.dfy | construction (`Parse`), `_canonical_spec`, and the round trips between text and selector |
| `Outcomes` | outcomes.dfy | why the pattern refuses or accepts a text, in terms of the two version alternatives |
| `Rows` | tables.dfy | the rows of the specifier tests, each a consequence of the general lemmas |

`Match` returns the four groups `epoch`, `operator`, `version` and `placeholder`, or `None`.
`MatchIff` proves it equal to the declarative grammar `Legal`/`Spelled`, in both directions.
That grammar is where the look-arounds live:
- an epoch is never followed by `*`;
- after `*` the version is empty;
- a placeholder comes only without an operator.

`Parse` is construction: `InvalidSpecifier` when there is no match, `ValueError` for a
placeholder piece `X`, and otherwise the spec pair and the selector.

`packaging` is not part of this model. The `Oracle` stands for it: `canonicalize_version`, the
spelling of a non-empty pre/post/dev/local part in `str(Version)`, and `Version.__eq__`.
Lemmas that depend on how it behaves say so in a `requires`.

## Model

| member | source | states |
|---|---|---|
| Grammar.MatchIff | src/slap/core/semver/specifier.py:172-212 | the anchored pattern matches a text with given groups exactly when the trimmed text is the groups spelled in order and the groups are legal: epoch not before `*`, nothing after `*`, a placeholder only without operator and only when the release alternative fails |
| Grammar.VersionGroupIff | src/slap/core/semver/specifier.py:177-211 | the version group takes the release alternative when it matches all of the body and else the placeholder, which the look-behind refuses after `^`, `~` or `*` |
| Grammar.ReleaseBodyIff | src/slap/core/semver/specifier.py:185-202 | the greedy recogniser of `final` plus `remainder` accepts a body exactly when it is one to three digit strings followed by a well-formed tail |
| Grammar.PlaceholderBodyIff | src/slap/core/semver/specifier.py:207 | cutting at the dots and checking each piece accepts exactly the one to three pieces of digits or `x` joined by dots |
| Grammar.WildcardNotRelease | src/slap/core/semver/specifier.py:185 | a placeholder with an `x` piece is never a release, so the placeholder group is set for it |
| Grammar.SpelledChars | src/slap/core/semver/specifier.py:172-212 | every character of a match is a tail character, `!` or an operator glyph, and a `*` in it is the operator |
| Grammar.LegalUnpadded | src/slap/core/semver/specifier.py:260 | the text of a match has no surrounding white space, so `\s*` on both ends takes exactly the padding |
| Suffix.ParseTail | src/slap/core/semver/specifier.py:188-202 | whatever the scanner reads spells the tail back and is in pre, post, dev, local order |
| Suffix.ParseTailComplete | src/slap/core/semver/specifier.py:188-202 | every well-formed sequence of pre/post/dev/local pieces, spelled out, is read by the scanner |
| Suffix.PublicTailChars | src/slap/core/semver/specifier.py:189-199 | a tail without a local part holds only digits, separators and letters of the keywords |
| Text.ValueOfNatText | src/slap/core/semver/specifier.py:69 | `int` of the decimal spelling of a number is that number |
| Text.JoinSplitDots | src/slap/core/semver/specifier.py:69 | joining the pieces of `split(".")` with dots gives the text back |
| Text.SplitJoinDots | src/slap/core/semver/specifier.py:86 | splitting a dot-join of dot-free pieces gives the pieces back |
| Text.StripPadded | src/slap/core/semver/specifier.py:260 | white space on both sides of a text without outer white space is what `\s*` takes |
| Pep440.ReplaceFields | src/slap/core/semver/utils.py:6-9 | replacing fields keeps the pre/post/dev/local part; a replaced epoch or release takes the given value, and one not replaced is kept |
| Pep440.ZeroEpochText | src/slap/core/semver/specifier.py:137-141 | setting the epoch to 0 removes exactly the epoch's spelling from the version text |
| Selectors.FormatEpochReads | src/slap/core/semver/specifier.py:17-18 | `_format_epoch` is empty exactly for no epoch or epoch 0, and otherwise digits and `!` that read back as the epoch |
| Selectors.ModeGlyph | src/slap/core/semver/specifier.py:118-121 | `Mode(op)` succeeds exactly for `^`, `~` and the empty operator, and gives the mode whose value is `op` |
| Selectors.SpecStr | src/slap/core/semver/specifier.py:112-114 | the spec pair joined is `__str__` for any and placeholder selectors, and for packaging selectors once the epoch moves from before the operator into the version |
| Selectors.CanonicalFails | src/slap/core/semver/specifier.py:97-103 | `canonical` fails (the version `x.0.0` or `x.y.0` is invalid) exactly for placeholders of two or three pieces that start and end with `x` |
| Selectors.MinorFolding | src/slap/core/semver/specifier.py:97-103 | `N.x`, `N.x.x` and bare `N` all have the canonical form `^N.0.0`, with the epoch kept |
| Selectors.PatchFolding | src/slap/core/semver/specifier.py:104-108 | `N.M.x` and bare `N.M` both have the canonical form `~N.M.0`, with the epoch kept |
| Selectors.ShortReleasePadding | src/slap/core/semver/specifier.py:146-159 | a bare version of one number becomes a `^` range, and one of two numbers whose public text has two pieces a `~` range; the release is padded with zeros to three numbers, and the epoch and the pre/post/dev/local part are kept |
| Selectors.CanonicalVersionText | src/slap/core/semver/specifier.py:101-108 | the version a placeholder folds to is spelled as the epoch and three numbers joined by dots |
| Selectors.CanonicalStable | src/slap/core/semver/specifier.py:143-163 | when `canonicalize_version` keeps a version's value, a canonical selector is canonical again up to `__eq__`, except a bare exact version; any and kept placeholders are fixed points |
| Selectors.BareVersionRecanonical | src/slap/core/semver/specifier.py:161-163 | a three-number bare version that `canonicalize_version` shortens to one number is canonical as a bare version, but its canonical form then folds again to a `^` range |
| Selectors.SameFacts | src/slap/core/semver/specifier.py:76-80 | `__eq__` is reflexive, never equates selectors of different kinds, and on placeholders and any is plain equality |
| Selectors.ZeroEpochDistinct | src/slap/core/semver/specifier.py:76-86 | a placeholder with epoch 0 prints like one without an epoch, yet `__eq__` tells them apart |
| Selectors.SameSymmetric | src/slap/core/semver/specifier.py:128-132 | `__eq__` is symmetric when `Version.__eq__` is |
| Selectors.SameTransitive | src/slap/core/semver/specifier.py:128-132 | `__eq__` is transitive when `Version.__eq__` is, so with reflexivity and symmetry an equivalence |
| Selectors.ExactTrailingZerosWiden | src/slap/core/semver/specifier.py:161-163 | with `canonicalize_version` dropping trailing zeros, the exact version `1.0.0` has the canonical form exact `1`, whose own canonical form is the range `^1.0.0` |
| Selectors.CanonicalExactKeeps | src/slap/core/semver/specifier.py:143-163 | with the exact-version branch padding the dropped zeros back, a bare version of three or more numbers is its own canonical form |
| Selectors.CanonicalExactElsewhere | src/slap/core/semver/specifier.py:88-110 | the corrected branch changes nothing for any, placeholder, `^` and `~` selectors |
| Specifiers.SelectorOfLegal | src/slap/core/semver/specifier.py:226-243 | construction from legal groups fails only with `ValueError`, and exactly when a placeholder piece is `X` |
| Specifiers.ParseErrors | src/slap/core/semver/specifier.py:214-243 | `InvalidSpecifier` exactly when the pattern does not match, `ValueError` exactly for a matched placeholder with a piece `X`, and no other error |
| Specifiers.ParseAny | src/slap/core/semver/specifier.py:235-237 | construction gives the any-selector exactly for `*`, with the spec pair `("*", "")` |
| Specifiers.WildcardAlone | src/slap/core/semver/specifier.py:175-183 | a specifier that contains `*` and constructs is `*` alone |
| Specifiers.OperatorRejectsPlaceholder | src/slap/core/semver/specifier.py:204-206 | an operator in front of a text that only the placeholder alternative matches makes the specifier invalid |
| Specifiers.EpochAfterGlyphRejected | src/slap/core/semver/specifier.py:175-176 | a text that starts with `^` or `~` and holds a `!` later is invalid: the epoch goes first |
| Specifiers.ParseRelease | src/slap/core/semver/specifier.py:238-242 | an epoch, an operator and a release construct a packaging selector with that mode, the epoch's value, the release's numbers and its tail, and the spec pair is the operator and the rest |
| Specifiers.ParsePlaceholder | src/slap/core/semver/specifier.py:226-232 | a placeholder with a wildcard constructs exactly when no piece is `X`; then the spec pair is `("", text)`, the epoch is read, and each piece is `x` or the number it spells |
| Specifiers.StrRoundTrip | src/slap/core/semver/specifier.py:214-243 | constructing from a selector's `__str__` gives the selector back, with its spec pair, for any selector, a placeholder of one to three pieces with a wildcard and an epoch other than 0, and a packaging selector of one to three numbers |
| Specifiers.PlaceholderRoundTrip | src/slap/core/semver/specifier.py:85-86 | the round trip for placeholders of one to three pieces with a wildcard and an epoch other than 0 |
| Specifiers.PackagingRoundTrip | src/slap/core/semver/specifier.py:137-141 | the round trip for packaging selectors of one to three numbers, in every mode |
| Specifiers.ZeroEpochPlaceholder | src/slap/core/semver/specifier.py:17-18 | a placeholder with epoch 0 reads back as one without an epoch, which `__eq__` tells apart from the original |
| Specifiers.CanonicalRoundTrips | src/slap/core/semver/specifier.py:88-110 | the canonical form of a selector that survives the round trip survives it too, provided `canonicalize_version` keeps a packaging selector's version within the round trip |
| Specifiers.CanonicalTextJoined | src/slap/core/semver/specifier.py:268-270 | without an epoch on a packaging result, the joined canonical spec pair is the canonical selector's `__str__` |
| Specifiers.JoinedSpecRejected | src/slap/core/semver/specifier.py:165-167 | for a `^` or `~` selector with a nonzero epoch, the joined spec pair is refused by the pattern, although `__str__` reads back |
| Specifiers.CanonicalTextReparses | src/slap/core/semver/specifier.py:268-270 | the canonical selector's `__str__` constructs a specifier whose spec pair is the canonical spec and whose selector is the canonical selector |
| Specifiers.FoldedParseErrors | src/slap/core/semver/specifier.py:67-72 | with the wildcard read without regard to case, every match constructs; where construction succeeds the two agree, and upper-case pieces read as wildcards |
| Specifiers.FoldedPlaceholder | src/slap/core/semver/specifier.py:226-232 | folding an upper-case wildcard gives a placeholder that reads the lower-cased pieces, and changes nothing without one |
| Outcomes.PlainBodyIff | src/slap/core/semver/specifier.py:177-211 | a text with no `!` and no leading operator is invalid exactly when neither the release nor the placeholder alternative matches it |
| Outcomes.OperatorBodyIff | src/slap/core/semver/specifier.py:204-206 | a text starting with `^` or `~` is invalid exactly when the rest is not a release |
| Outcomes.StarRejected | src/slap/core/semver/specifier.py:175-183 | a `*` anywhere in a text other than `*` makes it invalid |
| Outcomes.ReleaseAccepted | src/slap/core/semver/specifier.py:238-242 | an optional epoch, an optional `^`/`~` and a release construct a packaging selector with that mode and spec pair |
| Outcomes.NotReleaseStart | src/slap/core/semver/specifier.py:185 | a release starts with a digit |
| Outcomes.NotReleaseLetter | src/slap/core/semver/specifier.py:188-202 | a release without local part holds only digits, separators and keyword letters |
| Outcomes.NotReleaseDots | src/slap/core/semver/specifier.py:185 | a text of digits and dots is a release only as one to three numbers |
| Outcomes.NotPlaceholder | src/slap/core/semver/specifier.py:207 | a text is a placeholder exactly when its dot-separated pieces are one to three numbers or `x` |
| Rows.RejectsPlaceholderDev | tests/test_specifier.py:36 | `x.dev1` is invalid |
| Rows.RejectsPlaceholderLocal | tests/test_specifier.py:37 | `x.x+foobar` is invalid |
| Rows.RejectsPlaceholderPost | tests/test_specifier.py:38 | `x.x.x.post1` is invalid |
| Rows.RejectsCaretPlaceholder | tests/test_specifier.py:40 | `^x.42` is invalid |
| Rows.RejectsTildePlaceholder | tests/test_specifier.py:41 | `~1.x.x` is invalid |
| Rows.RejectsCaretWildcard | tests/test_specifier.py:42 | `^x` is invalid |
| Rows.RejectsStarPlaceholder | tests/test_specifier.py:43 | `*x` is invalid |
| Rows.RejectsStrayLetter | tests/test_specifier.py:45 | `1.0.y` is invalid |
| Rows.RejectsJoinedBadFormats | tests/test_specifier.py:46-48 | the three strings, written without commas and so one string `1.0.xx1.0.1..0.0`, are invalid |
| Rows.RejectsDoubleWildcard | tests/test_specifier.py:46 | `1.0.xx` is invalid |
| Rows.RejectsTrailingDot | tests/test_specifier.py:47 | `1.0.` is invalid |
| Rows.RejectsEmptyNumber | tests/test_specifier.py:48 | `1..0.0` is invalid |
| Rows.RejectsEpochStar | tests/test_specifier.py:76 | `1!*` is invalid |
| Rows.RejectsStarMajor | tests/test_specifier.py:78 | `*1` is invalid |
| Rows.RejectsStarVersion | tests/test_specifier.py:79 | `*1.0.0` is invalid |
| Rows.RejectsFourNumbers | src/slap/core/semver/specifier.py:185 | `1.2.3.4` is invalid: four numbers are neither a release nor a placeholder |
| Rows.AcceptsMinorPlaceholder | tests/test_specifier.py:22 | `42.x` constructs a placeholder of two pieces with the spec pair `("", "42.x")` |
| Rows.AcceptsEpochPlaceholder | tests/test_specifier.py:13 | `1!x.x.x` constructs a placeholder of three pieces with an epoch |
| Rows.AcceptsEpochCaret | tests/test_specifier.py:58 | `1!^10.2.3` constructs a `^` packaging selector |
| Rows.AcceptsTildeRelease | tests/test_specifier.py:59 | `~11.2.3` constructs a `~` packaging selector with the spec pair `("~", "11.2.3")` |
| Rows.UpperWildcard | src/slap/core/semver/specifier.py:67-72 | `X` is accepted by the pattern and refused by construction with `ValueError`; read without regard to case it is the lone wildcard |
| Rows.SpelledCanonical | src/slap/core/semver/specifier.py:268-270 | a specifier constructed from a selector's `__str__` has the canonical selector's spec pair as canonical spec and its `__str__` as canonical text |
| Rows.CanonicalAny | tests/test_specifier.py:88 | `*` has the canonical spec `("*", "")` |
| Rows.CanonicalMajorWildcard | tests/test_specifier.py:89 | `x` has the canonical spec `("*", "")` |
| Rows.CanonicalBareMajor | tests/test_specifier.py:91 | `1` has the canonical spec `("^", "1.0.0")` |
| Rows.CanonicalEpochBareMajor | tests/test_specifier.py:92 | `1!1` has the canonical spec `("^", "1!1.0.0")`, whose join the pattern refuses, and the canonical text `1!^1.0.0` |
| Rows.CanonicalMinorWildcard | tests/test_specifier.py:93 | `1.x` has the canonical spec `("^", "1.0.0")` |
| Rows.CanonicalEpochMinorWildcard | tests/test_specifier.py:94 | `1!1.x` has the canonical spec `("^", "1!1.0.0")`, whose join the pattern refuses, and the canonical text `1!^1.0.0` |
| Rows.CanonicalCaretKept | tests/test_specifier.py:95 | `^1.0.4` has the canonical spec `("^", "1.0.4")` when `canonicalize_version` keeps 1.0.4 |
| Rows.CanonicalEpochCaretKept | tests/test_specifier.py:96 | `1!^1.0.4` has the canonical spec `("^", "1!1.0.4")`, whose join the pattern refuses, and the canonical text `1!^1.0.4` |
| Rows.CanonicalBareMinor | tests/test_specifier.py:98 | `1.0` has the canonical spec `("~", "1.0.0")` |
| Rows.CanonicalPatchWildcard | tests/test_specifier.py:99 | `1.0.x` has the canonical spec `("~", "1.0.0")` |
| Rows.CanonicalTildeKept | tests/test_specifier.py:100 | `~1.0.4` has the canonical spec `("~", "1.0.4")` when `canonicalize_version` keeps 1.0.4 |
| Rows.CanonicalExactKept | tests/test_specifier.py:102 | `1.0.4` has the canonical spec `("", "1.0.4")` when `canonicalize_version` keeps 1.0.4 |
| Rows.CanonicalExactTrailingZeros | src/slap/core/semver/specifier.py:268-270 | with `canonicalize_version` dropping trailing zeros, `1.0.0` has the canonical spec `("", "1")`, and the text `1` has the canonical spec `("^", "1.0.0")` |
| Rows.CanonicalDoubleWildcard | tests/test_specifier.py:105 | `1.x.x` has the canonical spec `("^", "1.0.0")` |
| Rows.CanonicalInnerWildcard | tests/test_specifier.py:106 | `1.x.1` has the canonical spec `("", "1.x.1")` |
| Rows.CanonicalLeadingWildcard | tests/test_specifier.py:107 | `x.1.0` has the canonical spec `("", "x.1.0")` |
| Rows.CanonicalEpochLeadingWildcard | tests/test_specifier.py:108 | `1!x.1.0` has the canonical spec `("", "1!x.1.0")` |

## Left out

- Grammar.Match: `\d` is the ASCII digits and IGNORECASE folds only ASCII letters. Python's `re` on a str pattern also takes every Unicode decimal digit for `\d`, and `int()` reads it, so `"١.x"` is a placeholder there and invalid here. It also matches `ſ`, the Kelvin sign, `ı` and `İ` against `[a-z]`, so `"1.0+ſ"` has a local part there and no match here. Unicode character classes are not modelled.
- Text.IsDigit: ASCII `0`-`9` only, for the reason above.
- Text.Lower: ASCII case folding only, for the reason above.
- `packaging` itself: `canonicalize_version`, the spelling of a non-empty pre/post/dev/local part in `str(Version)` and `Version.__eq__` are the fields of the `Oracle`. A packaging selector's version keeps its pre/post/dev/local part as written, not normalised.
- Pep440.ReplaceFields: a record update. `version_replace_fields` copies the version, replaces fields of its internal tuple and re-reads `str()` of the result, which spells the same version again.
- Specifiers.StrRoundTrip: stated only for packaging versions without a pre/post/dev/local part, because the spelling of such a part comes from the `Oracle`.
- Specifiers.PackagingRoundTrip: the same restriction, for the same reason.
- Rows.AcceptsEpochCaret: states the kind and the mode of the selector but not the numbers read. The same goes for the other `Accepts` rows; `ParseRelease` and `ParsePlaceholder` state the numbers in general.
- Rows.CanonicalCaretKept: needs `canonicalize_version` to keep the version, and so do the other `Kept` rows, because that function is part of the `Oracle`.
- Selectors.ExactTrailingZerosWiden: assumes the law `CanonicalizeStripsZeros`, that `canonicalize_version` of a version without pre/post/dev/local part drops the trailing zeros of its release and keeps at least one number. That is how `packaging` writes it, but `packaging` is not part of this model. `Selectors.CanonicalExactKeeps` and `Rows.CanonicalExactTrailingZeros` rest on the same law.
- The canonical row `("1.0.4.dev1", "1.0.4.dev1")` (tests/test_specifier.py:103): its answer is how `packaging` spells and canonicalises a development release, which the `Oracle` leaves open.
- The accepted rows with pre/post/dev/local parts (tests/test_specifier.py:60-68) and the remaining accepted placeholder rows (tests/test_specifier.py:9-28): the general lemmas `ParseRelease`, `ParsePlaceholder` and `ParseTailComplete` cover them. Only a sample is stated row by row.
- `__repr__`, `__hash__`, the `version_selector` property, the `_operators` table, the `prereleases` argument and the `_compare_minor`/`_compare_patch`/`_compare_placeholder` stubs, which only raise `NotImplementedError`. The rest of `packaging.specifiers._IndividualSpecifier` is not part of this model; of it, only the regex search that raises `InvalidSpecifier` and the `(operator, version)` spec pair are modelled.
- The `assert`s of construction (specifier.py:219, 236) are proved instead: a match exists whenever construction gets that far, and `*` never has an epoch (`Grammar.MatchIff`).

## Findings

| source | as written | input that shows it | evidently intended | confidence | as-written member | corrected member |
|---|---|---|---|---|---|---|
| src/slap/core/semver/specifier.py:268-270 | `_canonical_spec` is the canonical selector's `spec`, which for a packaging selector is `(mode.value, str(version))`, with the epoch inside the version text (specifier.py:165-167) | `1!1`: the pair is `("^", "1!1.0.0")`, joined `^1!1.0.0`, which the pattern refuses | `1!^1.0.0`, the canonical selector's `__str__`, as the table at tests/test_specifier.py:92, 94, 96 expects | not executed; high | Specifiers.JoinedSpecRejected | Specifiers.CanonicalTextReparses |
| src/slap/core/semver/specifier.py:67-72 | the pattern is compiled with IGNORECASE (specifier.py:260), so `X` passes as a placeholder piece; construction compares pieces with `"x"` and calls `int("X")`, which raises `ValueError` instead of `InvalidSpecifier` | `X` (also `1.X`) | an upper-case wildcard read as the wildcard, as the pattern accepts it | not executed; medium | Rows.UpperWildcard | Specifiers.FoldedParseErrors |
| src/slap/core/semver/specifier.py:161-163 | an exact version goes through `canonicalize_version`, which drops the trailing zeros of the release, so the canonical form of exact `1.0.0` is exact `1` | `1.0.0`: the canonical spec is `("", "1")`, joined `1`, which reads as a bare major version whose canonical spec is `("^", "1.0.0")`, a range instead of one version | the exact version keeps its three numbers, `1.0.0`, as exact `1.0.4` does at tests/test_specifier.py:102 | not executed; medium, since it depends on `canonicalize_version` dropping trailing zeros, as `packaging`'s does | Selectors.ExactTrailingZerosWiden | Selectors.CanonicalExactKeeps |

For the first row, the table rows `Rows.CanonicalEpochBareMajor`, `Rows.CanonicalEpochMinorWildcard` and
`Rows.CanonicalEpochCaretKept` exhibit the discrepancy and state the intended text `CanonicalText`.
For the second, `ParseFolded` is construction with the wildcard read without regard to case. By
`FoldedParseErrors` it agrees with `Parse` wherever `Parse` succeeds, so every property proved
of `Parse` on a successful construction holds of it as well.
For the third, `Rows.CanonicalExactTrailingZeros` follows `1.0.0` through `_canonical_spec` and
reads the result back. `CanonicalExact` is `canonical` with the zeros that `canonicalize_version`
dropped padded back.

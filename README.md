# versioning-tool core, modelled in Dafny

The versioning tool works out the next semantic version of a project. It reads
the project's current `major.minor.patch` version and classifies the commit
messages since the last release. This project models the two parts of the tool
that contain real logic, and proves properties of them:

- **the version triple** of `src/version.rs`: the `Version` struct of three
  `u32` fields, its `Display` rendering, its `FromStr` parser, and
  `get_next_number`, which `FromStr` calls three times to read one
  dot-delimited number. `src/main.rs` contains a second copy of the struct, the
  parser and the reader. That copy is written out too and proved to behave
  identically on every text.
- **the commit classifier** `calculate_version_type` of
  `src/version_calculator.rs`. It makes one pass with three counters, then
  picks the most severe bump.

Files:

| file | module | models |
|---|---|---|
| `wrappers.dfy` | `Wrappers` | Rust's `Option` |
| `numerals.dfy` | `Numerals` | `u32`; `str::parse::<u32>`; `{}` for unsigned integers |
| `version.dfy` | `Versions` | `src/version.rs` |
| `main_version.dfy` | `CliVersion` | `src/main.rs` lines 73-117 |
| `version_calculator.dfy` | `VersionCalculator` | `src/version_calculator.rs` |

Rust's `str::parse::<u32>` is modelled as `Numerals.ParseU32`. It accepts an
optional `+` followed by one or more ASCII digits whose value is at most
4294967295. The empty string, a sign on its own, `-`, any other character, and
overflow are all rejected. As a result, leading zeros are accepted (`"01.2.3"`
is 1.2.3).

The parser has an independent reference definition. `Versions.Segments`
splits a text at every `.`, one character at a time.
`Versions.FromStrMatchesSegments` proves the following for every text. The
three `get_next_number` steps succeed exactly when there are at least three
segments and the first three are `u32` numerals, and the result is their
values. Every property of the parser below follows from that lemma.

The classifier is a method whose loop keeps three invariants:
- the major counter is 0;
- the minor counter is the number of `feat` messages seen so far;
- the minor and patch counters add up to the number of messages seen.

Its result is proved equal to `Classification`, the pure statement "`Minor`
if some message starts with `feat`, otherwise `Patch`".

### Behaviour of the code worth knowing

- The parser ignores anything after the `.` that follows the patch number
  (`let (patch, _)`), so `"1.2.3.4"` and `"1.2.3."` parse as 1.2.3
  (`Versions.TrailingIgnored`, `Versions.ExampleFourSegments`,
  `Versions.ExampleTrailingDot`).
- Only the `feat` prefix is recognised and `num_major` is never incremented,
  so `Major` is never returned (`VersionCalculator.CalculateVersionType`).
- The source contains no code that computes the next version from a bump
  kind.

## Model

| member | source | states |
|---|---|---|
| `Versions.Format` | src/version.rs:13-22 | the rendering has exactly two dots and three segments; each segment is a canonical decimal numeral (no leading zero unless it is `0`) whose value is `major`, `minor` and `patch` respectively |
| `Versions.Version` | src/version.rs:7-11 | the triple of three `u32` fields (a datatype; its field type `U32` holds exactly 0..4294967295) |
| `Versions.FromStr` | src/version.rs:27-37 | three chained `get_next_number` calls, the third remainder discarded; its contract is carried by `Versions.FromStrMatchesSegments` |
| `Versions.FindDot` | src/version.rs:51-60 | the character search returns the index of the first `.` at or after the start, and returns `None` exactly when no `.` remains; so once line 44 has found a `.`, `Versions.TrailingReturnUnreachable` draws the consequence |
| `Versions.TrailingReturnUnreachable` | src/version.rs:44-60 | when the text contains a `.`, the search from index 0 finds one, so the trailing `return None` is never reached |
| `Versions.GetNextNumber` | src/version.rs:43-61 | with no `.`, the whole text must parse as a `u32` and the rest is `""`; on success with a `.`, the number is the value of the text before the first `.` and the rest is exactly the text after it, so the rest is strictly shorter than the input |
| `Versions.GetNextNumberSegments` | src/version.rs:43-61 | one `get_next_number` step succeeds exactly when the first segment parses; it yields that segment's value and leaves the remaining segments (or `""` when there was only one) |
| `Versions.FromStrMatchesSegments` | src/version.rs:27-37 | for every text, `FromStr` succeeds exactly when there are at least three `.`-separated segments and the first three parse as `u32`, and it returns their values |
| `Versions.RoundTrip` | src/version.rs:13-37 | every `Version` formatted and then parsed gives back the same `Version` |
| `Versions.CanonicalUnique` | src/version.rs:20 | a canonical numeral is the only rendering of its value |
| `Versions.TooFewSegments` | src/version.rs:28-30 | a text with fewer than two dots (fewer than three segments, e.g. `"1.2"`) fails to parse |
| `Versions.EmptySegment` | src/version.rs:44-55 | if any of the first three segments is empty, the parse fails |
| `Versions.OverflowingSegment` | src/version.rs:45-53 | if one of the first three segments is a numeral above `u32::MAX`, the whole parse fails |
| `Versions.TrailingIgnored` | src/version.rs:30 | `a.b.c.t` parses exactly as `a.b.c` does, whatever follows the third dot |
| `Versions.LeadingZeroMajor` | src/version.rs:28-45 | a leading zero added to a non-empty numeric major number leaves the result of `FromStr` unchanged |
| `Versions.LeadingZeroMinor` | src/version.rs:29-53 | a leading zero added to a non-empty numeric minor number leaves the result of `FromStr` unchanged |
| `Versions.LeadingZeroPatch` | src/version.rs:30-53 | a leading zero added to a non-empty numeric patch number leaves the result of `FromStr` unchanged, whether the patch number ends the text or is followed by a `.` |
| `Versions.ThreeSegments` | src/version.rs:27-37 | a text `a.b.c` of three `u32` numerals parses to their values |
| `Versions.ExampleExact` | src/version.rs:27-37 | `"1.2.3"` parses to 1.2.3 |
| `Versions.ExampleFourSegments` | src/version.rs:30 | `"1.2.3.4"` parses to 1.2.3 |
| `Versions.ExampleTrailingDot` | src/version.rs:30 | `"1.2.3."` parses to 1.2.3 |
| `Versions.ExampleLeadingZeroMajor` | src/version.rs:53 | `"01.2.3"` parses to 1.2.3 |
| `Versions.ExampleLeadingZeroMinor` | src/version.rs:53 | `"1.02.3"` parses to 1.2.3 |
| `Versions.ExampleTooFew` | src/version.rs:28-30 | `"1.2"` and `""` fail to parse |
| `Versions.ExampleEmptySegment` | src/version.rs:51-55 | `".1.2"` and `"1..3"` fail to parse |
| `Versions.ExampleNegative` | src/version.rs:53 | `"-1.2.3"` fails to parse |
| `Versions.ExampleOverflow` | src/version.rs:53 | `"4294967296.0.0"` fails to parse |
| `Numerals.ToDecimal` | src/version.rs:20 | `{}` of an unsigned number is a canonical decimal numeral denoting that number |
| `Numerals.ParseU32` | src/version.rs:45 | a successful `parse::<u32>` was given a non-empty text with no `.` and no `-`, and returns the value of its digits once an optional `+` is dropped |
| `Numerals.ParseToDecimal` | src/version.rs:20-45 | parsing the rendering of any `u32` gives the number back |
| `Numerals.DigitsValueLeadingZero` | src/version.rs:53 | a leading `0` does not change the value of a digit string |
| `Numerals.ParseLeadingZero` | src/version.rs:53 | leading zeros are accepted by `parse::<u32>` and do not change the result |
| `Numerals.ParsePlusSign` | src/version.rs:53 | a leading `+` is accepted and ignored; `"+"` alone is rejected |
| `Numerals.ParseOverflow` | src/version.rs:53 | a digit string whose value exceeds 4294967295 is rejected |
| `CliVersion.Version` | src/main.rs:74-78 | the second triple of three `u32` fields; `CliVersion.AsLibrary` maps it field by field to `Versions.Version` |
| `CliVersion.FindDot` | src/main.rs:104-111 | a found index is in bounds and holds a `.`; that it is the first one is carried by `CliVersion.FindDotAgrees` |
| `CliVersion.GetNextNumber` | src/main.rs:96-114 | the second `get_next_number`; its contract is carried by `CliVersion.GetNextNumberAgrees` and `CliVersion.GetNextNumberSuffix` |
| `CliVersion.FromStr` | src/main.rs:83-93 | the second `from_str`; its contract is carried by `CliVersion.FromStrAgrees` |
| `CliVersion.FindDotAgrees` | src/main.rs:104-113 | the character search in `src/main.rs` returns the same result as the one in `src/version.rs` for every text and start index |
| `CliVersion.GetNextNumberAgrees` | src/main.rs:96-114 | `get_next_number` in `src/main.rs` returns the same result as the one in `src/version.rs` on every text |
| `CliVersion.FromStrAgrees` | src/main.rs:80-94 | `FromStr` in `src/main.rs` fails exactly when the `src/version.rs` one fails, and otherwise returns the same triple |
| `CliVersion.TooFewSegments` | src/main.rs:84-86 | a text with fewer than three segments fails |
| `CliVersion.ExampleTooFew` | src/main.rs:97-101 | the call on the remainder `"2"` yields 2 and leaves `""`, the call on `""` fails, and so `"1.2"` fails |
| `CliVersion.TrailingIgnored` | src/main.rs:86 | whatever follows the dot after the patch number is discarded |
| `CliVersion.EmptyFirstSegment` | src/main.rs:105-108 | an empty text before the first `.`, or an empty input, makes the parse fail |
| `CliVersion.GetNextNumberSuffix` | src/main.rs:104-110 | on success with a `.` present, the number is the value of the text before the first `.` and the rest is exactly the suffix after it |
| `VersionCalculator.VersionType` | src/version_calculator.rs:17-22 | the three bump kinds the classifier returns (a datatype with the variants `Major`, `Minor` and `Patch`) |
| `VersionCalculator.IsFeature` | src/version_calculator.rs:9 | `starts_with("feat")`: at least four characters whose first four are `feat`, compared case-sensitively; its behaviour on texts is stated by `VersionCalculator.PrefixExamples` |
| `VersionCalculator.CalculateVersionType` | src/version_calculator.rs:3-23 | every input yields exactly one kind, never `Major`; the result is `Minor` exactly when some message starts with `feat` (case-sensitive), otherwise `Patch` |
| `VersionCalculator.FeatureCount` | src/version_calculator.rs:8-14 | the number of `feat` messages never exceeds the number of messages |
| `VersionCalculator.FeatureCountPositive` | src/version_calculator.rs:18-19 | the minor counter is positive exactly when some message starts with `feat` |
| `VersionCalculator.FeatureCountAppend` | src/version_calculator.rs:8-14 | the count over two concatenated histories is the sum of their counts |
| `VersionCalculator.FeatureCountPermutation` | src/version_calculator.rs:8-14 | reordering the messages leaves the count unchanged |
| `VersionCalculator.ClassificationPermutation` | src/version_calculator.rs:8-22 | reordering the messages leaves the result unchanged |
| `VersionCalculator.EmptyIsPatch` | src/version_calculator.rs:22 | an empty history yields `Patch` |
| `VersionCalculator.Monotonic` | src/version_calculator.rs:9-19 | adding messages can turn `Patch` into `Minor` but never `Minor` into `Patch` |
| `VersionCalculator.PrefixExamples` | src/version_calculator.rs:9 | `"feature: x"` counts as a feature; `"Feat: x"`, `"fix: feat"` and `"fea"` do not |
| `VersionCalculator.ClassificationExamples` | src/version_calculator.rs:8-22 | `["fix: bug", "feat: add widget", "chore: cleanup"]` yields `Minor`; a history with no `feat` prefix yields `Patch` |

## Left out

- `main` in `src/main.rs` (lines 8-67) is left out. It parses the command line, opens the git repository, walks commits and branches, prints, and debug-dumps. All of that is I/O through the `clap` and `git2` libraries.
- `load_package_lock` and the JSON handling (`src/main.rs` lines 56-71) are left out. They are file I/O and an opaque JSON library. The default path comes from a compile-time environment variable.
- Non-ASCII text is not modelled. A string is a sequence of characters, and the model takes the index inside it as the byte offset at which Rust slices. This holds only for ASCII. With a multibyte character before the first `.`, the Rust code's `chars().enumerate()` index is not a byte offset, and the slice can cut the wrong text or panic.
- `VersionCalculator.CalculateVersionType`: the counters are unbounded naturals. The Rust counters are 32-bit integers, so wrap-around or a panic on histories of more than 2^31 messages is not modelled.
- The `VersionType` enum is declared in a file that is not part of this model (`src/version_type.rs`). It is defined here with the three variants that `src/version_calculator.rs` uses.
- The step that computes the next version from a bump kind, and its overflow error, are not modelled, because no such code is part of the modelled files.
- The `Debug` derives and the empty `VersionError` struct are left out. The parse error is modelled as `None`.

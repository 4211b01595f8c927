# Terraform posture validator — a verified model

`validateTerraform` checks a directory of Terraform files that declare Google
Cloud Security Posture resources. It walks the tree. It examines every file
whose lower-cased name ends in `.tf` and collects diagnostics in one ordered
list:

- A file that cannot be read gets one diagnostic, and the walk continues.
- A file must declare `resource "google_securityposture_posture" "<label>" {`
  exactly once. Otherwise it gets one diagnostic carrying the count and a
  line, and nothing else is checked in it. The line is 1 when there is no
  declaration. With two or more it is the line of the first mention of
  `resource "google_securityposture_posture"`.
- Otherwise the checks run in this order:
  1. a missing `posture_id` assignment is reported;
  2. every `posture_id`, `policy_set_id` and `policy_id` value assigned
     anywhere in the file is checked against its format rule;
  3. each failing value is reported with the first line that assigns it,
     as found by the line scanner `getLineNumber`.
- A walk error is reported last.

The model has six modules:

| file | contents |
|---|---|
| `wrappers.dfy` | `Option` |
| `format_rules.dfy` | The three anchored format rules, as bracket classes with a bounded repetition, proved equal to plain character predicates. |
| `patterns.dfy` | The fixed extraction patterns as hand-coded scanners. `FindAll` is the leftmost, non-overlapping scan, proved to be the only scan with that property. |
| `line_locator.dfy` | Line splitting, the line patterns, and `GetLineNumber`. It is an imperative loop proved equal to `FirstMatchingLine`, which returns the first matching line or -1. The split is proved to round-trip, and every position is proved to lie on line 1 + (the newlines before it). |
| `validator.dfy` | The typed `Diagnostic`, the specification functions for one file (`FileDiagnostics`) and for one walk (`RunDiagnostics`), and the validator as it runs. The validator is a `DiagnosticCollector` class that holds the appended error list, plus the methods `CheckIds`, `CheckFile`, `Visit` and `ValidateTerraform`. Each method is proved to append exactly what its specification function says. The lemmas on where a wrong declaration count is reported sit here too, since `LocateDeclaration` states their conclusion. |
| `validator_properties.dfy` | What those specification functions guarantee: per-value reporting, the pass/fail gate of a file, the single diagnostic for a wrong declaration count and the line it points at, the line an invalid value is reported at, and the selection and order of a whole walk. |

The directory walk is given as a sequence of events. Each event is either an
entry (path, name, directory flag, read result) or a walk error, which ends
the walk.

Three regular-expression facts matter:
- `\s` also matches a newline, so the `=` and the opening quote of an
  assignment may sit on later lines.
- The non-greedy `.*?"` stops at the first quote and never crosses a
  newline.
- `[^"]` in a declaration label does cross newlines.

A diagnostic's `line` is -1 when the locator finds no line. The locator
searches one line at a time, so this may happen for an assignment split
across lines. It does not happen when the same value is also assigned on a
single line elsewhere in the file: that line is reported instead. In a file
of valid UTF-8 text, an assignment that sits on one line, line K, is
reported at line K or at an earlier line assigning the same value.
`SingleLineValueLocated` states this. (A value holding bytes that are not
valid UTF-8 is reported at -1; see "Left out".)

The narrowed search used for a wrong declaration count never changes the
answer. It searches only up to the first character of the first declaration.
When it finds something, the whole-file search finds the same line. When it
finds nothing, the fallback searches the whole file. So with two or more
declarations the reported line is always the first line of the file that
mentions the resource keyword. That line can be a comment before the first
real declaration.
`DeclarationLineIsFirstMention` states this.

## Model

| member | source | states |
|---|---|---|
| FormatRules.PostureIdRuleIff | cmd/validate_terraform.go:59 | A posture_id passes iff it has 1 to 63 characters, starts with `a-z` and continues with `a-z`, `0-9`, `-` or `_`. |
| FormatRules.PolicySetIdRuleIff | cmd/validate_terraform.go:60 | A policy_set_id passes under exactly the same condition as a posture_id. |
| FormatRules.PolicyIdRuleIff | cmd/validate_terraform.go:61 | A policy_id passes iff it has 1 to 63 characters, starts with an ASCII letter of either case and continues with letters, digits, `-` or `_`. |
| FormatRules.PostureIdIsPolicyId | cmd/validate_terraform.go:59-61 | Every value that passes the posture_id rule also passes the policy_id rule. |
| FormatRules.UpperStartIsOnlyPolicyId | cmd/validate_terraform.go:59-61 | The converse fails: `My-Posture` passes only the policy_id rule. |
| FormatRules.RepeatMatchIff | cmd/validate_terraform.go:59-61 | `[cls]{0,n}$` consumes the rest of a value iff it has at most n characters, all in the class. |
| FormatRules.ClassMembership | cmd/validate_terraform.go:59-61 | The bracket classes `[a-z]`, `[a-z0-9-_]`, `[a-zA-Z]` and `[a-zA-Z0-9-_]` hold exactly the characters named; the `-` is a literal. |
| FormatRules.LowerRuleIff | cmd/validate_terraform.go:59-60 | The shared lower-case rule holds exactly for 1 to 63 characters with a lower-case first letter and lower-case id characters after it. |
| Patterns.AssignmentAt | cmd/validate_terraform.go:64-66 | An assignment found at p starts at p, ends inside the text, and its value holds no quote and no newline. |
| Patterns.DeclarationAt | cmd/validate_terraform.go:83 | A declaration found at p starts at p, ends inside the text, and its label holds no quote. |
| Patterns.SkipSpaceStopsAt | cmd/validate_terraform.go:64-66 | A greedy `\s*` run ends exactly at the first character that is not `\s`. |
| Patterns.ClosingQuoteAt | cmd/validate_terraform.go:64-66 | The lazy `.*?"` closes at the first quote when no newline comes before it. |
| Patterns.AssignedValueComplete | cmd/validate_terraform.go:64-66 | Text shaped `\s*=\s*"v"` is completed to exactly that match and value. |
| Patterns.AssignmentAtComplete | cmd/validate_terraform.go:64-66 | Whenever `<field>\s*=\s*"v"` occurs at p with v free of quotes and newlines, the scanner returns exactly that match. |
| Patterns.AssignmentAtSound | cmd/validate_terraform.go:64-66 | Every match the assignment scanner returns has that shape, and its value is the text between the quotes. |
| Patterns.AssignedValueSound | cmd/validate_terraform.go:64-66 | Every completed value match has the `\s*=\s*"v"` shape. |
| Patterns.DeclarationAtComplete | cmd/validate_terraform.go:83 | Whenever the declaration text occurs at p, the scanner returns exactly that match and label. |
| Patterns.DeclarationAtSound | cmd/validate_terraform.go:83 | Every match the declaration scanner returns has the declaration shape. |
| Patterns.Scan | cmd/validate_terraform.go:84 | Scanned matches lie in the range, are what the pattern finds at their start, and are in order without overlap. |
| Patterns.FindAll | cmd/validate_terraform.go:84 | Every match returned lies inside the text, is what the pattern matches at its start, and the matches are in order without overlap. |
| Patterns.Assignments | cmd/validate_terraform.go:105 | Every extracted value is free of quotes and newlines, and each match starts with the field name. |
| Patterns.ScanIsLeftmost | cmd/validate_terraform.go:105 | The scan is leftmost: each match starts at the first position from the previous match's end where the pattern matches, and nothing matches after the last one. |
| Patterns.LeftmostScanUnique | cmd/validate_terraform.go:105 | Any leftmost, non-overlapping sequence of matches equals the scan. |
| Patterns.FindAllIff | cmd/validate_terraform.go:84 | A sequence of matches is the leftmost, non-overlapping scan of the text iff it is what the extractor returns. |
| LineLocator.LineEnd | cmd/validate_terraform.go:40 | A line runs to the first newline or the end of the text and holds no newline. |
| LineLocator.LinesFrom | cmd/validate_terraform.go:40 | No line produced by the line scanner contains a newline. |
| LineLocator.LinesRoundTrip | cmd/validate_terraform.go:30-40 | Joining the scanner's lines with newlines gives back the content, less a final newline: the split loses and adds nothing. |
| LineLocator.LinesFromRoundTrip | cmd/validate_terraform.go:40 | The same round trip holds for the lines of the content from any position on. |
| LineLocator.LineAroundIsLine | cmd/validate_terraform.go:40-44 | Position p is on line 1 + (the number of newlines before p), as the scanner counts lines. That line is the text from the last newline before p to the next one. |
| LineLocator.StartIsLineStart | cmd/validate_terraform.go:40 | The start of the line holding p is the only position that is 0 or follows a newline and has no newline between it and p. |
| LineLocator.CharOnItsLine | cmd/validate_terraform.go:40-44 | Every character other than a newline appears in line 1 + (the newlines before it), at its offset from that line's start. |
| LineLocator.FirstMatchingLine | cmd/validate_terraform.go:40-46 | The result is -1 or in 1..number of lines. If it is K, line K matches and no earlier line does. It is -1 iff no line matches. |
| LineLocator.GetLineNumber | cmd/validate_terraform.go:29-47 | The loop that counts lines returns exactly the first matching line, or -1. |
| LineLocator.MatchString | cmd/validate_terraform.go:41 | The unanchored search of one line succeeds iff the pattern matches at some position of the line. |
| LineLocator.ScanStep | cmd/validate_terraform.go:40-45 | One loop step: a matching line is the first match; otherwise no line so far matches and the scan is at the next line. |
| LineLocator.NoMatchAnywhere | cmd/validate_terraform.go:46 | A scan that runs out of lines without a match means the result is -1. |
| LineLocator.FirstMatchIs | cmd/validate_terraform.go:41-42 | A matching line with no earlier matching line is the one returned. |
| LineLocator.MatchingLineFound | cmd/validate_terraform.go:40-46 | If line k+1 matches, the search returns a line from 1 to k+1, and exactly k+1 when no earlier line matches. |
| LineLocator.FoundOnLine | cmd/validate_terraform.go:40-46 | If line k matches, the search reports k or an earlier matching line, and exactly k when no earlier line matches. |
| LineLocator.PrefixLines | cmd/validate_terraform.go:91 | Each line of a cut-short text is a prefix of the same line of the whole text, and all but the last of them are whole. |
| LineLocator.LiteralOnSomeLine | cmd/validate_terraform.go:91-93 | A newline-free literal occurring in the text occurs within one of its lines. |
| LineLocator.LiteralFound | cmd/validate_terraform.go:93 | A newline-free literal occurring anywhere is found by the line search. |
| LineLocator.AssignmentOnItsLine | cmd/validate_terraform.go:117-118 | For an assignment match that holds no newline, the search for its value reports the line the match starts on, or an earlier line that assigns the same value; exactly that line when no earlier line does. |
| LineLocator.AssignmentInItsLine | cmd/validate_terraform.go:117-118 | The line holding a newline-free assignment match matches the search pattern built from its value. |
| LineLocator.AssignmentMatchesLine | cmd/validate_terraform.go:117-118 | A line holding a copy of an assignment match matches the search pattern built from its value. |
| LineLocator.StretchAround | cmd/validate_terraform.go:40 | Newline-free text starting at p lies inside the line around p, at p's offset in that line. |
| LineLocator.LocatedFromLine | cmd/validate_terraform.go:40-46 | When the line holding p matches, the search reports that line or an earlier one, and exactly that line when no earlier one matches. |
| Validator.HasTfExtension | cmd/validate_terraform.go:72 | A name passes iff it ends in `.` followed by `t` or `T` and `f` or `F`. |
| Validator.DiagnosticCollector.constructor | cmd/validate_terraform.go:56 | A run starts with no diagnostics. |
| Validator.DiagnosticCollector.Add | cmd/validate_terraform.go:78 | Appending adds one diagnostic at the end and keeps the earlier ones. |
| Validator.ValidStep | cmd/validate_terraform.go:115 | A value that passes its rule adds no diagnostic. |
| Validator.InvalidStep | cmd/validate_terraform.go:115-119 | A failing value adds exactly its own diagnostic, located at the first line assigning it. |
| Validator.CheckIds | cmd/validate_terraform.go:113-121 | Checking one field's matches appends exactly that field's diagnostics, in match order. |
| Validator.LocateDeclaration | cmd/validate_terraform.go:86-97 | The reported line is 1 without a declaration; otherwise it is the narrowed search result, or the whole-file search when the narrowed one finds nothing. For the file's own declarations, when there is one, it is the first line mentioning the keyword, and there is such a line. |
| Validator.LocatedAtFirstMention | cmd/validate_terraform.go:88-94 | For the file's own declarations, when there is one, the located line is the first line mentioning the keyword. |
| Validator.DeclarationHasKeyword | cmd/validate_terraform.go:83 | A declaration starts with `resource "google_securityposture_posture"`. |
| Validator.FirstDeclarationHasKeyword | cmd/validate_terraform.go:90-91 | The first declaration's start lies inside the content and holds the keyword. |
| Validator.KeywordOnSomeLine | cmd/validate_terraform.go:93 | A file that contains the keyword has a line found by the keyword search. |
| Validator.PrefixSearchAgrees | cmd/validate_terraform.go:91-93 | A search of a prefix, when it finds the literal at all, finds the same line as a search of the whole content. |
| Validator.DeclarationLineIsFirstMention | cmd/validate_terraform.go:88-94 | With a declaration, the reported line is the first line of the file that mentions the keyword, and there is one. |
| Validator.CheckFile | cmd/validate_terraform.go:82-144 | Checking one readable file appends exactly its diagnostics, in the order of the checks. |
| Validator.Visit | cmd/validate_terraform.go:68-80 | A walk error is handed back and adds nothing. Directories and non-`.tf` files add nothing. An unreadable file adds one diagnostic, and a readable file adds its own diagnostics. |
| Validator.ValidateTerraform | cmd/validate_terraform.go:55-152 | The run returns exactly the diagnostics of the walk, with a walk error reported last. |
| ValidatorProperties.FailingValuesMembership | cmd/validate_terraform.go:113-121 | A value is among the failing values iff it fails the rule and some match extracted it. |
| ValidatorProperties.InvalidIdDiagnosticsPerValue | cmd/validate_terraform.go:113-143 | Each failing value yields exactly one diagnostic naming the field, the value and the rule; passing values yield none; the order is match order. |
| ValidatorProperties.NoInvalidIdDiagnosticsIff | cmd/validate_terraform.go:113-143 | A field yields no diagnostic iff every extracted value passes its rule. |
| ValidatorProperties.OneDeclaration | cmd/validate_terraform.go:104-143 | With one declaration, a file yields in order: the missing-posture_id diagnostic if there is no assignment, then the failing posture_id, policy_set_id and policy_id values. |
| ValidatorProperties.MissingPostureIdReported | cmd/validate_terraform.go:106-112 | With one declaration and no posture_id assignment, exactly one missing-posture_id diagnostic comes first, and the other two fields are still checked. |
| ValidatorProperties.FilePassesIff | cmd/validate_terraform.go:86-143 | A file yields nothing iff it declares the resource once, assigns a posture_id, and every extracted value passes its rule. |
| ValidatorProperties.WrongDeclarationCount | cmd/validate_terraform.go:86-99 | A count other than 1 yields exactly one diagnostic, carrying the count and no id diagnostics. It points at line 1 with no declaration, and otherwise at the first mention of the keyword. |
| ValidatorProperties.SingleLineValueLocated | cmd/validate_terraform.go:116-118 | A failing value whose whole assignment sits on one line, line K, is reported at a line from 1 to K; exactly K when no earlier line assigns the same value. |
| ValidatorProperties.OnlyTfFilesExamined | cmd/validate_terraform.go:72-74 | Dropping directories and names without the `.tf` suffix from a walk leaves its diagnostics unchanged. |
| ValidatorProperties.RunAppend | cmd/validate_terraform.go:68-80 | Entries before any walk error contribute their diagnostics in walk order. |
| ValidatorProperties.WalkErrorReportedLast | cmd/validate_terraform.go:147-149 | A walk error appends exactly one diagnostic after all earlier ones, which are unchanged, and nothing after it is visited. |
| ValidatorProperties.UnreadableFileReported | cmd/validate_terraform.go:76-80 | An unreadable `.tf` file adds exactly one diagnostic, and the rest of the walk goes on. |

## Left out

- `filepath.Walk`, `os.ReadFile` and `os.FileInfo` (lines 68 and 76) are not modelled. The walk is a given sequence of entries and read results, ending at an optional walk error. Visit order, symbolic links and how Walk itself reacts to a callback error (it stops) are taken as given in that sequence.
- The general regular-expression engine, regex compilation and `regexp.QuoteMeta` are not modelled. The fixed patterns are hand-coded scanners. The line search pattern for a value is the structured pattern `AssignmentOf(field, value)`, with the value compared literally, which is what quoting achieves.
- The invalid-pattern branch of `getLineNumber` (lines 33-38) is not modelled. Every pattern passed to it is a fixed literal or a pattern built with `QuoteMeta`. Such a pattern fails to compile only when the value it quotes holds bytes that are not valid UTF-8: `.` in `"(.*?)"` accepts such a byte, `QuoteMeta` copies it unchanged, and `regexp.Compile` rejects it. The program then reports line -1 for that value. A value here is a sequence of characters and cannot hold such a byte, so the model's line is the one the search finds.
- `bufio.Scanner`'s 64 KiB token limit is not modelled. A longer line stops the scan early.
- `bufio.Scanner`'s stripping of a `\r` before a newline is not modelled. Lines are split on `\n` only. No match of these patterns needs a line's final `\r`.
- The exact `fmt.Sprintf` message text is replaced by the typed `Diagnostic`. It carries the path, the count, the field, the value, the line and the rule, but not the wording.
- UTF-8 byte-versus-rune details of Go strings are not modelled. Content and names are sequences of characters. A file that is not valid UTF-8 (a Latin-1 file, say) is outside the model: a failing value holding an invalid byte is reported at line -1 by the program, because its search pattern does not compile, and every statement about lines here is about valid text.
- `strings.ToLower` is modelled as an ASCII fold. No character outside ASCII lower-cases to `.`, `t` or `f`, so the `.tf` suffix test is unaffected.
- Go's `int` line counter is unbounded here. Overflow would need more lines than memory can hold.

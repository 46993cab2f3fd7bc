# Literal find/replace of the `map` pipe filter

`map` is a command-line pipe filter: it reads its standard input, replaces
an old pattern by a new one and prints the result. This project models its
literal mode (`-s/--string`): the function `find_replace`, which calls
Rust's `str::replace` when the count is 0 and `str::replacen` when it is
N > 0, and the reading of the `-n/--num` count argument as a Rust `u32`
that comes before it.

Text is `seq<char>`, one element per Unicode scalar value. Rust matches
UTF-8 bytes, but for valid UTF-8 text and pattern a byte match is the same
as a character match, and the empty pattern matches at character
boundaries, which are exactly the positions 0..|s| of the sequence.

- `LiteralReplace` (`literal_replace.dfy`): the leftmost, non-overlapping
  scan. `ReplaceAll` is `str::replace`, `ReplaceN` is `str::replacen`,
  `Count` is the number of occurrences the scan finds, `Find` the leftmost
  occurrence, and `MatchEnd` the position just past the n-th occurrence.
  The empty old pattern is modelled as Rust has it: it matches at every
  character boundary, the start and the end included, so `replace` puts
  the new text in front of the input and after each of its characters.
- `ReplaceProperties` (`replace_properties.dfy`): what the scan promises,
  proved by induction over the input.
- `CountArgument` (`count_argument.dfy`): `u32::from_str`. It accepts an
  optional '+' followed by one or more ASCII digits whose value is below
  2^32, and rejects everything else, including every '-' sign.
- `FindReplace` (`find_replace.dfy`): `find_replace` and the literal
  branch of the program that parses the count first and then replaces.

The program's help text says that a negative count replaces from the
last occurrence backwards. The code reads the count as an unsigned
integer, so a negative count is rejected and the program exits before
replacing anything. The model follows the code.

## Model

| member | source | states |
|---|---|---|
| LiteralReplace.Find | src/main.rs:169-172 | the position found is an occurrence with no occurrence before it; when there is none, the pattern occurs nowhere |
| LiteralReplace.MatchEnd | src/main.rs:171-172 | the cut after the n-th replaced occurrence lies between the pattern length and the input length; which occurrence it ends is pinned by MatchEndOfFirst, MatchEndIsMatch, CountUpToMatchEnd and MatchEndMinimal |
| ReplaceProperties.StartsWithIsPrefix | src/main.rs:169-172 | the character-by-character match test used by the scan holds exactly when the pattern is a prefix of the text |
| ReplaceProperties.SkipUnmatched | src/main.rs:168-173 | a stretch of input where no occurrence starts is copied to the output unchanged, with either replacement, and adds nothing to the count |
| ReplaceProperties.FirstMatchReplaced | src/main.rs:169-172 | the leftmost occurrence of a non-empty pattern is replaced first, the text before it is kept, and the scan resumes right after it |
| ReplaceProperties.NoMatchUnchanged | src/main.rs:168-173 | when the old pattern does not occur, the output equals the input for every count |
| ReplaceProperties.CountZeroIffNoMatch | src/main.rs:169-172 | the count of occurrences is 0 exactly when the pattern occurs nowhere |
| ReplaceProperties.CountBound | src/main.rs:169-172 | occurrences of a non-empty pattern do not overlap: count times pattern length is at most the input length |
| ReplaceProperties.LimitCoveringAllIsReplaceAll | src/main.rs:168-173 | `replacen` with a limit of at least the number of occurrences equals `replace` |
| ReplaceProperties.LengthReplaceN | src/main.rs:171-172 | the output length is the input length plus min(N, occurrences) times (new length - old length) |
| ReplaceProperties.LengthReplaceAll | src/main.rs:169-170 | the output length of `replace` is the input length plus occurrences times (new length - old length) |
| ReplaceProperties.SelfReplacementN | src/main.rs:171-172 | `replacen` of a pattern by itself returns the input, for every limit |
| ReplaceProperties.SelfReplacementAll | src/main.rs:169-170 | `replace` of a pattern by itself returns the input |
| ReplaceProperties.MatchEndIsMatch | src/main.rs:171-172 | the n-th occurrence the scan replaces is a real occurrence of the old pattern |
| ReplaceProperties.CountUpToMatchEnd | src/main.rs:171-172 | the input up to the end of the n-th occurrence holds exactly n occurrences |
| ReplaceProperties.MatchEndOfFirst | src/main.rs:169-172 | the first occurrence replaced is the leftmost one: the first cut is the position `Find` returns plus the pattern length |
| ReplaceProperties.MatchEndMinimal | src/main.rs:171-172 | for a non-empty pattern, the input up to one character before the n-th cut holds only n - 1 occurrences, so the cut ends the n-th occurrence and not a later overlapping one |
| ReplaceProperties.TailAfterLastReplacedKept | src/main.rs:171-172 | with 1 <= N <= occurrences, the input up to the end of the N-th occurrence is fully replaced and everything after it is copied unchanged |
| ReplaceProperties.ReplacementCanAddOccurrences | src/main.rs:169-170 | replacing `a` by `aa` in `a` makes one replacement and leaves two occurrences of `a` in the output |
| ReplaceProperties.EmptyPatternCount | src/main.rs:73-77 | the empty old pattern occurs at each of the length + 1 character boundaries |
| ReplaceProperties.EmptyPatternReplaceAll | src/main.rs:73-77 | with the empty old pattern, `replace` of the empty input is the new text, and each appended character is followed by one copy of the new text |
| CountArgument.ParseU32 | src/main.rs:62-69 | an accepted count consists of ASCII digits after an optional '+'; the empty string, a lone '+' and any text starting with '-' are rejected |
| CountArgument.ParseCount | src/main.rs:61-69 | an absent count is 0; a count starting with '-' is rejected |
| CountArgument.DecimalValue | src/main.rs:63 | the digits of the decimal spelling of n have the value n |
| CountArgument.DigitsAreZerosThenDecimal | src/main.rs:63 | every digit string is leading zeros followed by the decimal spelling of its value |
| CountArgument.ParseDecimal | src/main.rs:63-64 | the decimal spelling of n, with or without '+', parses to n when n < 2^32 and is rejected otherwise |
| CountArgument.ParseZerosDecimal | src/main.rs:63-64 | leading zeros are accepted: zeros then the decimal spelling of n, with or without '+', parse to n when n < 2^32 and are rejected otherwise |
| CountArgument.AcceptedIsDecimal | src/main.rs:63-64 | every accepted argument is, after an optional '+', leading zeros followed by the decimal spelling of the count it gives |
| FindReplace.ReplacedSplitsOutput | src/main.rs:168-173 | for every count, with k the replacements made (all occurrences for 0, min(N, occurrences) for N > 0): k = 0 returns the input; otherwise the input up to the end of its k-th occurrence holds exactly k occurrences and is replaced as `replace` would, and the rest is copied unchanged |
| FindReplace.FindReplaceLiteral | src/main.rs:168-174 | count 0 is `replace`; the length changes by replacements times (new length - old length); a count of at least the number of occurrences replaces all of them; no occurrence, or new equal to old, leaves the input unchanged |
| FindReplace.LargeCountIsReplaceAll | src/main.rs:168-173 | a count of at least the number of occurrences gives the same output as count 0 |
| FindReplace.TailAfterNthKept | src/main.rs:171-172 | with 0 < N <= occurrences, everything after the end of the N-th occurrence is copied unchanged |
| FindReplace.PrefixBeforeFirstMatchKept | src/main.rs:168-173 | the input before the first occurrence is a prefix of the output, for every count |
| FindReplace.RunLiteral | src/main.rs:61-78 | no replacement runs exactly when a count is given and does not parse; no count means replace all; a count starting with '-' is rejected; the decimal spelling of N, after any leading zeros and an optional '+', runs `find_replace` with N when N < 2^32 and is rejected otherwise |

## Left out

- Regex replacement (`find_replace_regex`, src/main.rs:176-179, and `Regex::new` at line 80): the matching engine belongs to the `regex` crate and is not part of this model.
- Reading standard input (`read_pipe`, src/main.rs:157-166): I/O. The code joins the lines with no separator and does not trim them; the input is a parameter here.
- Printing `INPUT:`/`OUTPUT:` and the warning with the parse error's message (src/main.rs:51, 66, 78, 84): output I/O. For this reason a rejected count is a bare None, without the error's kind.
- Command-line construction with clap (src/main.rs:106-155): a foreign library. The two positional patterns are parameters of the model.
- The Ctrl-C handler, the logger, the configuration directory and the `log` subcommand (src/main.rs:16-46, 88-101, 181-221): signals, global state and file-system I/O.
- Replacement in reverse order for a negative count: the help text at src/main.rs:137 promises it, but no code implements it.
- The number of occurrences of the old pattern left in the output is not stated as a formula. The natural one, occurrences minus replacements, fails whenever the new text contains or creates the old pattern. `ReplaceProperties.ReplacementCanAddOccurrences` shows this: old `a`, new `aa` and input `a` give `aa`, which holds two occurrences after one replacement.

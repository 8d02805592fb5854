# context: a verified model of the capture and rendering core

`context` is a command-line tool. It collects what happened in a terminal so it can be pasted
elsewhere: the commands that ran and their output, a directory tree, and the tail of a
command history. This project models the in-memory logic of its three features in Dafny and
proves what that logic guarantees.

- **Terminal log reader** (`internal/output/reader.go`).
  - A per-command log file is a set of `=== KEY: value` header lines. An `=== OUTPUT:` marker
    starts the output section.
  - A `script` typescript is one continuous transcript. It is segmented into commands by four
    prompt patterns, tried in order.
  - ANSI control sequences are stripped. Runs of blank lines are squeezed.
  - The reader keeps the last `n` commands. It prefers the typescript and falls back to the
    log files.
  - The entries are rendered as raw, markdown or detailed text.
- **Directory tree** (`internal/dir/tree.go`).
  - The exclude list is parsed.
  - The tree is read recursively over an in-memory tree. It filters hidden and excluded names,
    cuts off at a depth, and orders siblings with directories first, then by name.
  - The tree is drawn with box-drawing connectors, or converted to a JSON entry tree, or
    wrapped in markdown.
- **History tail** (`internal/last/reader.go`).
  - JSON lines that fail to decode are skipped.
  - An empty history is an error.
  - The last `n` entries are selected with a clamped start.
  - The result is rendered raw, as markdown or as plain text.

Modules:

| file | module | what it holds |
|---|---|---|
| `basics.dfy` | `Basics` | `Option`, `Result`, `Min` |
| `log_entry.dfy` | `LogEntries` | the `LogEntry` record |
| `go_time.dfy` | `GoTime` | `time.Parse` with the fixed layout `2006-01-02 15:04:05` |
| `go_fmt.dfy` | `GoFmt` | `fmt`'s `%d` printing and `Sscanf("%d")` scanning, int64 wrap-around |
| `go_strings.dfy` | `GoStrings` | the `strings` functions the core calls, and `strings.Builder` as a class |
| `log_file.dfy` | `LogFiles` | `parseLogFile` |
| `sanitize.dfy` | `Sanitize` | `stripANSI`, `cleanOutput` |
| `prompts.dfy` | `Prompts` | the four prompt regexes as a backtracking matcher, and the first-match cascade |
| `typescript.dfy` | `Typescript` | `parseTypescript` |
| `output_reader.dfy` | `OutputReader` | `readFromTypescript`, `readFromLogFiles`, `Read` |
| `output_format.dfy` | `OutputFormat` | `FormatEntries`, `formatRaw`, `formatMarkdown`, `formatDetailed` |
| `dir_tree.dfy` | `DirTree` | `NewGenerator`, `Generate`, `readDir`, `isExcluded`, `formatTree`, `entriesToJSON`, `formatMarkdown` |
| `last_history.dfy` | `LastHistory` | `Read`, `formatOutput` |

**Form.** Each loop of the source is a `method` with a `for` or `while` loop. Each method's
contract ties its result to a specification function, and lemmas prove what that function
promises.
- Loops that exit early keep their early `return`: `isExcluded` is `DirTree.CheckExcluded`, and
  the prompt-pattern loop of `parseTypescript`, which breaks at the first match, is
  `Prompts.DetectCommand`.
- Functions that recurse in the source are recursive methods around their loop, as in Go:
  `readDir` is `DirTree.ReadDir`, `formatTree` is `DirTree.WriteTree` and `entriesToJSON` is
  `DirTree.BuildJson`. Their specifications (`DirEntries`, `FormatTree`, `EntriesToJson`) are
  recursive functions, which the lemmas reason about.
- `strings.Builder` is a class whose `WriteString` appends to its `text` field. The formatters
  take one as the Go helpers take `*strings.Builder`; `formatTree` and the tree's
  `formatMarkdown` fill one of their own.
- The in-place reversal of the selected log entries is a method on an `array`.

**Strings.** A Go string is a byte sequence. Here it is a sequence of Unicode scalar values.
- The byte length that `parseTypescript`'s `len(cmd) > 1` tests is `GoStrings.Utf8Len`, so `❯`
  counts three bytes.
- `<` on Go strings compares bytes. UTF-8 byte order agrees with code point order, so
  `GoStrings.LexLess` compares characters.

**Properties one might expect that the code does not have.**
- The ANSI sanitiser is not idempotent. `stripANSI` is one regular-expression replacement pass.
  `Sanitize.StripAnsiNotIdempotent` exhibits an input that still holds an escape after one pass
  and loses more text on a second. `cleanOutput` is idempotent (`Sanitize.CleanTextProperties`).
- Not every `❯` or `>` prompt is recognised. The first two patterns need a path starting with `~`
  or `/`, so a line such as `prompt❯ echo a` matches neither of them
  (`Prompts.PathPromptNeedsPath`).
- The fourth alternative of `stripANSI`'s expression (`ESC [ params [mKHJPq]`) can never change
  the result: every string it matches is matched identically by the first alternative
  (`Sanitize.CsiShortSubsumed`). The model keeps it anyway.

## Model

| member | source | states |
|---|---|---|
| GoTime.ParseLayout | internal/output/reader.go:132-137 | `time.Parse` with the layout `2006-01-02 15:04:05` succeeds only with a date and time valid on the calendar, and the year, month and day are the numbers the value's `YYYY-MM-DD` spells |
| GoTime.CutSpace | internal/output/reader.go:134 | the space of the layout consumes a run of spaces: what is left is a suffix of the value, starts with no space, and is shorter whenever a space was there |
| GoTime.Nanos | internal/output/reader.go:134 | a fraction after the seconds is read, from at most nine digits, into fewer than 10^9 nanoseconds |
| GoTime.Fraction | internal/output/reader.go:134 | an optional fraction after the seconds gives fewer than 10^9 nanoseconds and the position after it |
| GoTime.DateFields | internal/output/reader.go:134 | a value with a well-formed date parses as that date with the clock found after the spaces |
| GoTime.ParseCanonical | internal/output/reader.go:132-137 | a value in the exact layout parses exactly when its fields form a valid date and time, and then to exactly those fields |
| GoTime.ParseShortHour | internal/output/reader.go:132-137 | an hour written with one digit parses as the same time as with its leading zero |
| GoTime.LeadingZeroHour | internal/output/reader.go:132-137 | a leading zero of the hour does not change the clock read |
| GoTime.ParseExtraSpace | internal/output/reader.go:132-137 | a run of spaces between date and time reads as a single space |
| GoTime.SameDateSameClock | internal/output/reader.go:132-137 | two values with the same date and the same clock after the spaces parse alike |
| GoTime.ParseFraction | internal/output/reader.go:132-137 | a `.` or `,` and digits after the seconds set the nanoseconds from the first nine digits; the value is accepted exactly when its fields are valid |
| GoFmt.Wrap64 | internal/output/reader.go:143 | multiplying into a `time.Duration` wraps to int64: the result lies in the int64 range, is congruent to the exact product modulo 2^64, and equals it when it fits |
| GoFmt.NatToDecimal | internal/output/reader.go:314 | `%d` prints a natural number as a non-empty run of digits with no leading zero |
| GoFmt.DecimalValueOfNat | internal/output/reader.go:314 | reading the printed digits back gives the number printed |
| GoFmt.ScanInt | internal/output/reader.go:142-146 | `Sscanf("%d")` stores only a value in the int64 range, and reports an error otherwise; the value is pinned down by `GoFmt.ScanPrintedNegative`, `GoFmt.ScanPrintedNonNegative`, `GoFmt.ScanIntUnderscore` and `GoFmt.ScanIntNoBasePrefix` |
| GoFmt.DigitRun | internal/output/reader.go:142-146 | `%d` takes the longest run of decimal digits as its token, and stops at the first other character |
| GoFmt.ScanIntUnderscore | internal/output/reader.go:142-146 | `%d` stops at an underscore: `1_0` stores 1 |
| GoFmt.ScanIntNoBasePrefix | internal/output/reader.go:142-146 | `%d` has no base prefixes: `0x1F` scans as 0 and stops at the `x` |
| GoFmt.ScanPrintedNegative | internal/output/reader.go:144-146 | scanning a printed negative int64 followed by a non-digit gives that number back |
| GoFmt.ScanPrintedNonNegative | internal/output/reader.go:144-146 | scanning a printed non-negative int64 followed by a non-digit gives that number back |
| GoStrings.RegexSpaceIsSpace | internal/output/reader.go:208-218 | every character of the regexp class `\s` is white space for `strings.TrimSpace` |
| GoStrings.Utf8Len | internal/output/reader.go:231 | the byte length lies between the number of characters and four times that |
| GoStrings.Utf8LenAppend | internal/output/reader.go:231 | byte length is additive over concatenation |
| GoStrings.TrimLeftSpace | internal/output/reader.go:218 | the result is no longer and does not start with white space |
| GoStrings.TrimRightSpace | internal/output/reader.go:218 | the result is no longer and does not end with white space |
| GoStrings.TrimLeftSpaceSpec | internal/output/reader.go:218 | the result is a suffix of the input, and every character dropped is white space |
| GoStrings.TrimRightSpaceSpec | internal/output/reader.go:218 | the result is a prefix of the input, and every character dropped is white space |
| GoStrings.TrimSpace | internal/output/reader.go:218 | the result has no white space at either end and is no longer than the input |
| GoStrings.TrimSpaceSpec | internal/output/reader.go:218 | the result is the slice of the input after its leading spaces, and everything cut from either end is white space |
| GoStrings.TrimmedFixpoint | internal/output/reader.go:218 | trimming a string with no white space at its ends changes nothing |
| GoStrings.TrimSpaceIdempotent | internal/output/reader.go:218 | trimming twice equals trimming once |
| GoStrings.TrimPrefix | internal/output/reader.go:131 | when the prefix is present the input is the prefix followed by the result, otherwise the input comes back unchanged |
| GoStrings.TrimSuffix | internal/output/reader.go:140 | when the suffix is present the input is the result followed by the suffix, otherwise the input comes back unchanged |
| GoStrings.ContainsAt | internal/output/reader.go:158 | an occurrence at any index makes `strings.Contains` true |
| GoStrings.ContainsWitness | internal/output/reader.go:158 | when `strings.Contains` holds there is an index where the substring occurs |
| GoStrings.ContainsInfix | internal/output/reader.go:158-162 | a string containing a substring still contains it inside a longer string |
| GoStrings.Split | internal/output/reader.go:203 | `strings.Split` on one separator character gives at least one piece, and no piece holds the separator |
| GoStrings.SplitNoSep | internal/output/reader.go:203 | a string without the separator splits into itself alone |
| GoStrings.SplitConcat | internal/output/reader.go:203 | splitting `a + sep + b` gives the pieces of `a` followed by the pieces of `b` |
| GoStrings.SplitExtend | internal/output/reader.go:203 | appending text without the separator extends only the last piece |
| GoStrings.JoinSplit | internal/output/reader.go:153-166 | joining the pieces of a split with the same separator gives back the input |
| GoStrings.SplitJoin | internal/output/reader.go:153-166 | splitting a join of separator-free pieces gives back those pieces |
| GoStrings.JoinInfix | internal/output/reader.go:153 | every piece appears inside the joined string |
| GoStrings.SplitPieceContains | internal/output/reader.go:158-162 | a substring of one piece of a split is a substring of the input |
| GoStrings.JoinAppend | internal/output/reader.go:166 | joining one more piece appends the separator and that piece |
| GoStrings.LexLessIrreflexive | internal/output/reader.go:82 | no string is less than itself |
| GoStrings.LexLessTransitive | internal/output/reader.go:82 | string `<` is transitive |
| GoStrings.LexLessTotal | internal/output/reader.go:82 | of two different strings one is less than the other |
| GoStrings.LexLessAsymmetric | internal/output/reader.go:82 | string `<` never holds both ways |
| GoStrings.CountCharAppend | internal/output/reader.go:298-306 | character counts add over concatenation |
| GoStrings.Builder.constructor | internal/output/reader.go:274 | a new builder holds the empty string |
| GoStrings.Builder.WriteString | internal/output/reader.go:291 | writing appends exactly the given text to what the builder holds |
| LogFiles.TimeOrZero | internal/output/reader.go:132-137 | a start or end time is the zero time (year 1, January 1, midnight) when parsing fails, and the parsed time when it succeeds |
| LogFiles.TimeOfCanonical | internal/output/reader.go:132-137 | a timestamp in the exact layout with valid fields is read as those fields |
| LogFiles.DurationOf | internal/output/reader.go:138-143 | a duration always lies in the int64 range; its value is pinned down by `LogFiles.DurationRoundTrip`, `LogFiles.DurationUnscannable` and `LogFiles.UnderscoreEndsNumber` (an underscore ends the number) |
| LogFiles.UnderscoreEndsNumber | internal/output/reader.go:138-146 | the scanned number stops at an underscore: a `1_5s` duration is one second, and an exit code `1_0` sets the code to 1 |
| LogFiles.DurationRoundTrip | internal/output/reader.go:138-143 | a header `<secs>s` gives `secs` seconds in nanoseconds, wrapped to int64 |
| LogFiles.DurationUnscannable | internal/output/reader.go:138-143 | a duration value that does not scan as an integer gives zero |
| LogFiles.MarkerIndex | internal/output/reader.go:116-122 | the index of the first `=== OUTPUT:` line: no marker before it, and a marker at it unless there is none |
| LogFiles.NonMarkers | internal/output/reader.go:119-126 | filtering out marker lines never lengthens the list |
| LogFiles.NonMarkersKeepsAll | internal/output/reader.go:119-126 | lines without a marker are all kept |
| LogFiles.NonMarkersMembers | internal/output/reader.go:119-126 | a line is kept exactly when it appears and is not an output marker |
| LogFiles.DropBatWarnings | internal/output/reader.go:158-167 | the kept lines come from the input and none contains `[bat warning]` |
| LogFiles.DropBatWarningsNoNewline | internal/output/reader.go:158-167 | dropping lines introduces no newline into any line |
| LogFiles.ParseLogFile | internal/output/reader.go:103-172 | the loop computes the specification entry of the file's lines |
| LogFiles.ScanLogLines | internal/output/reader.go:113-150 | the scan loop applies exactly the headers before the first marker, and collects every later non-marker line in order |
| LogFiles.CleanCollected | internal/output/reader.go:152-169 | the output cleaning (join, strip ANSI, trim, drop bat warnings) computes the specification output |
| LogFiles.ApplyHeader | internal/output/reader.go:129-149 | defines what one header line does to the entry; proved in `LogFiles.ExitCodeHeader`, `LogFiles.UnderscoreEndsNumber`, `LogFiles.UnknownHeadersIgnored` and the `Last…Wins` lemmas |
| LogFiles.LogFileEntry | internal/output/reader.go:110-171 | defines the entry a log file yields; proved in `LogFiles.ParseLogFile`, `LogFiles.HeadersStopAtOutput`, `LogFiles.NoMarkerNoOutput` and `LogFiles.NoCommandLine` |
| LogFiles.CleanLogOutput | internal/output/reader.go:152-169 | defines the cleaned output; proved in `LogFiles.CleanCollected`, `LogFiles.CleanNothing` and `LogFiles.CleanLogOutputNoBatWarning` |
| LogFiles.ApplyHeadersAppend | internal/output/reader.go:129-149 | headers are applied one line at a time, left to right |
| LogFiles.HeadersStopAtOutput | internal/output/reader.go:113-127 | header parsing stops at the first marker, and every later non-marker line goes to the output even if it looks like a header |
| LogFiles.NoMarkerNoOutput | internal/output/reader.go:113-155 | a file without a marker yields its headers and an empty output |
| LogFiles.AllHeaders | internal/output/reader.go:113-155 | when the marker index is past the end every line is read as a header and the output is empty |
| LogFiles.CleanNothing | internal/output/reader.go:152-155 | no collected output lines give an empty output |
| LogFiles.UnknownHeadersIgnored | internal/output/reader.go:129-149 | lines with no known header key leave the entry unchanged |
| LogFiles.CommandKept | internal/output/reader.go:130-131 | without a `=== COMMAND: ` line the command is unchanged |
| LogFiles.NoCommandLine | internal/output/reader.go:110-131 | a file without a command header still yields an entry, with an empty command |
| LogFiles.LastCommandWins | internal/output/reader.go:130-131 | with repeated command headers the last one's value is kept |
| LogFiles.WorkingDirKept | internal/output/reader.go:147-148 | without a `=== WORKING_DIR: ` line the directory is unchanged |
| LogFiles.LastWorkingDirWins | internal/output/reader.go:147-148 | with repeated directory headers the last one's value is kept |
| LogFiles.StartTimeKept | internal/output/reader.go:132-134 | without a `=== START_TIME: ` line the start time is unchanged |
| LogFiles.LastStartTimeWins | internal/output/reader.go:132-134 | with repeated start-time headers the last one decides, and one that does not parse sets the zero time |
| LogFiles.EndTimeKept | internal/output/reader.go:135-137 | without a `=== END_TIME: ` line the end time is unchanged |
| LogFiles.LastEndTimeWins | internal/output/reader.go:135-137 | with repeated end-time headers the last one decides, and one that does not parse sets the zero time |
| LogFiles.DurationKept | internal/output/reader.go:138-143 | without a `=== DURATION: ` line the duration is unchanged |
| LogFiles.LastDurationWins | internal/output/reader.go:138-143 | with repeated duration headers the last one decides, and one that does not scan sets 0 |
| LogFiles.ExitCodeKept | internal/output/reader.go:144-146 | lines that set no exit code, unscannable `=== EXIT_CODE: ` lines included, leave the code unchanged |
| LogFiles.LastExitCodeWins | internal/output/reader.go:144-146 | the last exit-code header whose value scans decides the code, whatever unscannable ones follow it |
| LogFiles.ExitCodeHeader | internal/output/reader.go:144-146 | an exit-code header stores the scanned value, and a value that does not scan leaves the entry unchanged |
| LogFiles.ExitCodeRoundTrip | internal/output/reader.go:144-146 | an exit-code header holding a printed int64 sets exactly that exit code |
| LogFiles.CleanLogOutputNoBatWarning | internal/output/reader.go:152-169 | no output line contains `[bat warning]`; an output without a warning is the trimmed, stripped text itself; otherwise its lines are the warning-free lines in order |
| Sanitize.MatchCsi | internal/output/reader.go:259 | defines the first alternative `ESC [ params letter`; proved in `Sanitize.StripAnsiDropsCsi` and `Sanitize.CsiShortSubsumed` |
| Sanitize.MatchOsc | internal/output/reader.go:259 | defines the second alternative `ESC ] ... BEL`; proved in `Sanitize.MatchEscape` |
| Sanitize.MatchControlString | internal/output/reader.go:259 | defines the third alternative `ESC P/X/^/_ ... ESC \`; proved in `Sanitize.MatchEscape` |
| Sanitize.MatchCsiShort | internal/output/reader.go:259 | defines the fourth alternative `ESC [ params [mKHJPq]`; proved in `Sanitize.CsiShortSubsumed` |
| Sanitize.CleanText | internal/output/reader.go:264-270 | defines `cleanOutput` as trim then squeeze; proved in `Sanitize.CleanOutput` and `Sanitize.CleanTextProperties` |
| Sanitize.MatchEscape | internal/output/reader.go:259 | a removed control sequence starts with ESC and is at least two characters long |
| Sanitize.CsiShortSubsumed | internal/output/reader.go:259 | whenever the fourth alternative matches, the first matches the same length |
| Sanitize.StripAnsi | internal/output/reader.go:258-261 | stripping never lengthens the text |
| Sanitize.StripAnsiPlainText | internal/output/reader.go:258-261 | text without ESC is unchanged |
| Sanitize.StripAnsiPlainPrefix | internal/output/reader.go:258-261 | an ESC-free prefix is kept as it is and the rest is stripped on its own |
| Sanitize.StripAnsiDropsCsi | internal/output/reader.go:259 | a CSI sequence `ESC [ params letter` is removed entirely |
| Sanitize.StripAnsiSubsequence | internal/output/reader.go:258-261 | the result is a subsequence of the input: stripping only deletes |
| Sanitize.StripAnsiNotIdempotent | internal/output/reader.go:258-261 | one pass can leave an escape sequence that a second pass removes: `ESC [ ESC [ m A` becomes `ESC [ A`, then the empty string |
| Sanitize.Squeeze | internal/output/reader.go:266-268 | removing each newline that starts a triple newline never lengthens the text |
| Sanitize.CleanOutput | internal/output/reader.go:264-270 | the replace-until-stable loop ends with the trimmed, squeezed text, and that text holds no triple newline |
| Sanitize.SqueezeReplaceAll | internal/output/reader.go:266-268 | one `ReplaceAll` pass keeps the squeezed form, so the loop's limit is the squeeze |
| Sanitize.ReplaceAllShrinks | internal/output/reader.go:266-268 | a pass never lengthens the text, and shortens it while a triple newline remains, so the loop ends |
| Sanitize.SqueezeFixpoint | internal/output/reader.go:266 | a text without a triple newline is already squeezed |
| Sanitize.SqueezeNoTriple | internal/output/reader.go:266 | a squeezed text holds no triple newline |
| Sanitize.SqueezeIdempotent | internal/output/reader.go:266-268 | squeezing twice equals squeezing once |
| Sanitize.SqueezeKeepsTrimmed | internal/output/reader.go:265-268 | squeezing a trimmed text leaves it trimmed |
| Sanitize.CleanTextProperties | internal/output/reader.go:264-270 | `cleanOutput`'s result is trimmed, has no triple newline, and cleaning it again changes nothing |
| Prompts.Run | internal/output/reader.go:208-211 | a repeated character class consumes the longest run of matching characters |
| Prompts.RunMaximal | internal/output/reader.go:208-211 | no longer run of matching characters exists |
| Prompts.Ends | internal/output/reader.go:208-211 | every end offset the matcher proposes lies between the start and the end of the line |
| Prompts.EndsSpans | internal/output/reader.go:208-211 | the backtracking matcher proposes an end offset exactly when the pattern spans that stretch of the line, in both directions |
| Prompts.StarSpans | internal/output/reader.go:208-211 | a `*` or `+` repetition followed by the remaining terms ends at an offset exactly when some split point within the greedy run leads the remaining terms there |
| Prompts.FirstFit | internal/output/reader.go:208-211 | the chosen end is the first proposed end, in backtracking order, that leaves a non-empty capture for `(.+)$`; when none is chosen, no proposed end does |
| Prompts.FirstFitAtUnique | internal/output/reader.go:208-211 | only one proposed end is the first that fits |
| Prompts.FindFrom | internal/output/reader.go:228 | defines the leftmost-first search; proved in `Prompts.FindFromSpec` |
| Prompts.Find | internal/output/reader.go:228 | defines `FindStringSubmatch(line)[1]`; proved in `Prompts.FindFromSpec` and `Prompts.ArrowPrefersLongestPath` |
| Prompts.FindFromSpec | internal/output/reader.go:227-228 | `FindStringSubmatch` fails exactly when no start position matches; on success the capture comes from the leftmost matching start and that start's first fitting end in backtracking order |
| Prompts.LeftmostUnique | internal/output/reader.go:227-228 | the leftmost-first rule allows one capture only, so the specification determines the answer |
| Prompts.ArrowPrefersLongestPath | internal/output/reader.go:208 | on `~/x❯y❯ cmd` the `❯` pattern captures `cmd`, because greedy `[^\s]*` takes the longest path first, and `y❯ cmd` is not a leftmost-first capture |
| Prompts.PathPromptNeedsPath | internal/output/reader.go:208-209 | a line holding neither `~` nor `/` matches neither the `❯` nor the `>` pattern |
| Prompts.AcceptedCommand | internal/output/reader.go:230 | defines the filter (more than one byte, not starting with `context`); proved in `Prompts.Candidate` and `Typescript.PromptCommandsAccepted` |
| Prompts.Candidate | internal/output/reader.go:227-233 | a pattern's candidate command is trimmed, longer than one byte, and does not start with `context` |
| Prompts.Cascade | internal/output/reader.go:226-235 | the cascade's answer is one of the candidates |
| Prompts.CascadeFirst | internal/output/reader.go:226-235 | the cascade answers with the first candidate that exists, and answers nothing exactly when no candidate exists |
| Prompts.CandidatesOf | internal/output/reader.go:207-235 | one candidate per pattern, each accepted and trimmed |
| Prompts.Candidates | internal/output/reader.go:207-212 | the four prompt patterns give four candidates, each accepted and trimmed |
| Prompts.CandidatesFour | internal/output/reader.go:207-212 | the candidates are those of the `❯`, `>`, `$` and `%` patterns, in that order |
| Prompts.PromptCommand | internal/output/reader.go:226-235 | a detected command is accepted, trimmed and non-empty |
| Prompts.Cascade4 | internal/output/reader.go:226-235 | of four candidates, the first present one wins |
| Prompts.DetectCommand | internal/output/reader.go:226-235 | the pattern loop, which stops at the first pattern whose command is accepted, returns the command the cascade detects, and the empty string when no pattern gives one |
| Prompts.PromptOrder | internal/output/reader.go:207-235 | patterns are tried in the order `❯`, `>`, `$`, `%`; a rejected candidate falls through to the next pattern; a line has no command exactly when all four reject it |
| Typescript.Classify | internal/output/reader.go:217-246 | defines what one line is (noise, prompt or output); proved in `Typescript.ClassifySpec` and `Typescript.ClassifyCases` |
| Typescript.Segments | internal/output/reader.go:237-252 | defines the blocks of a transcript; proved in `Typescript.SegmentCommands`, `Typescript.SegmentLines` and `Typescript.SegmentsSnoc` |
| Typescript.TypescriptEntries | internal/output/reader.go:198-255 | defines `parseTypescript`; proved in `Typescript.ParseTypescript` and `Typescript.TypescriptEntriesSpec` |
| Typescript.ClassifySpec | internal/output/reader.go:218-246 | a prompt line carries an accepted, trimmed command; an output line is the trimmed line, non-empty, not starting with `Script ` or `Copied to clipboard`, and matched by no prompt |
| Typescript.ClassifyCases | internal/output/reader.go:218-246 | empty and `Script ` lines are skipped, a line with a prompt command opens a command, `Copied to clipboard` lines are skipped, and the rest are output |
| Typescript.SegmentsEmpty | internal/output/reader.go:237-252 | the transcript yields no entry exactly when no line holds a prompt |
| Typescript.SegmentsSnoc | internal/output/reader.go:237-246 | one more line extends the segmentation as the loop does: a prompt opens a new entry, and an output line joins the open entry if there is one |
| Typescript.CloseEntry | internal/output/reader.go:238-239 | a closed entry's output is the cleaned join of its collected lines |
| Typescript.ConsumeLine | internal/output/reader.go:217-247 | one pass of the loop body over a line keeps the open entry, its collected lines and the closed entries equal to the segmentation of the lines read so far |
| Typescript.ParseTypescript | internal/output/reader.go:198-255 | the loop over the lines with an open entry and an output buffer computes the specification's entries |
| Typescript.SegmentCommands | internal/output/reader.go:237-243 | there is one entry per prompt line, carrying that line's command, in order |
| Typescript.SegmentLines | internal/output/reader.go:237-246 | the output lines before the first prompt, followed by the entries' lines in order, are exactly the transcript's output lines: lines before the first prompt go to no entry |
| Typescript.OutsAreOutputLines | internal/output/reader.go:218-246 | an output line is a trimmed transcript line, non-empty, not `Script ` or `Copied to clipboard`, and not a prompt |
| Typescript.PromptCommandsAccepted | internal/output/reader.go:228-233 | every segmented command is trimmed, longer than one byte, and does not start with `context` |
| Typescript.TypescriptEntriesSpec | internal/output/reader.go:198-255 | the entries are as many as the accepted prompt lines, carry their commands in order, and have trimmed outputs without a triple newline |
| OutputReader.TypescriptResult | internal/output/reader.go:175-195 | defines `readFromTypescript`; proved in `OutputReader.TypescriptWindow` |
| OutputReader.WindowInRange | internal/output/reader.go:190-194 | defines when the slice `entries[len(entries)-n:]` is in range: `n >= 0`, or no entries to slice |
| OutputReader.TypescriptWindow | internal/output/reader.go:175-195 | the typescript path fails exactly when the file is missing or unreadable or yields no command; otherwise it returns the last min(n, total) entries in their original order |
| OutputReader.ReadFromTypescript | internal/output/reader.go:175-195 | the method computes the typescript window |
| OutputReader.LogNames | internal/output/reader.go:69-74 | the selected names are exactly the directory names ending in `.log` |
| OutputReader.InsertDescendingSpec | internal/output/reader.go:81-83 | inserting into a descending list keeps it descending and adds exactly that name |
| OutputReader.SortDescendingSpec | internal/output/reader.go:81-83 | the sort gives a descending permutation of the names |
| OutputReader.DescendingUnique | internal/output/reader.go:81-83 | two descending permutations of the same names are equal, so the order is determined by the comparison alone |
| OutputReader.Take | internal/output/reader.go:87 | the first `n` names, or all of them when fewer, and none when `n <= 0` |
| OutputReader.Opened | internal/output/reader.go:87-92 | the names whose file could be opened, exactly those |
| OutputReader.ParsedEntriesOpened | internal/output/reader.go:87-92 | one parsed entry per openable file, in order, each the parse of that file |
| OutputReader.OpenedDescending | internal/output/reader.go:87-92 | skipping unopenable files keeps the descending order |
| OutputReader.TakeGreatest | internal/output/reader.go:81-87 | the chosen names are no smaller than any name left out |
| OutputReader.ReversedMembers | internal/output/reader.go:95-97 | reversal keeps the same elements |
| OutputReader.ReadAscending | internal/output/reader.go:94-97 | after the reversal the entries' file names are in ascending order |
| OutputReader.LogFilesResult | internal/output/reader.go:59-100 | defines `readFromLogFiles`; proved in `OutputReader.LogFilesWindow` |
| OutputReader.LogFilesWindow | internal/output/reader.go:59-100 | the three errors; otherwise at most n of the greatest `.log` names are read, the openable ones are returned in ascending name order, each parsed from its file |
| OutputReader.ReverseInPlace | internal/output/reader.go:95-97 | the swap loop leaves the array reversed |
| OutputReader.ReverseSlice | internal/output/reader.go:95-97 | the parsed entries, copied into an array and reversed in place, come out as their reversal |
| OutputReader.SelectLogNames | internal/output/reader.go:69-74 | the filter loop computes the `.log` selection |
| OutputReader.ParseFirst | internal/output/reader.go:86-92 | the loop parses the first n names and keeps the files that open |
| OutputReader.ReadFromLogFiles | internal/output/reader.go:59-100 | the method computes the log-file window, errors included |
| OutputReader.Read | internal/output/reader.go:48-56 | the typescript result is used when it succeeds with entries, otherwise the log-file result |
| OutputReader.ReadPrefersTypescript | internal/output/reader.go:48-52 | a typescript holding commands always wins for positive n |
| OutputFormat.RawChunk | internal/output/reader.go:290-296 | defines the raw text of one entry; proved in `OutputFormat.RawOmitsEmptyOutput` |
| OutputFormat.MarkdownChunk | internal/output/reader.go:298-306 | defines the markdown text of one entry; proved in `OutputFormat.MarkdownChunkMarks` and `OutputFormat.MarkdownOmitsEmptyOutput` |
| OutputFormat.DetailedChunk | internal/output/reader.go:308-325 | defines the detailed text of one entry; proved in `OutputFormat.ExitLineShownIffNonzero` and `OutputFormat.DetailedOutputRoundTrip` |
| OutputFormat.Chunk | internal/output/reader.go:277-284 | defines the format switch; proved in `OutputFormat.FormatEntries` |
| OutputFormat.FormatRaw | internal/output/reader.go:290-296 | appends the raw chunk for the entry |
| OutputFormat.FormatMarkdown | internal/output/reader.go:298-306 | appends the markdown chunk for the entry |
| OutputFormat.WriteIndented | internal/output/reader.go:318-322 | appends each output line indented by four spaces and ended by a newline |
| OutputFormat.FormatDetailed | internal/output/reader.go:308-325 | appends the detailed chunk for the entry |
| OutputFormat.FormatEntries | internal/output/reader.go:273-288 | the result is the chunks of the entries in order, numbered from 1, in the format chosen (`markdown`, `detailed`, anything else raw) |
| OutputFormat.RawOmitsEmptyOutput | internal/output/reader.go:290-296 | the raw chunk is only the `$ command` line exactly when the output is empty |
| OutputFormat.MarkdownOmitsEmptyOutput | internal/output/reader.go:298-306 | the markdown chunk has no output line exactly when the output is empty |
| OutputFormat.IntToStringHoldsNo | internal/output/reader.go:299 | a printed number holds no backtick and no `#` |
| OutputFormat.LiteralMarks | internal/output/reader.go:299-305 | the counts of backticks and `#` in the markdown literals |
| OutputFormat.MarkdownChunkMarks | internal/output/reader.go:298-306 | an entry without backticks or `#` renders with one `###` heading and two three-backtick fences |
| OutputFormat.MarkdownFencesAndHeadings | internal/output/reader.go:276-306 | markdown output has three `#` and six backticks per entry: one heading, one opening and one closing fence each |
| OutputFormat.ExitLineShownIffNonzero | internal/output/reader.go:313-315 | the exit-code line is printed exactly when the code is nonzero, and it reads back as that code |
| OutputFormat.IndentLinesSplit | internal/output/reader.go:318-322 | the indented block has one line per output line, each the line with four spaces before it |
| OutputFormat.DetailedOutputRoundTrip | internal/output/reader.go:316-323 | the detailed output block is the `Output:` header then every output line indented, and removing the indents and joining gives the output back |
| DirTree.ExcludePatterns | internal/dir/tree.go:25-31 | defines the parsed exclude list; proved in `DirTree.ExcludePatternsSpec` and `DirTree.NewGenerator` |
| DirTree.NewGenerator | internal/dir/tree.go:24-36 | the generator keeps the options and holds the parsed exclude patterns |
| DirTree.SplitCount | internal/dir/tree.go:27 | splitting on a comma gives one more piece than there are commas |
| DirTree.ExcludePatternsSpec | internal/dir/tree.go:25-31 | no patterns for an empty string; otherwise one trimmed, comma-free pattern per comma-separated piece, in order, and without spaces the join gives the string back |
| DirTree.IsExcluded | internal/dir/tree.go:126-136 | a name is excluded exactly when some pattern equals it or glob-matches it |
| DirTree.CheckExcluded | internal/dir/tree.go:126-136 | the pattern loop, which returns at the first pattern that equals or glob-matches the name, answers exactly `IsExcluded` |
| DirTree.Shown | internal/dir/tree.go:93-99 | defines which names are listed; proved in `DirTree.FilteredNames` |
| DirTree.EntryLess | internal/dir/tree.go:116-121 | defines the sibling order; proved in `DirTree.EntryLessAsymmetric` and `DirTree.EntryNotLessTransitive` |
| DirTree.SortEntries | internal/dir/tree.go:116-121 | defines the sorted siblings; proved in `DirTree.SortEntriesSpec` and `DirTree.OrderedUnique` |
| DirTree.EntryLessAsymmetric | internal/dir/tree.go:116-121 | the sibling order never holds both ways |
| DirTree.EntryNotLessTransitive | internal/dir/tree.go:116-121 | not-before is transitive, so the order is a strict weak order |
| DirTree.InsertEntrySpec | internal/dir/tree.go:116-121 | inserting keeps siblings ordered and adds exactly that entry |
| DirTree.SortEntriesSpec | internal/dir/tree.go:116-121 | the sort gives an ordered permutation of the entries |
| DirTree.OrderedUnique | internal/dir/tree.go:116-121 | with distinct names only one ordered permutation exists, so the unstable sort has a single outcome |
| DirTree.DirEntries | internal/dir/tree.go:79-121 | defines the listing of a directory; proved in `DirTree.DirEntriesMembers`, `DirTree.DirEntriesOrdered`, `DirTree.DepthLimit` and `DirTree.ReadDir` |
| DirTree.Collected | internal/dir/tree.go:89-114 | defines the entries the loop collects; proved in `DirTree.CollectedMembers` |
| DirTree.EntryOf | internal/dir/tree.go:101-111 | defines the entry made for one shown child; proved in `DirTree.CollectedMembers` |
| DirTree.ReadDir | internal/dir/tree.go:79-124 | the walk computes the specification listing of a directory |
| DirTree.CollectedMembers | internal/dir/tree.go:89-114 | the collected entries are exactly the shown children, each turned into an entry |
| DirTree.DirEntriesMembers | internal/dir/tree.go:89-121 | within the depth limit a readable directory lists exactly its shown children |
| DirTree.FilteredNames | internal/dir/tree.go:93-99 | no listed name starts with `.` unless hidden names are included, and none equals an exclude pattern |
| DirTree.DepthLimit | internal/dir/tree.go:80-82 | with a positive maximum depth no entry lies deeper than that depth |
| DirTree.DirEntriesOrdered | internal/dir/tree.go:116-121 | at every level directories precede files, and each group is in ascending name order |
| DirTree.FormatTree | internal/dir/tree.go:138-165 | defines `formatTree`; proved in `DirTree.WriteTree`, `DirTree.FormatTreeLines`, `DirTree.SiblingLines` and `DirTree.FormatTreeCount` |
| DirTree.FormatTreeLines | internal/dir/tree.go:138-165 | the drawn tree is its lines, each ended by a newline |
| DirTree.TreeLinesLength | internal/dir/tree.go:138-165 | one line per node |
| DirTree.TreeLinesPreorder | internal/dir/tree.go:141-161 | the k-th line starts with the prefix and ends with the k-th node's label in pre-order |
| DirTree.SiblingLines | internal/dir/tree.go:141-161 | each sibling's line is prefix, connector and label (`└── ` for the last, `├── ` otherwise, `/` after a directory), followed by its children drawn with the prefix extended by `    ` for the last sibling and `│   ` otherwise |
| DirTree.FirstSibling | internal/dir/tree.go:141-161 | the first sibling's line and its subtree open the drawing |
| DirTree.LaterSibling | internal/dir/tree.go:141-161 | a later sibling's line sits after the lines of the siblings before it |
| DirTree.LineCount | internal/dir/tree.go:149-153 | one drawn line holds exactly one newline and none of a character absent from its prefix and name |
| DirTree.FormatTreeCount | internal/dir/tree.go:138-165 | the drawing holds one newline per node, and no character absent from the names and not used for drawing |
| DirTree.WriteTree | internal/dir/tree.go:138-165 | the builder loop, writing each sibling's line, directory slash and newline and then its children through a recursive call, produces exactly the drawing `FormatTree` specifies |
| DirTree.EntriesToJson | internal/dir/tree.go:188-208 | one JSON entry per entry; computed by `DirTree.BuildJson` |
| DirTree.EntriesToJsonShape | internal/dir/tree.go:188-208 | names and order are kept, the type is `directory` exactly for directories and `file` otherwise, and children are present exactly when the entry has children |
| DirTree.JsonRoundTrip | internal/dir/tree.go:188-208 | the entry tree can be rebuilt from its JSON tree |
| DirTree.BuildJson | internal/dir/tree.go:188-208 | the append loop, converting children through a recursive call only when present, produces exactly `EntriesToJson` |
| DirTree.Base | internal/dir/tree.go:48 | `filepath.Base` is non-empty and is either `/` or holds no slash |
| DirTree.RootName | internal/dir/tree.go:48-52 | defines the root name; proved in `DirTree.Generate` |
| DirTree.TreeText | internal/dir/tree.go:65-68 | defines the default output; proved in `DirTree.TreeTextLines` |
| DirTree.FormatMarkdown | internal/dir/tree.go:210-218 | defines `formatMarkdown`; proved in `DirTree.MarkdownWrapsTree` and `DirTree.MarkdownSingleFence` |
| DirTree.TreeTextLines | internal/dir/tree.go:65-68 | the default output is the line `root/` followed by the tree lines, one more line than there are nodes |
| DirTree.MarkdownWrapsTree | internal/dir/tree.go:210-218 | markdown is the heading, a blank line, and the default output inside one fence |
| DirTree.MarkdownSingleFence | internal/dir/tree.go:210-218 | without backticks in the names, markdown holds exactly the six backticks of one fence pair |
| DirTree.WriteMarkdown | internal/dir/tree.go:210-218 | the five builder writes produce exactly `FormatMarkdown` |
| DirTree.Generate | internal/dir/tree.go:38-70 | a stat error and a non-directory give their errors; otherwise the listing from depth 1 rendered as JSON, markdown or the default tree text (`root/`, a newline and the drawing) |
| LastHistory.Decoded | internal/last/reader.go:50-58 | decoding keeps at most one entry per line |
| LastHistory.DecodeLines | internal/last/reader.go:50-58 | the scan loop computes the decoded entries |
| LastHistory.DecodedAppend | internal/last/reader.go:50-58 | decoding works line by line, so file order is kept |
| LastHistory.DecodedMembers | internal/last/reader.go:50-66 | the entries are exactly the lines that decode, and there are none exactly when no line decodes |
| LastHistory.Tail | internal/last/reader.go:68-73 | the selection is the last min(n, total) entries |
| LastHistory.MarkdownBlock | internal/last/reader.go:87 | defines one markdown block; proved in `LastHistory.MarkdownBlockFences` |
| LastHistory.PlainBlock | internal/last/reader.go:89 | defines one plain block; proved in `LastHistory.PlainBlockLines` |
| LastHistory.Formatted | internal/last/reader.go:77-94 | defines `formatOutput`; proved in `LastHistory.FormatOutput`, `LastHistory.RawRoundTrip`, `LastHistory.MarkdownFences` and `LastHistory.PlainLines` |
| LastHistory.FormatOutput | internal/last/reader.go:77-94 | the builder loop computes the formatted text |
| LastHistory.RawRoundTrip | internal/last/reader.go:81-85 | raw output split on newlines gives back each entry's output, so the outputs are joined by single newlines |
| LastHistory.RawNoTrailingNewline | internal/last/reader.go:81-85 | raw output ends with the last output, with no newline after it |
| LastHistory.MarkdownBlockFences | internal/last/reader.go:87 | an entry's markdown block holds one fence pair |
| LastHistory.MarkdownFences | internal/last/reader.go:86-87 | markdown holds six backticks per entry |
| LastHistory.PlainBlockLines | internal/last/reader.go:89 | a plain block is the `=== Command: <cmd> ===` line, then the output line |
| LastHistory.PlainLines | internal/last/reader.go:88-89 | plain output has two lines per entry |
| LastHistory.TailInRange | internal/last/reader.go:68-73 | defines when `entries[start:]` is in range: `n >= 0`, or an error returned before the slice |
| LastHistory.Read | internal/last/reader.go:33-75 | the home, not-found, open and scanner errors are returned with their messages; no decoded entry gives the empty-history error; otherwise the last n decoded entries are formatted |
| LastHistory.ReadSelection | internal/last/reader.go:50-73 | there is no entry exactly when no line decodes, and the tail is the last min(n, total) entries, all of them when n is large enough |

## Left out

- File-system and process access are not modelled:
  - `os.ReadDir`, `os.Open`, `os.Stat`, `os.ReadFile`, `os.UserHomeDir`, `os.Getwd` and `bufio.Scanner` become in-memory parameters;
  - a log directory is a `DirListing`, its files a map from name to lines, the typescript a `TypescriptFile`;
  - a directory tree is an `FsNode` tree with a `readable` flag, and the history file a `HistoryFile` of decoded lines;
  - the current directory is the `cwd` parameter.
- Clipboard access (`internal/clipboard`) and the command-line wiring (`internal/cli`) are not part of this model. They are external processes and flag parsing.
- `bufio.Scanner`'s 64 KiB line limit and its error are modelled only as the `scanError` of a scanned history file. The log-file and typescript paths assume whole lines.
- `time.Parse` is modelled for the one fixed layout only. Its error messages are not modelled (a failure is `None`), and neither are time zones: every parsed time is in UTC, as Go gives it for this layout.
- `json.Unmarshal` of history lines is a decoded `Option<HistoryEntry>` per line.
- `json.MarshalIndent` is not modelled: the JSON format returns the `JsonEntry` tree, not its text.
- `filepath.Match` is the uninterpreted `glob` parameter of the generator. Only the exact-name case of `isExcluded` is concrete, and a malformed pattern counts as no match.
- The `path` field of a tree entry is not modelled. The walk recurses into the child node directly.
- `readDir`'s error result is always nil in the source, so it is left out.
- A `DirEntry.IsDir` on a symbolic link is not modelled. A node is a file or a directory.
- A `.log` entry whose file cannot be opened (one without read permission, say) is a name missing from the file map. A `.log` entry that is a directory opens, scans no line and is the map entry `[]`.
- Invalid UTF-8 in any input is not modelled. Strings are sequences of Unicode scalar values.
- `regexp` is not modelled in general. The four prompt patterns and the `stripANSI` alternation are hand-written matchers for those expressions only.
- `sort.Slice` is specified by the order it produces (`SortDescendingSpec`, `SortEntriesSpec`, with uniqueness lemmas), not by Go's algorithm.
- OutputReader.TypescriptResult: requires `WindowInRange`, a non-negative `n` whenever the typescript yields entries. With entries, the Go slice `entries[len(entries)-n:]` panics for a negative `n`. Without entries the typescript path returns its error for any `n`.
- OutputReader.TypescriptWindow: requires `WindowInRange`, for the same reason.
- OutputReader.ReadFromTypescript: requires `WindowInRange`, for the same reason.
- OutputReader.Read: requires `WindowInRange`, for the same reason. When the typescript yields no entries, a negative `n` reaches the log files, whose loop then runs zero times.
- LastHistory.Tail: requires `n >= 0`. With a negative `n` the Go slice `entries[start:]` panics.
- LastHistory.ReadSelection: requires `n >= 0`, for the same reason.
- LastHistory.Read: requires `TailInRange`, a non-negative `n` whenever the slice is reached. The errors before it are returned for any `n`.
- LogFiles.CleanLogOutputNoBatWarning: when every line carries `[bat warning]`, it states only that no line of the output has a warning, not that the output is empty.

/** `parseLogFile` of internal/output/reader.go. A log file is given as the lines the
    line scanner yields; the file itself is not opened here. */
module LogFiles {
  import opened Basics
  import opened GoStrings
  import opened GoFmt
  import opened GoTime
  import opened Sanitize
  import opened LogEntries

  const OutputMarker: string := "=== OUTPUT:"
  const CommandKey: string := "=== COMMAND: "
  const StartKey: string := "=== START_TIME: "
  const EndKey: string := "=== END_TIME: "
  const DurationKey: string := "=== DURATION: "
  const ExitKey: string := "=== EXIT_CODE: "
  const DirKey: string := "=== WORKING_DIR: "
  const BatWarning: string := "[bat warning]"

  predicate IsOutputMarker(line: string) {
    OutputMarker <= line
  }

  /** A line that starts with one of the six header keys the parser knows. */
  predicate IsKnownHeader(line: string) {
    CommandKey <= line || StartKey <= line || EndKey <= line
    || DurationKey <= line || ExitKey <= line || DirKey <= line
  }

  /** `t, _ = time.Parse("2006-01-02 15:04:05", v)`: the zero time when parsing fails. */
  function TimeOrZero(v: string): (t: DateTime)
    ensures ValidDateTime(t)
    ensures ParseLayout(v).None? ==> t == ZeroTime
    ensures ParseLayout(v).Some? ==> t == ParseLayout(v).value
  {
    match ParseLayout(v)
    case Some(t) => t
    case None => ZeroTime
  }

  /** A `DURATION` value: whole seconds with an optional trailing "s", scanned into a fresh 0
      and multiplied into nanoseconds with 64-bit wrap-around. */
  function DurationOf(v: string): (d: int)
    ensures Int64Min <= d <= Int64Max
  {
    var secs := match ScanInt(TrimSuffix(v, "s")) case Some(x) => x case None => 0;
    Wrap64(secs * NanosPerSecond)
  }

  /** One line before the output marker, applied to the entry parsed so far. An `EXIT_CODE`
      whose value does not scan leaves the previous code in place. */
  function ApplyHeader(e: LogEntry, line: string): LogEntry {
    if CommandKey <= line then e.(command := TrimPrefix(line, CommandKey))
    else if StartKey <= line then e.(startTime := TimeOrZero(TrimPrefix(line, StartKey)))
    else if EndKey <= line then e.(endTime := TimeOrZero(TrimPrefix(line, EndKey)))
    else if DurationKey <= line then e.(duration := DurationOf(TrimPrefix(line, DurationKey)))
    else if ExitKey <= line then
      match ScanInt(TrimPrefix(line, ExitKey))
      case Some(c) => e.(exitCode := c)
      case None => e
    else if DirKey <= line then e.(workingDir := TrimPrefix(line, DirKey))
    else e
  }

  /** The header lines `ls` applied in order. */
  function ApplyHeaders(e: LogEntry, ls: seq<string>): LogEntry {
    if ls == [] then e else ApplyHeader(ApplyHeaders(e, ls[..|ls| - 1]), ls[|ls| - 1])
  }

  /** Position of the first output marker, or `|lines|` when there is none. */
  function MarkerIndex(lines: seq<string>): (m: nat)
    ensures m <= |lines|
    ensures forall k :: 0 <= k < m ==> !IsOutputMarker(lines[k])
    ensures m < |lines| ==> IsOutputMarker(lines[m])
  {
    if lines == [] || IsOutputMarker(lines[0]) then 0
    else
      var m := 1 + MarkerIndex(lines[1..]);
      assert forall k :: 1 <= k < m ==> lines[k] == lines[1..][k - 1];
      m
  }

  /** The lines of `ls` that are not output markers, in order. */
  function NonMarkers(ls: seq<string>): (r: seq<string>)
    ensures |r| <= |ls|
  {
    if ls == [] then []
    else if IsOutputMarker(ls[|ls| - 1]) then NonMarkers(ls[..|ls| - 1])
    else NonMarkers(ls[..|ls| - 1]) + [ls[|ls| - 1]]
  }

  /** What is collected as output: everything after the first marker except further markers. */
  function BodyLines(lines: seq<string>): seq<string> {
    var m := MarkerIndex(lines);
    if m < |lines| then NonMarkers(lines[m + 1..]) else []
  }

  /** The lines of `ls` that do not mention a bat warning, in order. */
  function DropBatWarnings(ls: seq<string>): (r: seq<string>)
    ensures |r| <= |ls|
    ensures forall l :: l in r ==> l in ls && !Contains(l, BatWarning)
  {
    if ls == [] then []
    else
      var r := DropBatWarnings(ls[..|ls| - 1]);
      assert forall l :: l in ls[..|ls| - 1] ==> l in ls;
      if Contains(ls[|ls| - 1], BatWarning) then r else r + [ls[|ls| - 1]]
  }

  /** The collected lines joined, stripped of escape sequences and outer white space, and,
      when a bat warning is present, without the lines that mention one. */
  function CleanLogOutput(outputLines: seq<string>): string {
    var output := TrimSpace(StripAnsi(Join(outputLines, '\n')));
    if Contains(output, BatWarning) then Join(DropBatWarnings(Split(output, '\n')), '\n')
    else output
  }

  /** The entry a log file describes. */
  function LogFileEntry(lines: seq<string>): LogEntry {
    ApplyHeaders(EmptyEntry, lines[..MarkerIndex(lines)]).(output := CleanLogOutput(BodyLines(lines)))
  }

  /** `parseLogFile`: scan the lines, then clean the collected output. */
  method ParseLogFile(lines: seq<string>) returns (entry: LogEntry)
    ensures entry == LogFileEntry(lines)
  {
    var outputLines;
    entry, outputLines := ScanLogLines(lines);
    var output := CleanCollected(outputLines);
    entry := entry.(output := output);
  }

  /** The scan loop: header lines update the entry until the first output marker, after
      which every line except a marker is collected. */
  method ScanLogLines(lines: seq<string>) returns (entry: LogEntry, outputLines: seq<string>)
    ensures entry == ApplyHeaders(EmptyEntry, lines[..MarkerIndex(lines)])
    ensures outputLines == BodyLines(lines)
  {
    ghost var m := MarkerIndex(lines);
    entry := EmptyEntry;
    var inOutput := false;
    outputLines := [];
    var i := 0;
    while i < |lines|
      invariant 0 <= i <= |lines|
      invariant !inOutput ==> i <= m && entry == HeadersBefore(lines, i) && outputLines == []
      invariant inOutput ==>
        (m < i && entry == HeadersBefore(lines, m) && outputLines == OutputBetween(lines, m + 1, i))
    {
      var line := lines[i];
      i := i + 1;
      if OutputMarker <= line {
        if !inOutput {
          MarkerFound(lines, i - 1);
        }
        inOutput := true;
        continue;
      }
      if inOutput {
        outputLines := outputLines + [line];
        continue;
      }
      MarkerNotYet(lines, i - 1);
      entry := ApplyHeader(entry, line);
    }
    ScanFinished(lines, m, inOutput, entry, outputLines);
  }

  /** What the loop holds after the last line is what the scan promises. */
  lemma ScanFinished(lines: seq<string>, m: nat, inOutput: bool, entry: LogEntry, outputLines: seq<string>)
    requires m == MarkerIndex(lines)
    requires !inOutput ==> |lines| <= m && entry == HeadersBefore(lines, |lines|) && outputLines == []
    requires inOutput ==>
      (m < |lines| && entry == HeadersBefore(lines, m) && outputLines == OutputBetween(lines, m + 1, |lines|))
    ensures entry == ApplyHeaders(EmptyEntry, lines[..m])
    ensures outputLines == BodyLines(lines)
  {
    HeadersBeforeSpec(lines, m);
    if inOutput {
      OutputBetweenSpec(lines, m + 1, |lines|);
      SliceToEnd(lines, m + 1);
    }
  }

  /** The first marker met while still reading headers is the first marker of the file. */
  lemma MarkerFound(lines: seq<string>, j: int)
    requires 0 <= j < |lines| && j <= MarkerIndex(lines) && IsOutputMarker(lines[j])
    ensures MarkerIndex(lines) == j
  {
  }

  /** A header line before the first marker leaves the marker further on. */
  lemma MarkerNotYet(lines: seq<string>, j: int)
    requires 0 <= j < |lines| && j <= MarkerIndex(lines) && !IsOutputMarker(lines[j])
    ensures j + 1 <= MarkerIndex(lines)
  {
  }

  /** A slice to the end written with and without its upper bound. */
  lemma SliceToEnd(ls: seq<string>, a: int)
    requires 0 <= a <= |ls|
    ensures ls[a..|ls|] == ls[a..]
  {
  }

  /** The header lines among the first `i`, applied in order, counted by position. */
  ghost function HeadersBefore(lines: seq<string>, i: int): LogEntry
    requires 0 <= i <= |lines|
  {
    if i == 0 then EmptyEntry else ApplyHeader(HeadersBefore(lines, i - 1), lines[i - 1])
  }

  lemma {:induction false} HeadersBeforeSpec(lines: seq<string>, i: int)
    requires 0 <= i <= |lines|
    ensures HeadersBefore(lines, i) == ApplyHeaders(EmptyEntry, lines[..i])
  {
    if i > 0 {
      HeadersBeforeSpec(lines, i - 1);
      assert lines[..i][..i - 1] == lines[..i - 1];
    }
  }

  /** The non-marker lines at positions `a` to `i - 1`, counted by position. */
  ghost function OutputBetween(lines: seq<string>, a: int, i: int): seq<string>
    requires 0 <= a <= i <= |lines|
    decreases i - a
  {
    if i == a then []
    else if IsOutputMarker(lines[i - 1]) then OutputBetween(lines, a, i - 1)
    else OutputBetween(lines, a, i - 1) + [lines[i - 1]]
  }

  lemma {:induction false} OutputBetweenSpec(lines: seq<string>, a: int, i: int)
    requires 0 <= a <= i <= |lines|
    ensures OutputBetween(lines, a, i) == NonMarkers(lines[a..i])
    decreases i - a
  {
    if i > a {
      OutputBetweenSpec(lines, a, i - 1);
      assert lines[a..i][..i - 1 - a] == lines[a..i - 1];
    }
  }

  /** The tail of `parseLogFile`: join, strip, trim, then drop bat warning lines when there are any. */
  method CleanCollected(outputLines: seq<string>) returns (output: string)
    ensures output == CleanLogOutput(outputLines)
  {
    output := Join(outputLines, '\n');
    output := StripAnsi(output);
    output := TrimSpace(output);
    if Contains(output, BatWarning) {
      var split := Split(output, '\n');
      var filtered: seq<string> := [];
      for j := 0 to |split|
        invariant filtered == DropBatWarnings(split[..j])
      {
        assert split[..j + 1][..j] == split[..j];
        if !Contains(split[j], BatWarning) {
          filtered := filtered + [split[j]];
        }
      }
      assert split[..|split|] == split;
      output := Join(filtered, '\n');
    }
  }

  // ---------------------------------------------------------------------------
  // Properties of the parser

  lemma {:induction false} ApplyHeadersAppend(e: LogEntry, a: seq<string>, b: seq<string>)
    ensures ApplyHeaders(e, a + b) == ApplyHeaders(ApplyHeaders(e, a), b)
    decreases |b|
  {
    if b == [] {
      assert a + b == a;
    } else {
      assert (a + b)[..|a + b| - 1] == a + b[..|b| - 1];
      ApplyHeadersAppend(e, a, b[..|b| - 1]);
    }
  }

  /** Header parsing stops at the first output marker: whatever follows it, header-like or
      not, only feeds the output, and the non-marker lines after it are collected in order. */
  lemma HeadersStopAtOutput(pre: seq<string>, marker: string, post: seq<string>)
    requires forall k :: 0 <= k < |pre| ==> !IsOutputMarker(pre[k])
    requires IsOutputMarker(marker)
    ensures LogFileEntry(pre + [marker] + post)
      == ApplyHeaders(EmptyEntry, pre).(output := CleanLogOutput(NonMarkers(post)))
  {
    var lines := pre + [marker] + post;
    assert lines[|pre|] == marker;
    assert forall k :: 0 <= k < |pre| ==> lines[k] == pre[k];
    assert MarkerIndex(lines) == |pre|;
    assert lines[..|pre|] == pre;
    assert lines[|pre| + 1..] == post;
  }

  /** A file without an output marker has no output lines: every line is a header line. */
  lemma NoMarkerNoOutput(lines: seq<string>)
    requires forall k :: 0 <= k < |lines| ==> !IsOutputMarker(lines[k])
    ensures LogFileEntry(lines) == ApplyHeaders(EmptyEntry, lines).(output := [])
  {
    assert MarkerIndex(lines) == |lines|;
    AllHeaders(lines);
  }

  lemma AllHeaders(lines: seq<string>)
    requires MarkerIndex(lines) == |lines|
    ensures LogFileEntry(lines) == ApplyHeaders(EmptyEntry, lines).(output := [])
  {
    assert lines[..MarkerIndex(lines)] == lines;
    assert BodyLines(lines) == [];
    CleanNothing();
  }

  /** No collected lines clean to the empty output. */
  lemma CleanNothing()
    ensures CleanLogOutput([]) == []
  {
    assert Join([], '\n') == [];
    assert StripAnsi([]) == [];
    assert TrimSpace([]) == [];
    assert !Contains([], BatWarning);
  }

  /** Without further markers, the collected output lines are exactly the lines after the first
      marker, in their order. */
  lemma {:induction false} NonMarkersKeepsAll(ls: seq<string>)
    requires forall k :: 0 <= k < |ls| ==> !IsOutputMarker(ls[k])
    ensures NonMarkers(ls) == ls
  {
    if ls != [] {
      NonMarkersKeepsAll(ls[..|ls| - 1]);
      assert ls[..|ls| - 1] + [ls[|ls| - 1]] == ls;
    }
  }

  /** The collected lines are lines of the input that are not markers, and every non-marker
      line of the input is collected. */
  lemma {:induction false} NonMarkersMembers(ls: seq<string>)
    ensures forall l :: l in NonMarkers(ls) <==> l in ls && !IsOutputMarker(l)
  {
    if ls != [] {
      var init := ls[..|ls| - 1];
      NonMarkersMembers(init);
      assert ls == init + [ls[|ls| - 1]];
    }
  }

  /** Lines with an unknown key, or no key at all, leave the entry as it is. */
  lemma {:induction false} UnknownHeadersIgnored(e: LogEntry, ls: seq<string>)
    requires forall k :: 0 <= k < |ls| ==> !IsKnownHeader(ls[k])
    ensures ApplyHeaders(e, ls) == e
  {
    if ls != [] {
      UnknownHeadersIgnored(e, ls[..|ls| - 1]);
    }
  }

  /** Lines without a `COMMAND` key leave the command as it is. */
  lemma {:induction false} CommandKept(e: LogEntry, ls: seq<string>)
    requires forall k :: 0 <= k < |ls| ==> !(CommandKey <= ls[k])
    ensures ApplyHeaders(e, ls).command == e.command
  {
    if ls != [] {
      CommandKept(e, ls[..|ls| - 1]);
    }
  }

  /** A file with no `COMMAND` header still yields an entry, with an empty command. */
  lemma NoCommandLine(lines: seq<string>)
    requires forall k :: 0 <= k < MarkerIndex(lines) ==> !(CommandKey <= lines[k])
    ensures LogFileEntry(lines).command == []
  {
    CommandKept(EmptyEntry, lines[..MarkerIndex(lines)]);
  }

  /** A line that starts with `key` does not start with a key that differs from it at `i`. */
  lemma KeyExcludes(line: string, key: string, other: string, i: int)
    requires key <= line && 0 <= i < |key| && i < |other| && key[i] != other[i]
    ensures !(other <= line)
  {
    assert line[i] == key[i];
  }

  /** The line between `before` and `after` is applied to what `before` made of the entry. */
  lemma LastLineApplied(e: LogEntry, before: seq<string>, line: string, after: seq<string>)
    ensures ApplyHeaders(e, before + [line] + after)
      == ApplyHeaders(ApplyHeader(ApplyHeaders(e, before), line), after)
  {
    ApplyHeadersAppend(e, before + [line], after);
    assert (before + [line])[..|before + [line]| - 1] == before;
  }

  /** A repeated `COMMAND` header: the last one before the marker wins. */
  lemma LastCommandWins(e: LogEntry, before: seq<string>, line: string, after: seq<string>)
    requires CommandKey <= line
    requires forall k :: 0 <= k < |after| ==> !(CommandKey <= after[k])
    ensures ApplyHeaders(e, before + [line] + after).command == line[|CommandKey|..]
  {
    LastLineApplied(e, before, line, after);
    var p := ApplyHeaders(e, before);
    CommandKept(ApplyHeader(p, line), after);
  }

  /** Lines without a `WORKING_DIR` key leave the directory as it is. */
  lemma {:induction false} WorkingDirKept(e: LogEntry, ls: seq<string>)
    requires forall k :: 0 <= k < |ls| ==> !(DirKey <= ls[k])
    ensures ApplyHeaders(e, ls).workingDir == e.workingDir
  {
    if ls != [] {
      WorkingDirKept(e, ls[..|ls| - 1]);
    }
  }

  /** A repeated `WORKING_DIR` header: the last one before the marker wins. */
  lemma LastWorkingDirWins(e: LogEntry, before: seq<string>, line: string, after: seq<string>)
    requires DirKey <= line
    requires forall k :: 0 <= k < |after| ==> !(DirKey <= after[k])
    ensures ApplyHeaders(e, before + [line] + after).workingDir == line[|DirKey|..]
  {
    LastLineApplied(e, before, line, after);
    var p := ApplyHeaders(e, before);
    WorkingDirKept(ApplyHeader(p, line), after);
    WorkingDirHeader(p, line);
  }

  /** A `WORKING_DIR` header sets the directory to the rest of the line. */
  lemma WorkingDirHeader(p: LogEntry, line: string)
    requires DirKey <= line
    ensures ApplyHeader(p, line).workingDir == line[|DirKey|..]
  {
    KeyExcludes(line, DirKey, CommandKey, 4);
    KeyExcludes(line, DirKey, StartKey, 4);
    KeyExcludes(line, DirKey, EndKey, 4);
    KeyExcludes(line, DirKey, DurationKey, 4);
    KeyExcludes(line, DirKey, ExitKey, 4);
  }

  /** A timestamp as the shell hook writes it is read as its fields when they are valid. */
  lemma TimeOfCanonical(v: string)
    requires Canonical(v) && ValidDateTime(CanonicalFields(v))
    ensures TimeOrZero(v) == CanonicalFields(v)
  {
    ParseCanonical(v);
  }

  /** Lines without a `START_TIME` key leave the start time as it is. */
  lemma {:induction false} StartTimeKept(e: LogEntry, ls: seq<string>)
    requires forall k :: 0 <= k < |ls| ==> !(StartKey <= ls[k])
    ensures ApplyHeaders(e, ls).startTime == e.startTime
  {
    if ls != [] {
      StartTimeKept(e, ls[..|ls| - 1]);
    }
  }

  /** A repeated `START_TIME` header: the last one before the marker wins, and one that does
      not parse sets the zero time. */
  lemma LastStartTimeWins(e: LogEntry, before: seq<string>, line: string, after: seq<string>)
    requires StartKey <= line
    requires forall k :: 0 <= k < |after| ==> !(StartKey <= after[k])
    ensures ApplyHeaders(e, before + [line] + after).startTime == TimeOrZero(line[|StartKey|..])
  {
    LastLineApplied(e, before, line, after);
    var p := ApplyHeaders(e, before);
    StartTimeKept(ApplyHeader(p, line), after);
    StartTimeHeader(p, line);
  }

  /** A `START_TIME` header sets the start time from the rest of the line. */
  lemma StartTimeHeader(p: LogEntry, line: string)
    requires StartKey <= line
    ensures ApplyHeader(p, line).startTime == TimeOrZero(line[|StartKey|..])
  {
    KeyExcludes(line, StartKey, CommandKey, 4);
  }

  /** Lines without an `END_TIME` key leave the end time as it is. */
  lemma {:induction false} EndTimeKept(e: LogEntry, ls: seq<string>)
    requires forall k :: 0 <= k < |ls| ==> !(EndKey <= ls[k])
    ensures ApplyHeaders(e, ls).endTime == e.endTime
  {
    if ls != [] {
      EndTimeKept(e, ls[..|ls| - 1]);
    }
  }

  /** A repeated `END_TIME` header: the last one before the marker wins, and one that does
      not parse sets the zero time. */
  lemma LastEndTimeWins(e: LogEntry, before: seq<string>, line: string, after: seq<string>)
    requires EndKey <= line
    requires forall k :: 0 <= k < |after| ==> !(EndKey <= after[k])
    ensures ApplyHeaders(e, before + [line] + after).endTime == TimeOrZero(line[|EndKey|..])
  {
    LastLineApplied(e, before, line, after);
    var p := ApplyHeaders(e, before);
    EndTimeKept(ApplyHeader(p, line), after);
    EndTimeHeader(p, line);
  }

  /** A `END_TIME` header sets the end time from the rest of the line. */
  lemma EndTimeHeader(p: LogEntry, line: string)
    requires EndKey <= line
    ensures ApplyHeader(p, line).endTime == TimeOrZero(line[|EndKey|..])
  {
    KeyExcludes(line, EndKey, CommandKey, 4);
    KeyExcludes(line, EndKey, StartKey, 4);
  }

  /** Lines without a `DURATION` key leave the duration as it is. */
  lemma {:induction false} DurationKept(e: LogEntry, ls: seq<string>)
    requires forall k :: 0 <= k < |ls| ==> !(DurationKey <= ls[k])
    ensures ApplyHeaders(e, ls).duration == e.duration
  {
    if ls != [] {
      DurationKept(e, ls[..|ls| - 1]);
    }
  }

  /** A repeated `DURATION` header: the last one before the marker wins, and one that does
      not scan sets 0, since its seconds start from a fresh 0. */
  lemma LastDurationWins(e: LogEntry, before: seq<string>, line: string, after: seq<string>)
    requires DurationKey <= line
    requires forall k :: 0 <= k < |after| ==> !(DurationKey <= after[k])
    ensures ApplyHeaders(e, before + [line] + after).duration == DurationOf(line[|DurationKey|..])
  {
    LastLineApplied(e, before, line, after);
    var p := ApplyHeaders(e, before);
    DurationKept(ApplyHeader(p, line), after);
    DurationHeader(p, line);
  }

  /** A `DURATION` header sets the duration from the rest of the line. */
  lemma DurationHeader(p: LogEntry, line: string)
    requires DurationKey <= line
    ensures ApplyHeader(p, line).duration == DurationOf(line[|DurationKey|..])
  {
    KeyExcludes(line, DurationKey, CommandKey, 4);
    KeyExcludes(line, DurationKey, StartKey, 4);
    KeyExcludes(line, DurationKey, EndKey, 4);
  }

  /** An `EXIT_CODE` line whose value scans: the only header line that changes the code. */
  predicate SetsExitCode(line: string) {
    ExitKey <= line && ScanInt(line[|ExitKey|..]).Some?
  }

  /** Lines that do not set an exit code, unscannable `EXIT_CODE` lines included, leave the
      code as it is. */
  lemma {:induction false} ExitCodeKept(e: LogEntry, ls: seq<string>)
    requires forall k :: 0 <= k < |ls| ==> !SetsExitCode(ls[k])
    ensures ApplyHeaders(e, ls).exitCode == e.exitCode
  {
    if ls != [] {
      ExitCodeKept(e, ls[..|ls| - 1]);
    }
  }

  /** A repeated `EXIT_CODE` header: the last one whose value scans wins; later ones that do
      not scan leave it in place. */
  lemma LastExitCodeWins(e: LogEntry, before: seq<string>, line: string, after: seq<string>)
    requires SetsExitCode(line)
    requires forall k :: 0 <= k < |after| ==> !SetsExitCode(after[k])
    ensures ApplyHeaders(e, before + [line] + after).exitCode == ScanInt(line[|ExitKey|..]).value
  {
    LastLineApplied(e, before, line, after);
    var p := ApplyHeaders(e, before);
    ExitCodeKept(ApplyHeader(p, line), after);
    assert line == ExitKey + line[|ExitKey|..];
    ExitCodeHeader(p, line[|ExitKey|..]);
  }

  /** An `EXIT_CODE` header whose value scans sets the code; one whose value does not scan
      leaves the code from earlier headers. */
  lemma ExitCodeHeader(e: LogEntry, v: string)
    ensures ScanInt(v).Some? ==> ApplyHeader(e, ExitKey + v) == e.(exitCode := ScanInt(v).value)
    ensures ScanInt(v).None? ==> ApplyHeader(e, ExitKey + v) == e
  {
    var line := ExitKey + v;
    assert line[..|ExitKey|] == ExitKey;
    assert TrimPrefix(line, ExitKey) == v;
    KeyExcludes(line, ExitKey, CommandKey, 4);
    KeyExcludes(line, ExitKey, StartKey, 4);
    KeyExcludes(line, ExitKey, EndKey, 5);
    KeyExcludes(line, ExitKey, DurationKey, 4);
  }

  /** A printed exit code is read back exactly. */
  lemma ExitCodeRoundTrip(e: LogEntry, code: int)
    requires Int64Min <= code <= Int64Max
    ensures ApplyHeader(e, ExitKey + IntToString(code)).exitCode == code
  {
    assert IntToString(code) + [] == IntToString(code);
    if code < 0 {
      ScanPrintedNegative(code, []);
    } else {
      ScanPrintedNonNegative(code, []);
    }
    ExitCodeHeader(e, IntToString(code));
  }

  /** A `DURATION` of `secs` seconds, written as the shell hook writes it, becomes
      `secs` times a second in nanoseconds; a value that does not scan becomes 0. */
  lemma DurationRoundTrip(secs: int)
    requires Int64Min <= secs <= Int64Max
    ensures DurationOf(IntToString(secs) + "s") == Wrap64(secs * NanosPerSecond)
  {
    var v := IntToString(secs) + "s";
    assert HasSuffix(v, "s");
    assert TrimSuffix(v, "s") == IntToString(secs);
    assert IntToString(secs) + [] == IntToString(secs);
    if secs < 0 {
      ScanPrintedNegative(secs, []);
    } else {
      ScanPrintedNonNegative(secs, []);
    }
  }

  lemma DurationUnscannable(v: string)
    requires ScanInt(TrimSuffix(v, "s")).None?
    ensures DurationOf(v) == 0
  {
  }

  /** An underscore ends the scanned number: `1_5s` is one second, `1_0` sets exit code 1. */
  lemma UnderscoreEndsNumber(e: LogEntry)
    ensures DurationOf("1_5s") == NanosPerSecond
    ensures ApplyHeader(e, ExitKey + "1_0") == e.(exitCode := 1)
  {
    UnderscoreDuration();
    UnderscoreExitCode(e);
  }

  lemma UnderscoreDuration()
    ensures DurationOf("1_5s") == NanosPerSecond
  {
    assert IntToString(1) == "1" by { assert NatToDecimal(1) == "1"; }
    ScanPrintedNonNegative(1, "_5");
    assert TrimSuffix("1_5s", "s") == "1" + "_5";
  }

  lemma UnderscoreExitCode(e: LogEntry)
    ensures ApplyHeader(e, ExitKey + "1_0") == e.(exitCode := 1)
  {
    ScanIntUnderscore();
    ExitCodeHeader(e, "1_0");
  }

  /** Split pieces never hold a newline, so splitting the joined kept lines gives them back. */
  lemma {:induction false} DropBatWarningsNoNewline(ls: seq<string>)
    requires forall k :: 0 <= k < |ls| ==> '\n' !in ls[k]
    ensures forall k :: 0 <= k < |DropBatWarnings(ls)| ==> '\n' !in DropBatWarnings(ls)[k]
  {
    var r := DropBatWarnings(ls);
    forall k | 0 <= k < |r|
      ensures '\n' !in r[k]
    {
      assert r[k] in r;
      var j :| 0 <= j < |ls| && ls[j] == r[k];
    }
  }

  /** After cleaning no output line mentions a bat warning; when one was present, the lines
      that remain are exactly those without one, in order. */
  lemma CleanLogOutputNoBatWarning(outputLines: seq<string>)
    ensures forall l :: l in Split(CleanLogOutput(outputLines), '\n') ==> !Contains(l, BatWarning)
    ensures var output := TrimSpace(StripAnsi(Join(outputLines, '\n')));
      !Contains(output, BatWarning) ==> CleanLogOutput(outputLines) == output
    ensures var output := TrimSpace(StripAnsi(Join(outputLines, '\n')));
      var kept := DropBatWarnings(Split(output, '\n'));
      Contains(output, BatWarning) && kept != [] ==> Split(CleanLogOutput(outputLines), '\n') == kept
  {
    var output := TrimSpace(StripAnsi(Join(outputLines, '\n')));
    if Contains(output, BatWarning) {
      var kept := DropBatWarnings(Split(output, '\n'));
      if kept == [] {
        assert CleanLogOutput(outputLines) == [];
        assert Split([], '\n') == [[]];
        assert !Contains([], BatWarning);
      } else {
        DropBatWarningsNoNewline(Split(output, '\n'));
        SplitJoin(kept, '\n');
      }
    } else {
      var pieces := Split(output, '\n');
      forall l | l in pieces
        ensures !Contains(l, BatWarning)
      {
        var k :| 0 <= k < |pieces| && pieces[k] == l;
        if Contains(l, BatWarning) {
          SplitPieceContains(output, '\n', k, BatWarning);
        }
      }
    }
  }
}

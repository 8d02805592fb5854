/** `FormatEntries` and its three helpers in internal/output/reader.go: log entries rendered
    as raw shell text, as Markdown or in a detailed listing, written into a string builder. */
module OutputFormat {
  import opened Basics
  import opened GoStrings
  import opened GoFmt
  import opened LogEntries

  // ---------------------------------------------------------------------------
  // What each helper writes for one entry

  const NL: string := "\n"
  const RawPrompt: string := "$ "
  const HeadingPrefix: string := "### Command "
  const BlankLine: string := "\n\n"
  /** The opening fence and the prompt of the command line. */
  const BashOpen: string := "```bash\n$ "
  /** The closing fence and the blank line after it. */
  const FenceClose: string := "```\n\n"
  const DetailPrefix: string := "Command "
  const ColonSpace: string := ": "
  const DirLabel: string := "  Directory: "
  const ExitLabel: string := "  Exit Code: "
  const OutputLabel: string := "  Output:\n"
  const Indent: string := "    "

  /** The output and its newline, or nothing for an empty output. */
  function OutputPart(e: LogEntry): string {
    if e.output != [] then e.output + NL else []
  }

  /** `formatRaw`: the command after a "$ " prompt, then the output if there is any. */
  function RawChunk(e: LogEntry): string {
    RawPrompt + e.command + NL + OutputPart(e)
  }

  function MarkdownHeading(num: int): string {
    HeadingPrefix + IntToString(num) + BlankLine
  }

  /** `formatMarkdown`: a numbered heading and one `bash` code block holding the command
      and its output. */
  function MarkdownChunk(e: LogEntry, num: int): string {
    MarkdownHeading(num) + (BashOpen + e.command + NL) + OutputPart(e) + FenceClose
  }

  function DirLine(e: LogEntry): string {
    if e.workingDir != [] then DirLabel + e.workingDir + NL else []
  }

  /** The exit-code line of the detailed listing: present only for a nonzero code. */
  function ExitLine(e: LogEntry): string {
    if e.exitCode != 0 then ExitLabel + IntToString(e.exitCode) + NL else []
  }

  /** Each line of an output, on its own line behind four spaces. */
  function IndentLines(ls: seq<string>): string {
    if ls == [] then [] else IndentLines(ls[..|ls| - 1]) + Indent + ls[|ls| - 1] + NL
  }

  /** The output section of the detailed listing. */
  function OutputBlock(e: LogEntry): string {
    if e.output != [] then OutputLabel + IndentLines(Split(e.output, '\n')) else []
  }

  /** `formatDetailed`. */
  function DetailedChunk(e: LogEntry, num: int): string {
    (DetailPrefix + IntToString(num) + ColonSpace + e.command + NL)
    + DirLine(e) + ExitLine(e) + OutputBlock(e) + NL
  }

  /** The `switch r.opts.Format` of `FormatEntries`; entries are numbered from 1. */
  function Chunk(format: string, e: LogEntry, num: int): string {
    if format == "markdown" then MarkdownChunk(e, num)
    else if format == "detailed" then DetailedChunk(e, num)
    else RawChunk(e)
  }

  /** Everything `FormatEntries` writes for `es`. */
  function Rendered(format: string, es: seq<LogEntry>): string {
    if es == [] then [] else Rendered(format, es[..|es| - 1]) + Chunk(format, es[|es| - 1], |es|)
  }

  // ---------------------------------------------------------------------------
  // The writers

  method FormatRaw(result: Builder, e: LogEntry)
    modifies result
    ensures result.text == old(result.text) + RawChunk(e)
  {
    ghost var t0 := result.text;
    ghost var p := RawPrompt + e.command + NL;
    result.WriteString(RawPrompt + e.command + NL);
    if e.output != [] {
      result.WriteString(e.output);
      result.WriteString(NL);
      Regroup3(t0 + p, e.output, NL);
    }
    Regroup3(t0, p, OutputPart(e));
  }

  method FormatMarkdown(result: Builder, e: LogEntry, num: int)
    modifies result
    ensures result.text == old(result.text) + MarkdownChunk(e, num)
  {
    ghost var t0 := result.text;
    result.WriteString(HeadingPrefix + IntToString(num) + BlankLine);
    result.WriteString(BashOpen + e.command + NL);
    ghost var t1 := result.text;
    if e.output != [] {
      result.WriteString(e.output);
      result.WriteString(NL);
      Regroup3(t1, e.output, NL);
    }
    assert result.text == t1 + OutputPart(e);
    result.WriteString(FenceClose);
    Regroup5(t0, MarkdownHeading(num), BashOpen + e.command + NL, OutputPart(e), FenceClose);
  }

  /** The `for _, line := range strings.Split(entry.Output, "\n")` loop of `formatDetailed`. */
  method WriteIndented(result: Builder, lines: seq<string>)
    modifies result
    ensures result.text == old(result.text) + IndentLines(lines)
  {
    ghost var before := result.text;
    for k := 0 to |lines|
      invariant result.text == before + IndentLines(lines[..k])
    {
      assert lines[..k + 1][..k] == lines[..k];
      result.WriteString(Indent);
      result.WriteString(lines[k]);
      result.WriteString(NL);
      Regroup5(before, IndentLines(lines[..k]), Indent, lines[k], NL);
    }
    assert lines[..|lines|] == lines;
  }

  method FormatDetailed(result: Builder, e: LogEntry, num: int)
    modifies result
    ensures result.text == old(result.text) + DetailedChunk(e, num)
  {
    ghost var t0 := result.text;
    ghost var h := DetailPrefix + IntToString(num) + ColonSpace + e.command + NL;
    result.WriteString(DetailPrefix + IntToString(num) + ColonSpace + e.command + NL);
    ghost var t1 := result.text;
    if e.workingDir != [] {
      result.WriteString(DirLabel + e.workingDir + NL);
    }
    assert result.text == t1 + DirLine(e);
    ghost var t2 := result.text;
    if e.exitCode != 0 {
      result.WriteString(ExitLabel + IntToString(e.exitCode) + NL);
    }
    assert result.text == t2 + ExitLine(e);
    ghost var t3 := result.text;
    if e.output != [] {
      result.WriteString(OutputLabel);
      WriteIndented(result, Split(e.output, '\n'));
      Regroup3(t3, OutputLabel, IndentLines(Split(e.output, '\n')));
    }
    assert result.text == t3 + OutputBlock(e);
    result.WriteString(NL);
    Regroup6(t0, h, DirLine(e), ExitLine(e), OutputBlock(e), NL);
  }

  /** `FormatEntries`: every entry in turn, in the chosen format. */
  method FormatEntries(format: string, entries: seq<LogEntry>) returns (s: string)
    ensures s == Rendered(format, entries)
  {
    var result := new Builder();
    for i := 0 to |entries|
      invariant result.text == Rendered(format, entries[..i])
    {
      assert entries[..i + 1][..i] == entries[..i];
      if format == "markdown" {
        FormatMarkdown(result, entries[i], i + 1);
      } else if format == "detailed" {
        FormatDetailed(result, entries[i], i + 1);
      } else {
        FormatRaw(result, entries[i]);
      }
    }
    assert entries[..|entries|] == entries;
    s := result.text;
  }

  // ---------------------------------------------------------------------------
  // Properties of the renderings

  /** Raw output: the output line is left out exactly when the output is empty. */
  lemma RawOmitsEmptyOutput(e: LogEntry)
    ensures RawChunk(e) == RawPrompt + e.command + NL <==> e.output == []
  {
    if e.output != [] {
      assert |RawChunk(e)| > |RawPrompt + e.command + NL|;
    }
  }

  /** Markdown: the code block holds only the command line exactly when the output is empty. */
  lemma MarkdownOmitsEmptyOutput(e: LogEntry, num: int)
    ensures MarkdownChunk(e, num) == MarkdownHeading(num) + (BashOpen + e.command + NL) + FenceClose
      <==> e.output == []
  {
    if e.output != [] {
      assert |MarkdownChunk(e, num)| > |MarkdownHeading(num) + (BashOpen + e.command + NL) + FenceClose|;
    }
  }

  lemma {:induction false} DigitsHoldNo(s: string, c: char)
    requires AllDigits(s) && !IsDigit(c)
    ensures CountChar(s, c) == 0
  {
    if s != [] {
      DigitsHoldNo(s[..|s| - 1], c);
    }
  }

  lemma IntToStringHoldsNo(i: int, c: char)
    requires !IsDigit(c) && c != '-'
    ensures CountChar(IntToString(i), c) == 0
  {
    if i < 0 {
      DigitsHoldNo(NatToDecimal(-i), c);
      CountCharAppend("-", NatToDecimal(-i), c);
    } else {
      DigitsHoldNo(NatToDecimal(i), c);
    }
  }

  lemma LiteralMarks()
    ensures CountChar(HeadingPrefix, '`') == 0 && CountChar(HeadingPrefix, '#') == 3
    ensures CountChar(BlankLine, '`') == 0 && CountChar(BlankLine, '#') == 0
    ensures CountChar(BashOpen, '`') == 3 && CountChar(BashOpen, '#') == 0
    ensures CountChar(FenceClose, '`') == 3 && CountChar(FenceClose, '#') == 0
    ensures CountChar(NL, '`') == 0 && CountChar(NL, '#') == 0
  {
    assert HeadingPrefix == ['#', '#', '#'] + " Command ";
    CountTriple('#', " Command ", '#');
    CountTriple('#', " Command ", '`');
    assert BashOpen == ['`', '`', '`'] + "bash\n$ ";
    CountTriple('`', "bash\n$ ", '#');
    CountTriple('`', "bash\n$ ", '`');
    assert FenceClose == ['`', '`', '`'] + "\n\n";
    CountTriple('`', "\n\n", '#');
    CountTriple('`', "\n\n", '`');
    CountAbsent(BlankLine, '`');
    CountAbsent(BlankLine, '#');
    CountAbsent(NL, '`');
    CountAbsent(NL, '#');
  }

  /** The backquotes and '#' characters in one Markdown entry, when its command and output
      hold none: the two fences and the heading. */
  lemma MarkdownChunkMarks(e: LogEntry, num: int, c: char)
    requires c == '`' || c == '#'
    requires CountChar(e.command, c) == 0 && CountChar(e.output, c) == 0
    ensures CountChar(MarkdownChunk(e, num), c) == if c == '`' then 6 else 3
  {
    IntToStringHoldsNo(num, c);
    LiteralMarks();
    CountCharAppend(HeadingPrefix, IntToString(num), c);
    CountCharAppend(HeadingPrefix + IntToString(num), BlankLine, c);
    CountCharAppend(BashOpen, e.command, c);
    CountCharAppend(BashOpen + e.command, NL, c);
    if e.output != [] {
      CountCharAppend(e.output, NL, c);
    }
    var h := MarkdownHeading(num);
    var l := BashOpen + e.command + NL;
    var o := OutputPart(e);
    CountCharAppend(h, l, c);
    CountCharAppend(h + l, o, c);
    CountCharAppend(h + l + o, FenceClose, c);
  }

  /** When no command or output holds a backquote or a '#', the Markdown rendering holds
      exactly six backquotes (one opening and one closing fence) and three '#' (one
      heading) per entry. */
  lemma {:induction false} MarkdownFencesAndHeadings(es: seq<LogEntry>, c: char)
    requires c == '`' || c == '#'
    requires forall k :: 0 <= k < |es| ==> CountChar(es[k].command, c) == 0 && CountChar(es[k].output, c) == 0
    ensures CountChar(Rendered("markdown", es), c) == (if c == '`' then 6 else 3) * |es|
  {
    if es != [] {
      var init := es[..|es| - 1];
      MarkdownFencesAndHeadings(init, c);
      MarkdownChunkMarks(es[|es| - 1], |es|, c);
      CountCharAppend(Rendered("markdown", init), MarkdownChunk(es[|es| - 1], |es|), c);
    }
  }

  /** Detailed listing: the exit-code line is there exactly when the code is nonzero, and
      the number it shows scans back to the code. */
  lemma ExitLineShownIffNonzero(e: LogEntry)
    requires Int64Min <= e.exitCode <= Int64Max
    ensures ExitLine(e) == [] <==> e.exitCode == 0
    ensures e.exitCode != 0 ==>
      ExitLabel <= ExitLine(e) && ScanInt(ExitLine(e)[|ExitLabel|..]) == Some(e.exitCode)
  {
    if e.exitCode != 0 {
      var v := IntToString(e.exitCode) + NL;
      assert ExitLine(e) == ExitLabel + v;
      assert ExitLine(e)[|ExitLabel|..] == v;
      if e.exitCode < 0 {
        ScanPrintedNegative(e.exitCode, "\n");
      } else {
        ScanPrintedNonNegative(e.exitCode, "\n");
      }
    }
  }

  /** The indented block splits into one line per output line, each behind four spaces,
      followed by the empty remainder after the final newline. */
  lemma {:induction false} IndentLinesSplit(ls: seq<string>)
    requires forall k :: 0 <= k < |ls| ==> '\n' !in ls[k]
    ensures var pieces := Split(IndentLines(ls), '\n');
      |pieces| == |ls| + 1 && pieces[|ls|] == []
      && forall k :: 0 <= k < |ls| ==> pieces[k] == Indent + ls[k]
  {
    if ls != [] {
      var init := ls[..|ls| - 1];
      var last := ls[|ls| - 1];
      IndentLinesSplit(init);
      var a := IndentLines(init);
      var x := Indent + last;
      Regroup3(a, Indent, last);
      assert IndentLines(ls) == (a + x) + ['\n'] + [];
      SplitConcat(a + x, [], '\n');
      assert '\n' !in x;
      SplitExtend(a, x, '\n');
      var p := Split(a, '\n');
      assert p[|p| - 1] + x == x;
      assert Split(IndentLines(ls), '\n') == p[..|init|] + [x] + [[]];
    }
  }

  /** The detailed output section gives the output back: drop the "  Output:" header and the
      four spaces in front of each line, join the lines, and the output reappears. */
  lemma DetailedOutputRoundTrip(e: LogEntry)
    requires e.output != []
    ensures var pieces := Split(OutputBlock(e), '\n');
      var lines := Split(e.output, '\n');
      |pieces| == |lines| + 2 && pieces[0] == "  Output:" && pieces[|lines| + 1] == []
      && (forall k :: 0 <= k < |lines| ==> pieces[k + 1] == Indent + lines[k])
      && Join(lines, '\n') == e.output
  {
    var lines := Split(e.output, '\n');
    IndentLinesSplit(lines);
    assert OutputBlock(e) == "  Output:" + ['\n'] + IndentLines(lines);
    SplitConcat("  Output:", IndentLines(lines), '\n');
    SplitNoSep("  Output:", '\n');
    var pieces := Split(OutputBlock(e), '\n');
    HeaderThenIndented(pieces, "  Output:", Split(IndentLines(lines), '\n'), lines);
    assert pieces[|lines| + 1] == [];
    JoinSplit(e.output, '\n');
  }

  /** The pieces after a header piece are the indented lines, then an empty piece. */
  lemma HeaderThenIndented(pieces: seq<string>, head: string, tail: seq<string>, lines: seq<string>)
    requires pieces == [head] + tail && |tail| == |lines| + 1 && tail[|lines|] == []
    requires forall k :: 0 <= k < |lines| ==> tail[k] == Indent + lines[k]
    ensures |pieces| == |lines| + 2 && pieces[0] == head && pieces[|lines| + 1] == []
    ensures forall k :: 0 <= k < |lines| ==> pieces[k + 1] == Indent + lines[k]
  {
  }
}

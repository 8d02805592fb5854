/** internal/last/reader.go: the last commands of the JSON-lines history, rendered as raw
    output, Markdown or plain text. */
module LastHistory {
  import opened Basics
  import opened GoStrings

  datatype Options = Options(format: string, raw: bool)

  /** One record of the history file. */
  datatype HistoryEntry = HistoryEntry(timestamp: int, command: string, output: string, exitCode: int, pwd: string)

  /** What locating, opening and scanning the history file gives. `Scanned` holds each line's
      decoding (`None` where `json.Unmarshal` rejects the line) and the scanner's error, if any. */
  datatype HistoryFile =
    | NoHome(reason: string)
    | NotFound
    | OpenError(reason: string)
    | Scanned(lines: seq<Option<HistoryEntry>>, scanError: Option<string>)

  const NoHomePrefix := "cannot get home directory: "
  const NotFoundMessage := "history file not found. Run 'context init' for setup instructions"
  const CannotReadPrefix := "cannot read history: "
  const ScanErrorPrefix := "error reading history: "
  const NoEntries := "no history entries found"

  // ---------------------------------------------------------------------------
  // Decoding

  /** The entries of the lines that decode, in file order. */
  function Decoded(lines: seq<Option<HistoryEntry>>): (r: seq<HistoryEntry>)
    ensures |r| <= |lines|
  {
    if lines == [] then []
    else
      var init := Decoded(lines[..|lines| - 1]);
      match lines[|lines| - 1]
      case None => init
      case Some(e) => init + [e]
  }

  /** The scanner loop: a line that does not decode is skipped. */
  method DecodeLines(lines: seq<Option<HistoryEntry>>) returns (entries: seq<HistoryEntry>)
    ensures entries == Decoded(lines)
  {
    entries := [];
    for i := 0 to |lines|
      invariant entries == Decoded(lines[..i])
    {
      assert lines[..i + 1][..i] == lines[..i];
      if lines[i].None? {
        continue;
      }
      entries := entries + [lines[i].value];
    }
    assert lines[..|lines|] == lines;
  }

  /** Decoding works line by line: the entries of two stretches of the file are those of the
      first followed by those of the second. */
  lemma {:induction false} DecodedAppend(a: seq<Option<HistoryEntry>>, b: seq<Option<HistoryEntry>>)
    ensures Decoded(a + b) == Decoded(a) + Decoded(b)
    decreases |b|
  {
    if b == [] {
      assert a + b == a;
    } else {
      assert (a + b)[..|a + b| - 1] == a + b[..|b| - 1];
      DecodedAppend(a, b[..|b| - 1]);
    }
  }

  /** A line that decodes contributes its entry; one that does not contributes nothing. */
  lemma DecodedLine(x: Option<HistoryEntry>)
    ensures Decoded([x]) == if x.Some? then [x.value] else []
  {
    assert [x][..0] == [];
  }

  /** The entries are exactly those of the decoded lines; there are none exactly when no line
      decodes. */
  lemma {:induction false} DecodedMembers(lines: seq<Option<HistoryEntry>>)
    ensures forall e :: e in Decoded(lines) <==> Some(e) in lines
    ensures Decoded(lines) == [] <==> forall k :: 0 <= k < |lines| ==> lines[k].None?
  {
    if lines != [] {
      var init := lines[..|lines| - 1];
      DecodedMembers(init);
      assert lines == init + [lines[|lines| - 1]];
      forall e
        ensures Some(e) in lines <==> Some(e) in init || lines[|lines| - 1] == Some(e)
      {
      }
      if lines[|lines| - 1].None? && Decoded(lines) == [] {
        forall k | 0 <= k < |lines|
          ensures lines[k].None?
        {
          if k < |init| {
            assert lines[k] == init[k];
          }
        }
      }
    }
  }

  // ---------------------------------------------------------------------------
  // The tail

  /** `entries[start:]` with `start = len(entries) - n` clamped at 0: the last `n` entries,
      all of them when there are fewer. */
  function Tail(entries: seq<HistoryEntry>, n: int): (r: seq<HistoryEntry>)
    requires n >= 0
    ensures |r| == Min(n, |entries|)
    ensures r == entries[|entries| - |r|..]
  {
    var start := if |entries| - n < 0 then 0 else |entries| - n;
    entries[start..]
  }

  // ---------------------------------------------------------------------------
  // formatOutput

  const NL := "\n"
  const MarkdownHead := "### Command: "
  const MarkdownOpen := "\n\n```\n"
  const MarkdownClose := "\n```\n\n"
  const PlainHead := "=== Command: "
  const PlainMid := " ===\n"

  /** `### Command: <cmd>`, a blank line, and the output in a code fence. */
  function MarkdownBlock(e: HistoryEntry): string {
    MarkdownHead + e.command + MarkdownOpen + e.output + MarkdownClose
  }

  /** `=== Command: <cmd> ===` and the output on the following line. */
  function PlainBlock(e: HistoryEntry): string {
    PlainHead + e.command + PlainMid + e.output + NL
  }

  function Block(format: string, e: HistoryEntry): string {
    if format == "markdown" then MarkdownBlock(e) else PlainBlock(e)
  }

  /** Texts one after another. */
  function Concat(ts: seq<string>): string {
    if ts == [] then [] else Concat(ts[..|ts| - 1]) + ts[|ts| - 1]
  }

  /** The blocks of the entries, one after another. */
  function Blocks(format: string, es: seq<HistoryEntry>): string {
    Concat(BlockTexts(format, es))
  }

  function BlockTexts(format: string, es: seq<HistoryEntry>): (ts: seq<string>)
    ensures |ts| == |es| && forall k :: 0 <= k < |es| ==> ts[k] == Block(format, es[k])
  {
    seq(|es|, k requires 0 <= k < |es| => Block(format, es[k]))
  }

  function Outputs(es: seq<HistoryEntry>): (r: seq<string>)
    ensures |r| == |es| && forall k :: 0 <= k < |es| ==> r[k] == es[k].output
  {
    seq(|es|, k requires 0 <= k < |es| => es[k].output)
  }

  /** The text `formatOutput` produces: with `raw` set the outputs joined by single newlines,
      whatever the format; otherwise one block per entry. */
  function Formatted(opts: Options, es: seq<HistoryEntry>): string {
    if opts.raw then Join(Outputs(es), '\n') else Blocks(opts.format, es)
  }

  /** What the raw branch has written after `i` entries: their outputs joined by newlines,
      and a newline more when an entry is still to come. */
  function RawSoFar(es: seq<HistoryEntry>, i: nat): string
    requires i <= |es|
  {
    if i == 0 then [] else Join(Outputs(es)[..i], '\n') + (if i < |es| then NL else [])
  }

  /** `formatOutput`: writes each entry into a builder. */
  method FormatOutput(opts: Options, entries: seq<HistoryEntry>) returns (s: string)
    ensures s == Formatted(opts, entries)
  {
    var result := new Builder();
    for i := 0 to |entries|
      invariant opts.raw ==> result.text == RawSoFar(entries, i)
      invariant !opts.raw ==> result.text == Blocks(opts.format, entries[..i])
    {
      var entry := entries[i];
      ghost var t0 := result.text;
      if opts.raw {
        result.WriteString(entry.output);
        if i < |entries| - 1 {
          result.WriteString(NL);
        }
        RawStep(entries, i, t0, result.text);
      } else if opts.format == "markdown" {
        result.WriteString(MarkdownBlock(entry));
        BlocksStep(opts.format, entries, i);
      } else {
        result.WriteString(PlainBlock(entry));
        BlocksStep(opts.format, entries, i);
      }
    }
    s := result.text;
    if !opts.raw {
      assert entries[..|entries|] == entries;
    } else if entries != [] {
      assert Outputs(entries)[..|entries|] == Outputs(entries);
    }
  }

  /** One step of the raw branch. */
  lemma RawStep(es: seq<HistoryEntry>, i: nat, before: string, after: string)
    requires i < |es| && before == RawSoFar(es, i)
    requires after == before + es[i].output + (if i < |es| - 1 then NL else [])
    ensures after == RawSoFar(es, i + 1)
  {
    var outs := Outputs(es);
    assert outs[..i + 1] == outs[..i] + [es[i].output];
    if i == 0 {
      assert outs[..1] == [es[0].output];
    } else {
      JoinAppend(outs[..i], es[i].output, '\n');
    }
  }

  /** With `raw` set, the text is the outputs separated by single newlines, with no newline
      after the last: splitting it at newlines gives the outputs back when none holds one. */
  lemma RawRoundTrip(opts: Options, es: seq<HistoryEntry>)
    requires opts.raw && es != []
    requires forall k :: 0 <= k < |es| ==> '\n' !in es[k].output
    ensures Split(Formatted(opts, es), '\n') == Outputs(es)
  {
    SplitJoin(Outputs(es), '\n');
  }

  /** Join ends with its last piece: nothing follows the last output. */
  lemma {:induction false} JoinEndsWithLast(ls: seq<string>, sep: char)
    requires ls != []
    ensures HasSuffix(Join(ls, sep), ls[|ls| - 1])
  {
    if |ls| > 1 {
      JoinEndsWithLast(ls[1..], sep);
      assert Join(ls, sep) == (ls[0] + [sep]) + Join(ls[1..], sep);
    }
  }

  /** With `raw` set, the text ends with the last entry's output, not with a newline. */
  lemma RawNoTrailingNewline(opts: Options, es: seq<HistoryEntry>)
    requires opts.raw && es != []
    ensures HasSuffix(Formatted(opts, es), es[|es| - 1].output)
  {
    JoinEndsWithLast(Outputs(es), '\n');
  }

  lemma BlocksStep(format: string, es: seq<HistoryEntry>, i: nat)
    requires i < |es|
    ensures Blocks(format, es[..i + 1]) == Blocks(format, es[..i]) + Block(format, es[i])
  {
    var ts, us := BlockTexts(format, es[..i + 1]), BlockTexts(format, es[..i]);
    forall k | 0 <= k < i ensures ts[..i][k] == us[k] {
      assert es[..i + 1][k] == es[k] == es[..i][k];
    }
    assert ts[..i] == us;
    assert ts[i] == Block(format, es[i]) by {
      assert es[..i + 1][i] == es[i];
    }
    assert Concat(ts) == Concat(ts[..i]) + ts[i];
  }

  /** When every text holds `m` copies of `c`, their concatenation holds `m` per text. */
  lemma {:induction false} ConcatCount(ts: seq<string>, c: char, m: nat)
    requires forall k :: 0 <= k < |ts| ==> CountChar(ts[k], c) == m
    ensures CountChar(Concat(ts), c) == m * |ts|
  {
    if ts != [] {
      var init, last := ts[..|ts| - 1], ts[|ts| - 1];
      assert forall k :: 0 <= k < |init| ==> init[k] == ts[k];
      ConcatCount(init, c, m);
      assert Concat(ts) == Concat(init) + last;
      CountCharAppend(Concat(init), last, c);
      MulSucc(m, |init|);
    }
  }

  lemma MulSucc(m: nat, n: nat)
    ensures m * (n + 1) == m * n + m
  {
  }

  lemma MarkdownMarks()
    ensures CountChar(MarkdownHead, '`') == 0
    ensures CountChar(MarkdownOpen, '`') == 3 && CountChar(MarkdownClose, '`') == 3
  {
    assert '`' !in MarkdownHead;
    CountAbsent(MarkdownHead, '`');
    assert MarkdownOpen == "\n\n" + (['`', '`', '`'] + "\n");
    assert MarkdownClose == "\n" + (['`', '`', '`'] + "\n\n");
    CountAbsent("\n\n", '`');
    CountAbsent("\n", '`');
    CountTriple('`', "\n", '`');
    CountTriple('`', "\n\n", '`');
    CountCharAppend("\n\n", ['`', '`', '`'] + "\n", '`');
    CountCharAppend("\n", ['`', '`', '`'] + "\n\n", '`');
  }

  /** A Markdown block opens and closes exactly one code fence. */
  lemma MarkdownBlockFences(e: HistoryEntry)
    requires '`' !in e.command && '`' !in e.output
    ensures CountChar(MarkdownBlock(e), '`') == 6
  {
    MarkdownMarks();
    CountAbsent(e.command, '`');
    CountAbsent(e.output, '`');
    CountCharAppend(MarkdownHead, e.command, '`');
    CountCharAppend(MarkdownHead + e.command, MarkdownOpen, '`');
    CountCharAppend(MarkdownHead + e.command + MarkdownOpen, e.output, '`');
    CountCharAppend(MarkdownHead + e.command + MarkdownOpen + e.output, MarkdownClose, '`');
  }

  /** In Markdown (and without `raw`), every entry gets one fenced block: six backquotes per
      entry when no command or output holds one. */
  lemma MarkdownFences(opts: Options, es: seq<HistoryEntry>)
    requires !opts.raw && opts.format == "markdown"
    requires forall k :: 0 <= k < |es| ==> '`' !in es[k].command && '`' !in es[k].output
    ensures CountChar(Formatted(opts, es), '`') == 6 * |es|
  {
    forall k | 0 <= k < |es|
      ensures CountChar(Block(opts.format, es[k]), '`') == 6
    {
      MarkdownBlockFences(es[k]);
    }
    ConcatCount(seq(|es|, k requires 0 <= k < |es| => Block(opts.format, es[k])), '`', 6);
  }

  /** A plain block is two lines: the command header and the output. */
  lemma PlainBlockLines(e: HistoryEntry)
    requires '\n' !in e.command && '\n' !in e.output
    ensures Split(PlainBlock(e), '\n') == [PlainHead + e.command + " ===", e.output, []]
    ensures CountChar(PlainBlock(e), '\n') == 2
  {
    var h := PlainHead + e.command + " ===";
    assert '\n' !in PlainHead && '\n' !in " ===";
    assert PlainBlock(e) == h + "\n" + e.output + "\n";
    var ls := [h, e.output, []];
    assert ls[1..] == [e.output, []] && ls[1..][1..] == [[]];
    assert Join([[]], '\n') == [];
    assert Join([e.output, []], '\n') == e.output + "\n";
    assert Join(ls, '\n') == h + "\n" + (e.output + "\n");
    assert PlainBlock(e) == Join(ls, '\n');
    SplitJoin(ls, '\n');
    CountAbsent(h, '\n');
    CountAbsent(e.output, '\n');
    assert NL[..0] == [];
    CountCharAppend(h, NL, '\n');
    CountCharAppend(h + NL, e.output, '\n');
    CountCharAppend(h + NL + e.output, NL, '\n');
  }

  /** Any format other than Markdown (and without `raw`) gives two lines per entry. */
  lemma PlainLines(opts: Options, es: seq<HistoryEntry>)
    requires !opts.raw && opts.format != "markdown"
    requires forall k :: 0 <= k < |es| ==> '\n' !in es[k].command && '\n' !in es[k].output
    ensures CountChar(Formatted(opts, es), '\n') == 2 * |es|
  {
    forall k | 0 <= k < |es|
      ensures CountChar(Block(opts.format, es[k]), '\n') == 2
    {
      PlainBlockLines(es[k]);
    }
    ConcatCount(seq(|es|, k requires 0 <= k < |es| => Block(opts.format, es[k])), '\n', 2);
  }

  // ---------------------------------------------------------------------------
  // Read

  /** `Read` returns without panicking: `entries[start:]` is out of range for a negative `n`,
      and it is reached only when the file scans cleanly and some line decodes. */
  predicate TailInRange(file: HistoryFile, n: int) {
    n >= 0 || !file.Scanned? || file.scanError.Some? || Decoded(file.lines) == []
  }

  /** `Read`: the file's errors pass through; otherwise the decoded entries, if there are any,
      are cut to the last `n` and formatted. */
  method Read(opts: Options, file: HistoryFile, n: int) returns (r: Result<string>)
    requires TailInRange(file, n)
    ensures file.NoHome? ==> r == Err(NoHomePrefix + file.reason)
    ensures file.NotFound? ==> r == Err(NotFoundMessage)
    ensures file.OpenError? ==> r == Err(CannotReadPrefix + file.reason)
    ensures file.Scanned? && file.scanError.Some? ==> r == Err(ScanErrorPrefix + file.scanError.value)
    ensures file.Scanned? && file.scanError.None? ==>
      r == if Decoded(file.lines) == [] then Err(NoEntries) else Ok(Formatted(opts, Tail(Decoded(file.lines), n)))
  {
    match file
    case NoHome(reason) =>
      return Err(NoHomePrefix + reason);
    case NotFound =>
      return Err(NotFoundMessage);
    case OpenError(reason) =>
      return Err(CannotReadPrefix + reason);
    case Scanned(lines, scanError) =>
      var entries := DecodeLines(lines);
      if scanError.Some? {
        return Err(ScanErrorPrefix + scanError.value);
      }
      if |entries| == 0 {
        return Err(NoEntries);
      }
      var start := |entries| - n;
      if start < 0 {
        start := 0;
      }
      var selected := entries[start..];
      var text := FormatOutput(opts, selected);
      return Ok(text);
  }

  /** The entries `Read` formats are the last `min(n, count)` decoded ones, in file order, and
      the error comes exactly when no line decodes. */
  lemma ReadSelection(lines: seq<Option<HistoryEntry>>, n: int)
    requires n >= 0
    ensures Decoded(lines) == [] <==> forall k :: 0 <= k < |lines| ==> lines[k].None?
    ensures var es := Decoded(lines);
      && |Tail(es, n)| == Min(n, |es|)
      && Tail(es, n) == es[|es| - |Tail(es, n)|..]
      && (n >= |es| ==> Tail(es, n) == es)
  {
    DecodedMembers(lines);
  }
}

/** `parseTypescript` (internal/output/reader.go): segmenting a `script` transcript into the
    commands typed at a prompt, each with the output lines printed until the next prompt. */
module Typescript {
  import opened Basics
  import opened GoStrings
  import opened Sanitize
  import opened Prompts
  import opened LogEntries

  /** What one transcript line is to the segmenter, once trimmed. */
  datatype LineKind = Noise | PromptLine(command: string) | OutputLine(text: string)

  /** A command and the output lines collected for it, before they are joined and cleaned. */
  datatype Block = Block(command: string, lines: seq<string>)

  predicate IsNoise(t: string) {
    t == [] || "Script " <= t
  }

  /** How the loop body treats a line: empty and `Script ` lines are skipped, a line with an
      accepted prompt opens a new entry, and any other line is output unless it is a clipboard
      notice. */
  function Classify(line: string): LineKind
  {
    var t := TrimSpace(line);
    if IsNoise(t) then Noise
    else match PromptCommand(t)
      case Some(c) => PromptLine(c)
      case None => if "Copied to clipboard" <= t then Noise else OutputLine(t)
  }

  /** A prompt line carries an accepted, trimmed command; an output line carries the trimmed
      line, which is neither empty, nor noise, nor a clipboard notice, nor a prompt. */
  lemma ClassifySpec(line: string)
    ensures var k := Classify(line);
      && (k.PromptLine? ==> AcceptedCommand(k.command) && Trimmed(k.command))
      && (k.OutputLine? ==>
        && k.text == TrimSpace(line) && k.text != [] && Trimmed(k.text)
        && !("Script " <= k.text) && !("Copied to clipboard" <= k.text)
        && PromptCommand(k.text).None?)
  {
  }

  /** The kind of each line, in order. */
  function Kinds(lines: seq<string>): (ks: seq<LineKind>)
    ensures |ks| == |lines|
  {
    seq(|lines|, k requires 0 <= k < |lines| => Classify(lines[k]))
  }

  lemma KindsTail(lines: seq<string>)
    requires lines != []
    ensures Kinds(lines)[0] == Classify(lines[0])
    ensures Kinds(lines)[1..] == Kinds(lines[1..])
  {
    var a, b := Kinds(lines)[1..], Kinds(lines[1..]);
    assert |a| == |b|;
    forall j | 0 <= j < |b|
      ensures a[j] == b[j]
    {
      SameLineSameKind(lines, j + 1, lines[1..], j);
    }
  }

  /** Equal lines are classified alike, wherever they sit. */
  lemma SameLineSameKind(xs: seq<string>, i: nat, ys: seq<string>, j: nat)
    requires i < |xs| && j < |ys| && xs[i] == ys[j]
    ensures Kinds(xs)[i] == Kinds(ys)[j]
  {
  }

  /** The kinds of the first `i + 1` lines: those of the first `i`, then line `i`'s. */
  lemma KindsSnoc(lines: seq<string>, i: nat)
    requires i < |lines|
    ensures Kinds(lines[..i + 1]) == Kinds(lines[..i]) + [Classify(lines[i])]
  {
    var a, b := Kinds(lines[..i + 1]), Kinds(lines[..i]) + [Classify(lines[i])];
    forall j | 0 <= j < i + 1
      ensures a[j] == b[j]
    {
      if j < i {
        SameLineSameKind(lines[..i + 1], j, lines[..i], j);
      }
    }
  }

  // ---------------------------------------------------------------------------
  // Reference segmentation

  /** The texts of the output lines among `ks`, in order. */
  function Outs(ks: seq<LineKind>): seq<string> {
    if ks == [] then []
    else (if ks[0].OutputLine? then [ks[0].text] else []) + Outs(ks[1..])
  }

  /** The texts of the output lines that come before the first prompt line of `ks`. */
  function Lead(ks: seq<LineKind>): seq<string> {
    if ks == [] || ks[0].PromptLine? then []
    else (if ks[0].OutputLine? then [ks[0].text] else []) + Lead(ks[1..])
  }

  /** The commands of the prompt lines among `ks`, in order. */
  function PromptCommands(ks: seq<LineKind>): seq<string> {
    if ks == [] then []
    else (if ks[0].PromptLine? then [ks[0].command] else []) + PromptCommands(ks[1..])
  }

  predicate NoPrompt(ks: seq<LineKind>) {
    forall j :: 0 <= j < |ks| ==> !ks[j].PromptLine?
  }

  /** Each prompt line opens a block that owns the output lines up to the next prompt line;
      lines before the first prompt belong to no block. */
  function Segments(ks: seq<LineKind>): seq<Block> {
    if ks == [] then []
    else (if ks[0].PromptLine? then [Block(ks[0].command, Lead(ks[1..]))] else []) + Segments(ks[1..])
  }

  /** The entry a finished block becomes: the command and its cleaned, joined output. */
  function ToEntry(b: Block): LogEntry {
    EmptyEntry.(command := b.command, output := CleanText(Join(b.lines, '\n')))
  }

  function ToEntries(bs: seq<Block>): (es: seq<LogEntry>)
    ensures |es| == |bs|
  {
    if bs == [] then [] else ToEntries(bs[..|bs| - 1]) + [ToEntry(bs[|bs| - 1])]
  }

  lemma {:induction false} ToEntriesAt(bs: seq<Block>, i: nat)
    requires i < |bs|
    ensures ToEntries(bs)[i] == ToEntry(bs[i])
  {
    var init := bs[..|bs| - 1];
    assert ToEntries(bs) == ToEntries(init) + [ToEntry(bs[|bs| - 1])];
    if i < |bs| - 1 {
      ToEntriesAt(init, i);
      assert init[i] == bs[i];
    }
  }

  /** The segmentation of a transcript, as `parseTypescript` returns it. */
  function TypescriptEntries(content: string): seq<LogEntry> {
    ToEntries(Segments(Kinds(Split(StripAnsi(content), '\n'))))
  }

  // ---------------------------------------------------------------------------
  // One line at a time: the step the loop takes

  /** The blocks after one more line: a prompt opens a block, an output line joins the open
      block (if any), noise changes nothing. */
  function Extend(bs: seq<Block>, k: LineKind): seq<Block> {
    match k
    case Noise => bs
    case PromptLine(c) => bs + [Block(c, [])]
    case OutputLine(t) =>
      if bs == [] then bs
      else bs[..|bs| - 1] + [Block(bs[|bs| - 1].command, bs[|bs| - 1].lines + [t])]
  }

  lemma {:induction false} LeadSnoc(ks: seq<LineKind>, k: LineKind)
    ensures Lead(ks + [k]) == if NoPrompt(ks) && k.OutputLine? then Lead(ks) + [k.text] else Lead(ks)
  {
    if ks == [] {
      assert [k][1..] == [];
      assert ks + [k] == [k];
    } else {
      assert (ks + [k])[1..] == ks[1..] + [k];
      LeadSnoc(ks[1..], k);
      assert NoPrompt(ks) <==> !ks[0].PromptLine? && NoPrompt(ks[1..]) by {
        assert forall j :: 1 <= j < |ks| ==> ks[j] == ks[1..][j - 1];
      }
    }
  }

  lemma {:induction false} SegmentsEmpty(ks: seq<LineKind>)
    ensures Segments(ks) == [] <==> NoPrompt(ks)
  {
    if ks != [] {
      SegmentsEmpty(ks[1..]);
      assert forall j :: 1 <= j < |ks| ==> ks[j] == ks[1..][j - 1];
    }
  }

  lemma ExtendAppend(x: seq<Block>, y: seq<Block>, k: LineKind)
    requires y != []
    ensures Extend(x + y, k) == x + Extend(y, k)
  {
    if k.OutputLine? {
      assert (x + y)[..|x + y| - 1] == x + y[..|y| - 1];
    }
  }

  /** The reference segmentation, extended by one line, is one step of the loop. */
  lemma {:induction false} SegmentsSnoc(ks: seq<LineKind>, k: LineKind)
    ensures Segments(ks + [k]) == Extend(Segments(ks), k)
  {
    if ks == [] {
      assert ks + [k] == [k];
      assert [k][1..] == [];
    } else {
      var h, r := ks[0], ks[1..];
      assert (ks + [k])[0] == h && (ks + [k])[1..] == r + [k];
      SegmentsSnoc(r, k);
      if h.PromptLine? {
        assert Segments(ks + [k]) == [Block(h.command, Lead(r + [k]))] + Segments(r + [k]);
        assert Segments(ks) == [Block(h.command, Lead(r))] + Segments(r);
        PromptBlockSnoc(h.command, r, k);
      } else {
        assert Segments(ks + [k]) == Segments(r + [k]);
        assert Segments(ks) == Segments(r);
      }
    }
  }

  /** `SegmentsSnoc` for a transcript that starts with a prompt: the new line joins the first
      block while no later prompt has opened another. */
  lemma PromptBlockSnoc(c: string, r: seq<LineKind>, k: LineKind)
    requires Segments(r + [k]) == Extend(Segments(r), k)
    ensures [Block(c, Lead(r + [k]))] + Segments(r + [k]) == Extend([Block(c, Lead(r))] + Segments(r), k)
  {
    var b := Block(c, Lead(r));
    LeadSnoc(r, k);
    SegmentsEmpty(r);
    if NoPrompt(r) {
      assert Segments(r) == [];
      assert [b] + Segments(r) == [b];
    } else {
      ExtendAppend([b], Segments(r), k);
    }
  }

  // ---------------------------------------------------------------------------
  // The loop

  lemma ClassifyCases(raw: string, line: string)
    requires line == TrimSpace(raw)
    ensures IsNoise(line) ==> Classify(raw) == Noise
    ensures !IsNoise(line) && PromptCommand(line).Some? ==> Classify(raw) == PromptLine(PromptCommand(line).value)
    ensures !IsNoise(line) && PromptCommand(line).None? ==>
      Classify(raw) == if "Copied to clipboard" <= line then Noise else OutputLine(line)
  {
  }

  lemma ToEntriesSnoc(bs: seq<Block>, b: Block)
    ensures ToEntries(bs + [b]) == ToEntries(bs) + [ToEntry(b)]
  {
    assert (bs + [b])[..|bs|] == bs;
  }

  /** The open entry as it is appended: `currentEntry.Output = cleanOutput(strings.Join(outputLines, "\n"))`. */
  method CloseEntry(command: string, outputLines: seq<string>) returns (entry: LogEntry)
    ensures entry == ToEntry(Block(command, outputLines))
  {
    var output := CleanOutput(Join(outputLines, '\n'));
    entry := EmptyEntry.(command := command, output := output);
  }

  /** The loop's state against the reference: with no open entry nothing has been segmented;
      with one, the segments are the closed blocks followed by the open block. */
  ghost predicate LoopState(ks: seq<LineKind>, closed: seq<Block>, current: Option<string>, outputLines: seq<string>) {
    && (current.None? ==> Segments(ks) == [] && closed == [])
    && (current.Some? ==> Segments(ks) == closed + [Block(current.value, outputLines)])
  }

  /** A skipped line: noise, or an output line while no entry is open. */
  lemma SkipStep(ks: seq<LineKind>, closed: seq<Block>, current: Option<string>, outputLines: seq<string>, k: LineKind)
    requires LoopState(ks, closed, current, outputLines)
    requires k.Noise? || (k.OutputLine? && current.None?)
    ensures LoopState(ks + [k], closed, current, outputLines)
  {
    SegmentsSnoc(ks, k);
  }

  /** A prompt line closes the open entry, if any, and opens a new one with no output. */
  lemma PromptStep(ks: seq<LineKind>, closed: seq<Block>, current: Option<string>, outputLines: seq<string>, c: string)
    requires LoopState(ks, closed, current, outputLines)
    ensures var closed' := if current.Some? then closed + [Block(current.value, outputLines)] else closed;
      LoopState(ks + [PromptLine(c)], closed', Some(c), [])
  {
    SegmentsSnoc(ks, PromptLine(c));
  }

  /** An output line while an entry is open joins that entry's output. */
  lemma OutputStep(ks: seq<LineKind>, closed: seq<Block>, current: Option<string>, outputLines: seq<string>, t: string)
    requires LoopState(ks, closed, current, outputLines) && current.Some?
    ensures LoopState(ks + [OutputLine(t)], closed, current, outputLines + [t])
  {
    SegmentsSnoc(ks, OutputLine(t));
    assert (closed + [Block(current.value, outputLines)])[..|closed|] == closed;
  }

  /** One pass of `parseTypescript`'s loop body over the raw line `raw`: the open entry,
      its output buffer and the finished entries after that line. */
  method ConsumeLine(raw: string, current: Option<string>, outputLines: seq<string>, entries: seq<LogEntry>,
                     ghost ks: seq<LineKind>, ghost closed: seq<Block>)
    returns (current': Option<string>, outputLines': seq<string>, entries': seq<LogEntry>, ghost closed': seq<Block>)
    requires entries == ToEntries(closed) && LoopState(ks, closed, current, outputLines)
    ensures entries' == ToEntries(closed') && LoopState(ks + [Classify(raw)], closed', current', outputLines')
  {
    current', outputLines', entries', closed' := current, outputLines, entries, closed;
    var line := TrimSpace(raw);
    ghost var k := Classify(raw);
    ClassifyCases(raw, line);
    if |line| == 0 || "Script " <= line {
      SkipStep(ks, closed, current, outputLines, k);
      return;
    }
    var command := DetectCommand(line);
    if command != [] {
      assert k == PromptLine(command);
      PromptStep(ks, closed, current, outputLines, command);
      if current.Some? {
        var entry := CloseEntry(current.value, outputLines);
        ToEntriesSnoc(closed, Block(current.value, outputLines));
        closed' := closed + [Block(current.value, outputLines)];
        entries' := entries + [entry];
      }
      current' := Some(command);
      outputLines' := [];
    } else if current.Some? && !("Copied to clipboard" <= line) {
      assert k == OutputLine(line);
      OutputStep(ks, closed, current, outputLines, line);
      outputLines' := outputLines + [line];
    } else {
      SkipStep(ks, closed, current, outputLines, k);
    }
  }

  /** `parseTypescript`: strip escape codes, split into lines, and segment them with an open
      entry and an output buffer. */
  method ParseTypescript(content: string) returns (entries: seq<LogEntry>)
    ensures entries == TypescriptEntries(content)
  {
    var lines := Split(StripAnsi(content), '\n');
    ghost var closed: seq<Block> := [];
    entries := [];
    var current: Option<string> := None;
    var outputLines: seq<string> := [];
    var i := 0;
    while i < |lines|
      invariant 0 <= i <= |lines|
      invariant entries == ToEntries(closed)
      invariant LoopState(Kinds(lines[..i]), closed, current, outputLines)
    {
      KindsSnoc(lines, i);
      current, outputLines, entries, closed := ConsumeLine(lines[i], current, outputLines, entries, Kinds(lines[..i]), closed);
      i := i + 1;
    }
    assert lines[..|lines|] == lines;
    FinalState(Kinds(lines), closed, current, outputLines);
    if current.Some? {
      var entry := CloseEntry(current.value, outputLines);
      entries := entries + [entry];
    }
  }

  /** After the last line, closing the open entry (if any) completes the segmentation. */
  lemma FinalState(ks: seq<LineKind>, closed: seq<Block>, current: Option<string>, outputLines: seq<string>)
    requires LoopState(ks, closed, current, outputLines)
    ensures current.None? ==> ToEntries(closed) == ToEntries(Segments(ks))
    ensures current.Some? ==>
      ToEntries(closed) + [ToEntry(Block(current.value, outputLines))] == ToEntries(Segments(ks))
  {
    if current.Some? {
      ToEntriesSnoc(closed, Block(current.value, outputLines));
    }
  }

  // ---------------------------------------------------------------------------
  // What the segmentation promises

  /** One entry per line with an accepted prompt, carrying that prompt's command, in order. */
  lemma {:induction false} SegmentCommands(ks: seq<LineKind>)
    ensures |Segments(ks)| == |PromptCommands(ks)|
    ensures forall i :: 0 <= i < |Segments(ks)| ==> Segments(ks)[i].command == PromptCommands(ks)[i]
  {
    if ks != [] {
      var r := ks[1..];
      SegmentCommands(r);
      var head := if ks[0].PromptLine? then [Block(ks[0].command, Lead(r))] else [];
      var heads := if ks[0].PromptLine? then [ks[0].command] else [];
      assert Segments(ks) == head + Segments(r);
      assert PromptCommands(ks) == heads + PromptCommands(r);
      forall i | 0 <= i < |Segments(ks)|
        ensures Segments(ks)[i].command == PromptCommands(ks)[i]
      {
        if i >= |head| {
          assert Segments(ks)[i] == Segments(r)[i - |head|];
          assert PromptCommands(ks)[i] == PromptCommands(r)[i - |heads|];
        }
      }
    }
  }

  function FlattenLines(bs: seq<Block>): seq<string> {
    if bs == [] then [] else bs[0].lines + FlattenLines(bs[1..])
  }

  /** The output lines before the first prompt, followed by the lines of all blocks in order,
      are exactly the output lines: each output line after the first prompt lands in exactly one
      entry, in order, and nothing else does. */
  lemma {:induction false} SegmentLines(ks: seq<LineKind>)
    ensures Lead(ks) + FlattenLines(Segments(ks)) == Outs(ks)
  {
    if ks != [] {
      var r := ks[1..];
      SegmentLines(r);
      if ks[0].PromptLine? {
        assert Lead(ks) == [] && Outs(ks) == Outs(r);
        assert Segments(ks) == [Block(ks[0].command, Lead(r))] + Segments(r);
        assert FlattenLines(Segments(ks)) == Lead(r) + FlattenLines(Segments(r));
      } else {
        var x := if ks[0].OutputLine? then [ks[0].text] else [];
        assert Lead(ks) == x + Lead(r) && Outs(ks) == x + Outs(r);
        assert Segments(ks) == Segments(r);
        assert (x + Lead(r)) + FlattenLines(Segments(r)) == x + (Lead(r) + FlattenLines(Segments(r)));
      }
    }
  }

  /** Every output line is non-empty, trimmed, and neither a `Script ` line, a clipboard notice
      nor a prompt line; it is the trimmed form of a line of the transcript. */
  lemma {:induction false} OutsAreOutputLines(lines: seq<string>)
    ensures forall t :: t in Outs(Kinds(lines)) ==>
      && t != [] && Trimmed(t) && !("Script " <= t) && !("Copied to clipboard" <= t)
      && PromptCommand(t).None?
      && exists j :: 0 <= j < |lines| && t == TrimSpace(lines[j])
  {
    if lines != [] {
      var ks := Kinds(lines);
      OutsAreOutputLines(lines[1..]);
      KindsTail(lines);
      forall t | t in Outs(ks[1..])
        ensures exists j :: 0 <= j < |lines| && t == TrimSpace(lines[j])
      {
        var j :| 0 <= j < |lines[1..]| && t == TrimSpace(lines[1..][j]);
        assert t == TrimSpace(lines[j + 1]);
      }
      assert ks[0] == Classify(lines[0]);
      ClassifySpec(lines[0]);
    }
  }

  lemma {:induction false} PromptCommandsAccepted(lines: seq<string>)
    ensures forall c :: c in PromptCommands(Kinds(lines)) ==> AcceptedCommand(c) && Trimmed(c)
  {
    if lines != [] {
      var ks := Kinds(lines);
      PromptCommandsAccepted(lines[1..]);
      KindsTail(lines);
      assert ks[0] == Classify(lines[0]);
      ClassifySpec(lines[0]);
    }
  }

  /** What `parseTypescript` returns for a transcript: one entry per line with an accepted
      prompt, in order, with that prompt's command, which is trimmed, longer than one byte and
      not `context...`; each output is trimmed and has no three newlines in a row. */
  lemma TypescriptEntriesSpec(content: string)
    ensures var ks := Kinds(Split(StripAnsi(content), '\n'));
      var es := TypescriptEntries(content);
      && |es| == |PromptCommands(ks)|
      && (forall i :: 0 <= i < |es| ==> es[i].command == PromptCommands(ks)[i])
      && (forall i :: 0 <= i < |es| ==> AcceptedCommand(es[i].command) && Trimmed(es[i].command))
      && (forall i :: 0 <= i < |es| ==> Trimmed(es[i].output) && !Contains(es[i].output, Nl3))
  {
    var lines := Split(StripAnsi(content), '\n');
    var ks := Kinds(lines);
    var bs := Segments(ks);
    var es := TypescriptEntries(content);
    SegmentCommands(ks);
    PromptCommandsAccepted(lines);
    forall i | 0 <= i < |es|
      ensures es[i].command == PromptCommands(ks)[i]
      ensures AcceptedCommand(es[i].command) && Trimmed(es[i].command)
      ensures Trimmed(es[i].output) && !Contains(es[i].output, Nl3)
    {
      ToEntriesAt(bs, i);
      assert PromptCommands(ks)[i] in PromptCommands(ks);
      CleanTextProperties(Join(bs[i].lines, '\n'));
    }
  }
}

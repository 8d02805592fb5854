/** The `Reader` of internal/output/reader.go: where entries come from (the session
    typescript, else the per-command log files) and how many of them are returned.
    The file system is given as values: the typescript file, the log directory's listing
    and the lines of each log file that can be opened. */
module OutputReader {
  import opened Basics
  import opened GoStrings
  import opened LogEntries
  import opened LogFiles
  import opened Typescript

  const NoLogDirectory: string := "no log directory found. Enable shell integration first."
  const LogDirFailure: string := "failed to read log directory: "
  const NoLogFiles: string := "no log files found. Run some commands first."
  const NoTypescript: string := "no typescript file"
  const NoCommands: string := "no commands in typescript"

  /** What `os.ReadDir` reports for the log directory. */
  datatype DirListing = NoDirectory | DirError(reason: string) | Listing(names: seq<string>)

  /** What `os.Stat` and `os.ReadFile` report for the typescript. */
  datatype TypescriptFile = NoFile | FileError(reason: string) | FileContent(content: string)

  // ---------------------------------------------------------------------------
  // The typescript path

  /** `readFromTypescript(n)` returns without panicking: the slice
      `entries[len(entries)-n:]` is out of range for a negative `n`, and it is reached only
      when the typescript yields at least one entry. */
  predicate WindowInRange(file: TypescriptFile, n: int) {
    n >= 0 || !file.FileContent? || TypescriptEntries(file.content) == []
  }

  /** `readFromTypescript(n)`: the last `min(n, len)` parsed entries. */
  function TypescriptResult(file: TypescriptFile, n: int): (r: Result<seq<LogEntry>>)
    requires WindowInRange(file, n)
  {
    match file
    case NoFile => Err(NoTypescript)
    case FileError(reason) => Err(reason)
    case FileContent(content) =>
      var entries := TypescriptEntries(content);
      if |entries| == 0 then Err(NoCommands)
      else
        var m := if n > |entries| then |entries| else n;
        Ok(entries[|entries| - m..])
  }

  /** The typescript path fails exactly when the file is missing or unreadable or has no
      command; otherwise it yields the last `min(n, len)` entries in their original order. */
  lemma TypescriptWindow(file: TypescriptFile, n: int)
    requires WindowInRange(file, n)
    ensures TypescriptResult(file, n).Err? <==>
      (file.NoFile? || file.FileError? || TypescriptEntries(file.content) == [])
    ensures file.NoFile? ==> TypescriptResult(file, n) == Err(NoTypescript)
    ensures file.FileContent? && TypescriptEntries(file.content) == [] ==>
      TypescriptResult(file, n) == Err(NoCommands)
    ensures TypescriptResult(file, n).Ok? ==>
      var all := TypescriptEntries(file.content);
      var es := TypescriptResult(file, n).value;
      |es| == Min(n, |all|) && forall k :: 0 <= k < |es| ==> es[k] == all[|all| - |es| + k]
  {
  }

  /** `readFromTypescript`, calling the transcript parser. */
  method ReadFromTypescript(file: TypescriptFile, n: int) returns (r: Result<seq<LogEntry>>)
    requires WindowInRange(file, n)
    ensures r == TypescriptResult(file, n)
  {
    match file
    case NoFile => return Err(NoTypescript);
    case FileError(reason) => return Err(reason);
    case FileContent(content) =>
      var entries := ParseTypescript(content);
      assert entries == TypescriptEntries(content);
      if |entries| == 0 {
        return Err(NoCommands);
      }
      var m := n;
      if m > |entries| {
        m := |entries|;
      }
      return Ok(entries[|entries| - m..]);
  }

  // ---------------------------------------------------------------------------
  // The log-file path

  /** The names ending in ".log", in listing order. */
  function LogNames(names: seq<string>): (r: seq<string>)
    ensures |r| <= |names|
    ensures forall x :: x in r <==> x in names && HasSuffix(x, ".log")
  {
    if names == [] then []
    else
      var init := names[..|names| - 1];
      var last := names[|names| - 1];
      assert names == init + [last];
      if HasSuffix(last, ".log") then LogNames(init) + [last] else LogNames(init)
  }

  /** Go's `a > b` is `b < a`; `Descending` is the order `sort.Slice` is asked for. */
  predicate Descending(s: seq<string>) {
    forall i, j :: 0 <= i < j < |s| ==> !LexLess(s[i], s[j])
  }

  lemma NotLessTransitive(a: string, b: string, c: string)
    requires !LexLess(a, b) && !LexLess(b, c)
    ensures !LexLess(a, c)
  {
    if LexLess(a, c) && b != c {
      LexLessTotal(b, c);
      LexLessTransitive(a, c, b);
    }
  }

  /** `x` placed before the first name it is not less than. */
  function InsertDescending(x: string, s: seq<string>): seq<string> {
    if s == [] then [x]
    else if !LexLess(x, s[0]) then [x] + s
    else [s[0]] + InsertDescending(x, s[1..])
  }

  /** `a` goes in front of the descending `s` when it is at least `s`'s first name. */
  lemma ConsDescending(a: string, s: seq<string>)
    requires Descending(s)
    requires forall k :: 0 <= k < |s| ==> !LexLess(a, s[k])
    ensures Descending([a] + s)
  {
    var r := [a] + s;
    forall i, j | 0 <= i < j < |r|
      ensures !LexLess(r[i], r[j])
    {
      assert r[j] == s[j - 1];
      if i > 0 {
        assert r[i] == s[i - 1];
      }
    }
  }

  lemma {:induction false} InsertDescendingSpec(x: string, s: seq<string>)
    requires Descending(s)
    ensures Descending(InsertDescending(x, s))
    ensures multiset(InsertDescending(x, s)) == multiset(s) + multiset{x}
  {
    if s == [] {
    } else if !LexLess(x, s[0]) {
      forall k | 0 <= k < |s|
        ensures !LexLess(x, s[k])
      {
        if k > 0 {
          NotLessTransitive(x, s[0], s[k]);
        }
      }
      ConsDescending(x, s);
      assert s == [s[0]] + s[1..];
    } else {
      var tail := s[1..];
      DescendingTail(s);
      InsertDescendingSpec(x, tail);
      var t := InsertDescending(x, tail);
      HeadBeforeInserted(x, s, t);
      ConsDescending(s[0], t);
      assert s == [s[0]] + tail;
    }
  }

  /** When `x` is less than the head of the descending `s`, the head is at least every name
      of the tail with `x` added. */
  lemma HeadBeforeInserted(x: string, s: seq<string>, t: seq<string>)
    requires s != [] && Descending(s) && LexLess(x, s[0])
    requires multiset(t) == multiset(s[1..]) + multiset{x}
    ensures forall k :: 0 <= k < |t| ==> !LexLess(s[0], t[k])
  {
    var tail := s[1..];
    LexLessAsymmetric(x, s[0]);
    forall k | 0 <= k < |t|
      ensures !LexLess(s[0], t[k])
    {
      assert t[k] in multiset(t);
      if t[k] != x {
        assert t[k] in multiset(tail);
        var m :| 0 <= m < |tail| && tail[m] == t[k];
        assert s[m + 1] == t[k];
      }
    }
  }

  /** The file names sorted by name, greatest first. */
  function SortDescending(s: seq<string>): seq<string> {
    if s == [] then [] else InsertDescending(s[0], SortDescending(s[1..]))
  }

  /** `sort.Slice` with `>` on names: the result is in descending order and holds the same names. */
  lemma {:induction false} SortDescendingSpec(s: seq<string>)
    ensures Descending(SortDescending(s)) && multiset(SortDescending(s)) == multiset(s)
  {
    if s != [] {
      SortDescendingSpec(s[1..]);
      InsertDescendingSpec(s[0], SortDescending(s[1..]));
      assert s == [s[0]] + s[1..];
    }
  }

  /** `sort.Slice` is not stable, but on strings that does not matter: there is only one
      arrangement of a multiset of names in descending order. */
  lemma {:induction false} DescendingUnique(s: seq<string>, t: seq<string>)
    requires Descending(s) && Descending(t) && multiset(s) == multiset(t)
    ensures s == t
  {
    if s != [] {
      DescendingSameHead(s, t);
      DescendingTail(s);
      DescendingTail(t);
      var s', t' := s[1..], t[1..];
      assert s == [s[0]] + s' && t == [t[0]] + t';
      assert multiset(s') == multiset(t') by {
        assert multiset(s) == multiset{s[0]} + multiset(s');
        assert multiset(t) == multiset{t[0]} + multiset(t');
        assert multiset(s') == multiset(s) - multiset{s[0]};
        assert multiset(t') == multiset(t) - multiset{t[0]};
      }
      DescendingUnique(s', t');
    }
  }

  lemma DescendingTail(s: seq<string>)
    requires s != [] && Descending(s)
    ensures Descending(s[1..])
  {
    var s' := s[1..];
    forall a, b | 0 <= a < b < |s'|
      ensures !LexLess(s'[a], s'[b])
    {
      assert s'[a] == s[a + 1] && s'[b] == s[b + 1];
    }
  }

  /** Two descending arrangements of the same names start with the same name. */
  lemma DescendingSameHead(s: seq<string>, t: seq<string>)
    requires s != [] && Descending(s) && Descending(t) && multiset(s) == multiset(t)
    ensures t != [] && s[0] == t[0]
  {
    assert s[0] in multiset(t);
    assert t[0] in multiset(s);
    var i :| 0 <= i < |t| && t[i] == s[0];
    var j :| 0 <= j < |s| && s[j] == t[0];
    if s[0] != t[0] {
      LexLessTotal(s[0], t[0]);
    }
  }

  /** The first `n` names, all of them when there are fewer. */
  function Take(s: seq<string>, n: int): (r: seq<string>)
    ensures |r| == if n <= 0 then 0 else Min(n, |s|)
    ensures r == s[..|r|]
  {
    s[..if n <= 0 then 0 else if n < |s| then n else |s|]
  }

  /** The names among `names` whose file can be opened, in order. */
  function Opened(names: seq<string>, files: map<string, seq<string>>): (r: seq<string>)
    ensures forall x :: x in r <==> x in names && x in files
    ensures |r| <= |names|
  {
    if names == [] then []
    else
      var init := names[..|names| - 1];
      var last := names[|names| - 1];
      assert names == init + [last];
      if last in files then Opened(init, files) + [last] else Opened(init, files)
  }

  /** The entries of those files, in the same order. */
  function ParsedEntries(names: seq<string>, files: map<string, seq<string>>): (es: seq<LogEntry>)
  {
    if names == [] then []
    else
      var init := names[..|names| - 1];
      var last := names[|names| - 1];
      if last in files then ParsedEntries(init, files) + [LogFileEntry(files[last])]
      else ParsedEntries(init, files)
  }

  /** `s` back to front. */
  function Reversed<T>(s: seq<T>): seq<T> {
    seq(|s|, k requires 0 <= k < |s| => s[|s| - 1 - k])
  }

  /** `readFromLogFiles(n)`. */
  function LogFilesResult(dir: DirListing, files: map<string, seq<string>>, n: int): Result<seq<LogEntry>> {
    match dir
    case NoDirectory => Err(NoLogDirectory)
    case DirError(reason) => Err(LogDirFailure + reason)
    case Listing(names) =>
      var logs := LogNames(names);
      if logs == [] then Err(NoLogFiles)
      else Ok(Reversed(ParsedEntries(Take(SortDescending(logs), n), files)))
  }

  lemma {:induction false} ParsedEntriesOpened(names: seq<string>, files: map<string, seq<string>>)
    ensures |ParsedEntries(names, files)| == |Opened(names, files)|
    ensures forall k :: 0 <= k < |Opened(names, files)| ==>
      Opened(names, files)[k] in files
      && ParsedEntries(names, files)[k] == LogFileEntry(files[Opened(names, files)[k]])
  {
    ParsedOpenedPaired(names, files);
  }

  /** `es` holds the entries of the files named by `o`, one for one. */
  predicate EntriesOfFiles(o: seq<string>, es: seq<LogEntry>, files: map<string, seq<string>>) {
    |es| == |o| && forall k :: 0 <= k < |o| ==> o[k] in files && es[k] == LogFileEntry(files[o[k]])
  }

  lemma {:induction false} ParsedOpenedPaired(names: seq<string>, files: map<string, seq<string>>)
    ensures EntriesOfFiles(Opened(names, files), ParsedEntries(names, files), files)
  {
    if names != [] {
      var init, last := names[..|names| - 1], names[|names| - 1];
      ParsedOpenedPaired(init, files);
      if last in files {
        assert Opened(names, files) == Opened(init, files) + [last];
        assert ParsedEntries(names, files) == ParsedEntries(init, files) + [LogFileEntry(files[last])];
        EntriesOfFilesSnoc(Opened(init, files), ParsedEntries(init, files), files, last);
      } else {
        assert Opened(names, files) == Opened(init, files);
        assert ParsedEntries(names, files) == ParsedEntries(init, files);
      }
    }
  }

  lemma EntriesOfFilesSnoc(o: seq<string>, es: seq<LogEntry>, files: map<string, seq<string>>, name: string)
    requires EntriesOfFiles(o, es, files) && name in files
    ensures EntriesOfFiles(o + [name], es + [LogFileEntry(files[name])], files)
  {
    var o', es' := o + [name], es + [LogFileEntry(files[name])];
    forall k | 0 <= k < |o'| ensures o'[k] in files && es'[k] == LogFileEntry(files[o'[k]]) {
      if k < |o| {
        assert o'[k] == o[k] && es'[k] == es[k];
      }
    }
  }

  /** `Opened` keeps the relative order of the names it keeps, so a descending listing stays
      descending. */
  lemma {:induction false} OpenedDescending(names: seq<string>, files: map<string, seq<string>>)
    requires Descending(names)
    ensures Descending(Opened(names, files))
  {
    if names != [] {
      var init := names[..|names| - 1];
      var last := names[|names| - 1];
      assert Descending(init) by {
        forall i, j | 0 <= i < j < |init| ensures !LexLess(init[i], init[j]) {
          assert init[i] == names[i] && init[j] == names[j];
        }
      }
      OpenedDescending(init, files);
      if last in files {
        var o := Opened(init, files);
        forall k | 0 <= k < |o|
          ensures !LexLess(o[k], last)
        {
          assert o[k] in o;
          var m :| 0 <= m < |init| && init[m] == o[k];
          assert names[m] == o[k];
        }
        AppendDescending(o, last);
      }
    }
  }

  /** A name no greater than every name of the descending `s` can follow it. */
  lemma AppendDescending(s: seq<string>, x: string)
    requires Descending(s)
    requires forall k :: 0 <= k < |s| ==> !LexLess(s[k], x)
    ensures Descending(s + [x])
  {
    var r := s + [x];
    forall i, j | 0 <= i < j < |r|
      ensures !LexLess(r[i], r[j])
    {
      assert r[i] == s[i];
      if j < |s| {
        assert r[j] == s[j];
      }
    }
  }

  /** The names taken from a descending list are at least as great as every name left. */
  lemma TakeGreatest(sorted: seq<string>, n: int)
    requires Descending(sorted)
    ensures forall x, y :: x in Take(sorted, n) && y in sorted[|Take(sorted, n)|..] ==> !LexLess(x, y)
  {
    var chosen := Take(sorted, n);
    forall x, y | x in chosen && y in sorted[|chosen|..]
      ensures !LexLess(x, y)
    {
      var i :| 0 <= i < |chosen| && chosen[i] == x;
      var j :| 0 <= j < |sorted| - |chosen| && sorted[|chosen|..][j] == y;
      assert sorted[i] == x && sorted[|chosen| + j] == y;
    }
  }

  lemma ReversedMembers<T>(s: seq<T>)
    ensures forall x :: x in Reversed(s) <==> x in s
  {
    forall x | x in Reversed(s)
      ensures x in s
    {
      var k :| 0 <= k < |s| && Reversed(s)[k] == x;
      assert s[|s| - 1 - k] == x;
    }
    forall x | x in s
      ensures x in Reversed(s)
    {
      var k :| 0 <= k < |s| && s[k] == x;
      assert Reversed(s)[|s| - 1 - k] == x;
    }
  }

  /** Reading a descending list of names and reversing the successes gives ascending order. */
  lemma ReadAscending(chosen: seq<string>, files: map<string, seq<string>>)
    requires Descending(chosen)
    ensures var read := Reversed(Opened(chosen, files));
      forall i, j :: 0 <= i < j < |read| ==> !LexLess(read[j], read[i])
  {
    var kept := Opened(chosen, files);
    OpenedDescending(chosen, files);
    var read := Reversed(kept);
    forall i, j | 0 <= i < j < |read|
      ensures !LexLess(read[j], read[i])
    {
      assert read[j] == kept[|kept| - 1 - j] && read[i] == kept[|kept| - 1 - i];
    }
  }

  /** Reversing two sequences that correspond element by element keeps them corresponding. */
  lemma ReversedPairs<A, B>(xs: seq<A>, ys: seq<B>, related: (A, B) -> bool)
    requires |xs| == |ys|
    requires forall k :: 0 <= k < |xs| ==> related(xs[k], ys[k])
    ensures |Reversed(xs)| == |Reversed(ys)|
    ensures forall k :: 0 <= k < |xs| ==> related(Reversed(xs)[k], Reversed(ys)[k])
  {
    forall k | 0 <= k < |xs|
      ensures related(Reversed(xs)[k], Reversed(ys)[k])
    {
      assert Reversed(xs)[k] == xs[|xs| - 1 - k];
      assert Reversed(ys)[k] == ys[|xs| - 1 - k];
    }
  }

  /** The log-file path fails only for a missing or unreadable directory or one without
      ".log" files. Otherwise it reads the `min(n, count)` ".log" files with the greatest
      names, skips those that cannot be opened, and returns the others' entries in
      ascending name order. */
  lemma LogFilesWindow(dir: DirListing, files: map<string, seq<string>>, n: int)
    ensures dir.NoDirectory? ==> LogFilesResult(dir, files, n) == Err(NoLogDirectory)
    ensures dir.DirError? ==> LogFilesResult(dir, files, n) == Err(LogDirFailure + dir.reason)
    ensures dir.Listing? && LogNames(dir.names) == [] ==> LogFilesResult(dir, files, n) == Err(NoLogFiles)
    ensures dir.Listing? && LogNames(dir.names) != [] ==>
      var sorted := SortDescending(LogNames(dir.names));
      var chosen := Take(sorted, n);
      var read := Reversed(Opened(chosen, files));
      var es := LogFilesResult(dir, files, n).value;
      && LogFilesResult(dir, files, n).Ok?
      && |chosen| <= |LogNames(dir.names)| && (n >= 0 ==> |chosen| <= n)
      && (forall x, y :: x in chosen && y in sorted[|chosen|..] ==> !LexLess(x, y))
      && (forall x :: x in read <==> x in chosen && x in files)
      && (forall x :: x in read ==> x in dir.names && HasSuffix(x, ".log"))
      && (forall i, j :: 0 <= i < j < |read| ==> !LexLess(read[j], read[i]))
      && |es| == |read|
      && (forall k :: 0 <= k < |es| ==> read[k] in files && es[k] == LogFileEntry(files[read[k]]))
  {
    if dir.Listing? && LogNames(dir.names) != [] {
      var logs := LogNames(dir.names);
      var sorted := SortDescending(logs);
      var chosen := Take(sorted, n);
      var kept := Opened(chosen, files);
      var read := Reversed(kept);
      var es := LogFilesResult(dir, files, n).value;
      assert es == Reversed(ParsedEntries(chosen, files));
      SortDescendingSpec(logs);
      assert |sorted| == |logs| by { assert |multiset(sorted)| == |multiset(logs)|; }
      TakeGreatest(sorted, n);
      ReversedMembers(kept);
      forall x | x in read
        ensures x in dir.names && HasSuffix(x, ".log")
      {
        assert x in chosen;
        assert x in multiset(sorted);
      }
      assert Descending(chosen) by {
        forall i, j | 0 <= i < j < |chosen| ensures !LexLess(chosen[i], chosen[j]) {
          assert chosen[i] == sorted[i] && chosen[j] == sorted[j];
        }
      }
      ReadAscending(chosen, files);
      ParsedEntriesOpened(chosen, files);
      var parsedFrom := (x: string, e: LogEntry) => x in files && e == LogFileEntry(files[x]);
      ReversedPairs(kept, ParsedEntries(chosen, files), parsedFrom);
    }
  }

  /** Reverses `a` in place by swapping from both ends towards the middle. */
  method ReverseInPlace<T>(a: array<T>)
    modifies a
    ensures a[..] == Reversed(old(a[..]))
  {
    ghost var s := a[..];
    var i, j := 0, a.Length - 1;
    while i < j
      invariant 0 <= i <= a.Length && j == a.Length - 1 - i
      invariant i <= j + 1
      invariant forall k :: 0 <= k < i ==> a[k] == s[a.Length - 1 - k]
      invariant forall k :: i <= k <= j ==> a[k] == s[k]
      invariant forall k :: j < k < a.Length ==> a[k] == s[a.Length - 1 - k]
    {
      ghost var x, y := a[i], a[j];
      assert x == s[i] && y == s[j];
      a[i], a[j] := a[j], a[i];
      i, j := i + 1, j - 1;
    }
    assert a[..] == Reversed(s);
  }

  /** The slice `s` reversed in place: its elements are put in an array that is reversed. */
  method ReverseSlice<T>(s: seq<T>) returns (r: seq<T>)
    ensures r == Reversed(s)
  {
    var a := new T[|s|](k requires 0 <= k < |s| => s[k]);
    assert a[..] == s;
    ReverseInPlace(a);
    r := a[..];
  }

  /** The ".log" filter of `readFromLogFiles`, one directory entry at a time. */
  method SelectLogNames(names: seq<string>) returns (logFiles: seq<string>)
    ensures logFiles == LogNames(names)
  {
    logFiles := [];
    for k := 0 to |names|
      invariant logFiles == LogNames(names[..k])
    {
      assert names[..k + 1][..k] == names[..k];
      if HasSuffix(names[k], ".log") {
        logFiles := logFiles + [names[k]];
      }
    }
    assert names[..|names|] == names;
  }

  /** The parse loop of `readFromLogFiles`: the first `n` names, skipping those that
      cannot be opened. */
  method ParseFirst(logFiles: seq<string>, files: map<string, seq<string>>, n: int)
    returns (entries: seq<LogEntry>)
    ensures entries == ParsedEntries(Take(logFiles, n), files)
  {
    ghost var chosen := Take(logFiles, n);
    entries := [];
    var i := 0;
    while i < n && i < |logFiles|
      invariant 0 <= i <= |chosen|
      invariant entries == ParsedEntries(chosen[..i], files)
    {
      var name := logFiles[i];
      assert chosen[i] == name;
      ParsedEntriesStep(chosen, i, files);
      if name in files {
        var entry := ParseLogFile(files[name]);
        entries := entries + [entry];
      }
      i := i + 1;
    }
    assert i == |chosen| && chosen[..i] == chosen;
  }

  lemma ParsedEntriesStep(names: seq<string>, i: nat, files: map<string, seq<string>>)
    requires i < |names|
    ensures ParsedEntries(names[..i + 1], files) == ParsedEntries(names[..i], files)
      + if names[i] in files then [LogFileEntry(files[names[i]])] else []
  {
    assert names[..i + 1][..i] == names[..i];
  }

  /** `readFromLogFiles`: filter the listing, sort it, parse the first `n` files, reverse. */
  method ReadFromLogFiles(dir: DirListing, files: map<string, seq<string>>, n: int)
    returns (r: Result<seq<LogEntry>>)
    ensures r == LogFilesResult(dir, files, n)
  {
    if dir.NoDirectory? {
      return Err(NoLogDirectory);
    }
    if dir.DirError? {
      return Err(LogDirFailure + dir.reason);
    }
    var logFiles := SelectLogNames(dir.names);
    if |logFiles| == 0 {
      return Err(NoLogFiles);
    }
    logFiles := SortDescending(logFiles);
    var entries := ParseFirst(logFiles, files, n);
    entries := ReverseSlice(entries);
    return Ok(entries);
  }

  // ---------------------------------------------------------------------------
  // `Read`

  /** `Read(n)`: the typescript's entries when it yields at least one, else the log files'. */
  method Read(file: TypescriptFile, dir: DirListing, files: map<string, seq<string>>, n: int)
    returns (r: Result<seq<LogEntry>>)
    requires WindowInRange(file, n)
    ensures TypescriptResult(file, n).Ok? && TypescriptResult(file, n).value != [] ==>
      r == TypescriptResult(file, n)
    ensures !(TypescriptResult(file, n).Ok? && TypescriptResult(file, n).value != []) ==>
      r == LogFilesResult(dir, files, n)
  {
    var t := ReadFromTypescript(file, n);
    if t.Ok? && |t.value| > 0 {
      return t;
    }
    r := ReadFromLogFiles(dir, files, n);
  }

  /** With `n > 0`, a typescript holding a command is always preferred; otherwise the log
      files answer, whatever the typescript's error was. */
  lemma ReadPrefersTypescript(file: TypescriptFile, n: int)
    requires n > 0 && file.FileContent? && TypescriptEntries(file.content) != []
    ensures TypescriptResult(file, n).Ok? && TypescriptResult(file, n).value != []
  {
  }
}

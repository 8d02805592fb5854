/** internal/dir/tree.go: the directory-tree generator, run over an in-memory file tree in
    place of the file system. */
module DirTree {
  import opened Basics
  import opened GoStrings

  /** The generator's options; a `maxDepth` that is not positive means "no limit". */
  datatype Options = Options(maxDepth: int, exclude: string, includeHidden: bool, format: string)

  /** What `os.ReadDir` lists: a file, or a directory whose own listing may be unreadable. */
  datatype FsNode = File(name: string) | Dir(name: string, readable: bool, contents: seq<FsNode>)

  /** The generator's `entry`. The joined path it carries only says which directory to read
      next, which the in-memory tree already knows. */
  datatype Entry = Entry(name: string, isDir: bool, children: seq<Entry>)

  /** `filepath.Match(pattern, name)` reporting a match; its glob syntax is taken as given. */
  type Glob = (string, string) -> bool

  datatype Generator = Generator(opts: Options, excludes: seq<string>, glob: Glob)

  // ---------------------------------------------------------------------------
  // NewGenerator: the exclude list

  /** The patterns a comma-separated exclude list stands for. */
  function ExcludePatterns(exclude: string): seq<string> {
    if exclude == [] then []
    else
      var pieces := Split(exclude, ',');
      seq(|pieces|, k requires 0 <= k < |pieces| => TrimSpace(pieces[k]))
  }

  /** `NewGenerator`: splits the exclude list on commas and trims every piece in place. */
  method NewGenerator(opts: Options, glob: Glob) returns (g: Generator)
    ensures g.opts == opts && g.glob == glob
    ensures g.excludes == ExcludePatterns(opts.exclude)
  {
    var excludes: seq<string> := [];
    if opts.exclude != [] {
      var pieces := Split(opts.exclude, ',');
      var a := new string[|pieces|](k requires 0 <= k < |pieces| => pieces[k]);
      for i := 0 to a.Length
        invariant forall k :: 0 <= k < i ==> a[k] == TrimSpace(pieces[k])
        invariant forall k :: i <= k < a.Length ==> a[k] == pieces[k]
      {
        a[i] := TrimSpace(a[i]);
      }
      excludes := a[..];
    }
    g := Generator(opts, excludes, glob);
  }

  /** A string split on `sep` has one piece more than it has separators. */
  lemma {:induction false} SplitCount(s: string, sep: char)
    ensures |Split(s, sep)| == CountChar(s, sep) + 1
  {
    if s != [] {
      SplitCount(s[1..], sep);
      CountCharAppend([s[0]], s[1..], sep);
      assert [s[0]] + s[1..] == s;
      assert [s[0]][..0] == [];
    }
  }

  predicate NoSpace(s: string) {
    forall i :: 0 <= i < |s| ==> !IsSpace(s[i])
  }

  /** Pieces of a split hold only characters of the string split. */
  lemma {:induction false} SplitNoSpace(s: string, sep: char)
    requires NoSpace(s)
    ensures forall k :: 0 <= k < |Split(s, sep)| ==> NoSpace(Split(s, sep)[k])
  {
    if s != [] {
      SplitNoSpace(s[1..], sep);
    }
  }

  /** An empty list gives no patterns; otherwise there is one trimmed, comma-free pattern per
      comma-separated piece, in order, and when the list holds no white space joining the
      patterns with commas gives the list back. */
  lemma ExcludePatternsSpec(exclude: string)
    ensures exclude == [] ==> ExcludePatterns(exclude) == []
    ensures exclude != [] ==> |ExcludePatterns(exclude)| == CountChar(exclude, ',') + 1
    ensures forall k :: 0 <= k < |ExcludePatterns(exclude)| ==>
      Trimmed(ExcludePatterns(exclude)[k]) && ',' !in ExcludePatterns(exclude)[k]
    ensures exclude != [] && NoSpace(exclude) ==> Join(ExcludePatterns(exclude), ',') == exclude
  {
    if exclude != [] {
      var pieces := Split(exclude, ',');
      var ps := ExcludePatterns(exclude);
      SplitCount(exclude, ',');
      forall k | 0 <= k < |ps|
        ensures ',' !in ps[k]
      {
        TrimSpaceSpec(pieces[k]);
      }
      if NoSpace(exclude) {
        SplitNoSpace(exclude, ',');
        forall k | 0 <= k < |pieces|
          ensures ps[k] == pieces[k]
        {
          TrimmedFixpoint(pieces[k]);
        }
        assert ps == pieces;
        JoinSplit(exclude, ',');
      }
    }
  }

  // ---------------------------------------------------------------------------
  // isExcluded and the name filter

  /** `isExcluded`: some pattern equals the name or matches it as a glob. */
  function IsExcluded(patterns: seq<string>, glob: Glob, name: string): (b: bool)
    ensures b <==> exists k :: 0 <= k < |patterns| && (patterns[k] == name || glob(patterns[k], name))
  {
    if patterns == [] then false
    else if patterns[0] == name || glob(patterns[0], name) then true
    else
      var b := IsExcluded(patterns[1..], glob, name);
      assert b ==> exists k :: 0 <= k < |patterns| && (patterns[k] == name || glob(patterns[k], name)) by {
        if b {
          var k :| 0 <= k < |patterns| - 1 && (patterns[1..][k] == name || glob(patterns[1..][k], name));
          assert patterns[k + 1] == patterns[1..][k];
        }
      }
      assert (exists k :: 0 <= k < |patterns| && (patterns[k] == name || glob(patterns[k], name))) ==> b by {
        if exists k :: 0 <= k < |patterns| && (patterns[k] == name || glob(patterns[k], name)) {
          var k :| 0 <= k < |patterns| && (patterns[k] == name || glob(patterns[k], name));
          assert k != 0;
          assert patterns[1..][k - 1] == patterns[k];
        }
      }
      b
  }

  /** `isExcluded` as the source runs it: the patterns in order, stopping at the first that
      equals the name or matches it as a glob. */
  method CheckExcluded(patterns: seq<string>, glob: Glob, name: string) returns (excluded: bool)
    ensures excluded == IsExcluded(patterns, glob, name)
  {
    for i := 0 to |patterns|
      invariant forall k :: 0 <= k < i ==> !(patterns[k] == name || glob(patterns[k], name))
    {
      if patterns[i] == name {
        return true;
      }
      if glob(patterns[i], name) {
        return true;
      }
    }
    return false;
  }

  /** A name `readDir` keeps: not hidden (unless hidden names are wanted) and not excluded. */
  predicate Shown(g: Generator, name: string) {
    (g.opts.includeHidden || !("." <= name)) && !IsExcluded(g.excludes, g.glob, name)
  }

  // ---------------------------------------------------------------------------
  // Sibling order

  /** The comparison handed to `sort.Slice`: directories first, then by name. */
  predicate EntryLess(a: Entry, b: Entry) {
    if a.isDir != b.isDir then a.isDir else LexLess(a.name, b.name)
  }

  predicate Ordered(s: seq<Entry>) {
    forall i, j :: 0 <= i < j < |s| ==> !EntryLess(s[j], s[i])
  }

  lemma EntryLessAsymmetric(a: Entry, b: Entry)
    requires EntryLess(a, b)
    ensures !EntryLess(b, a)
  {
    if a.isDir == b.isDir {
      LexLessAsymmetric(a.name, b.name);
    }
  }

  lemma EntryNotLessTransitive(a: Entry, b: Entry, c: Entry)
    requires !EntryLess(a, b) && !EntryLess(b, c)
    ensures !EntryLess(a, c)
  {
    if a.isDir == b.isDir && b.isDir == c.isDir && LexLess(a.name, c.name) && a.name != b.name {
      LexLessTotal(a.name, b.name);
      LexLessTransitive(b.name, a.name, c.name);
    }
  }

  /** `x` placed before the first entry that is not less than it. */
  function InsertEntry(x: Entry, s: seq<Entry>): seq<Entry> {
    if s == [] then [x]
    else if !EntryLess(s[0], x) then [x] + s
    else [s[0]] + InsertEntry(x, s[1..])
  }

  lemma ConsOrdered(a: Entry, s: seq<Entry>)
    requires Ordered(s)
    requires forall k :: 0 <= k < |s| ==> !EntryLess(s[k], a)
    ensures Ordered([a] + s)
  {
    var r := [a] + s;
    forall i, j | 0 <= i < j < |r|
      ensures !EntryLess(r[j], r[i])
    {
      assert r[j] == s[j - 1];
      if i > 0 {
        assert r[i] == s[i - 1];
      }
    }
  }

  lemma {:induction false} InsertEntrySpec(x: Entry, s: seq<Entry>)
    requires Ordered(s)
    ensures Ordered(InsertEntry(x, s))
    ensures multiset(InsertEntry(x, s)) == multiset(s) + multiset{x}
  {
    if s == [] {
    } else if !EntryLess(s[0], x) {
      forall k | 0 <= k < |s|
        ensures !EntryLess(s[k], x)
      {
        if k > 0 {
          EntryNotLessTransitive(s[k], s[0], x);
        }
      }
      ConsOrdered(x, s);
      assert s == [s[0]] + s[1..];
    } else {
      var tail := s[1..];
      assert Ordered(tail) by {
        forall i, j | 0 <= i < j < |tail| ensures !EntryLess(tail[j], tail[i]) {
          assert tail[i] == s[i + 1] && tail[j] == s[j + 1];
        }
      }
      InsertEntrySpec(x, tail);
      var t := InsertEntry(x, tail);
      EntryLessAsymmetric(s[0], x);
      forall k | 0 <= k < |t|
        ensures !EntryLess(t[k], s[0])
      {
        assert t[k] in multiset(t);
        if t[k] != x {
          assert t[k] in multiset(tail);
          var m :| 0 <= m < |tail| && tail[m] == t[k];
          assert s[m + 1] == t[k];
        }
      }
      ConsOrdered(s[0], t);
      assert s == [s[0]] + tail;
    }
  }

  /** The entries in the order `sort.Slice` is asked for. */
  function SortEntries(s: seq<Entry>): seq<Entry> {
    if s == [] then [] else InsertEntry(s[0], SortEntries(s[1..]))
  }

  lemma {:induction false} SortEntriesSpec(s: seq<Entry>)
    ensures Ordered(SortEntries(s)) && multiset(SortEntries(s)) == multiset(s)
  {
    if s != [] {
      SortEntriesSpec(s[1..]);
      InsertEntrySpec(s[0], SortEntries(s[1..]));
      assert s == [s[0]] + s[1..];
    }
  }

  predicate DistinctNames(s: seq<Entry>) {
    forall i, j :: 0 <= i < j < |s| ==> s[i].name != s[j].name
  }

  lemma OrderedTail(s: seq<Entry>)
    requires s != [] && Ordered(s)
    ensures Ordered(s[1..])
    ensures DistinctNames(s) ==> DistinctNames(s[1..])
  {
    var t := s[1..];
    forall a, b | 0 <= a < b < |t|
      ensures !EntryLess(t[b], t[a]) && (DistinctNames(s) ==> t[a].name != t[b].name)
    {
      assert t[a] == s[a + 1] && t[b] == s[b + 1];
    }
  }

  /** Two ordered arrangements of the same entries with distinct names start alike. */
  lemma OrderedSameFirst(s: seq<Entry>, t: seq<Entry>)
    requires s != [] && Ordered(s) && Ordered(t) && multiset(s) == multiset(t) && DistinctNames(s)
    ensures t != [] && s[0] == t[0]
  {
    assert s[0] in multiset(t) && t[0] in multiset(s);
    var i :| 0 <= i < |t| && t[i] == s[0];
    var j :| 0 <= j < |s| && s[j] == t[0];
    if s[0] != t[0] {
      assert s[0].name != s[j].name;
      LexLessTotal(s[0].name, t[0].name);
      assert false;
    }
  }

  /** `sort.Slice` is not stable, but names within one directory are distinct, and then only
      one arrangement of the entries is in order: any sort gives `SortEntries`' answer. */
  lemma {:induction false} OrderedUnique(s: seq<Entry>, t: seq<Entry>)
    requires Ordered(s) && Ordered(t) && multiset(s) == multiset(t) && DistinctNames(s)
    ensures s == t
  {
    if s == [] {
      assert |t| == 0 by { assert |multiset(t)| == |multiset(s)|; }
    } else {
      OrderedSameFirst(s, t);
      assert s == [s[0]] + s[1..] && t == [t[0]] + t[1..];
      assert multiset(s[1..]) == multiset(s) - multiset{s[0]};
      assert multiset(t[1..]) == multiset(t) - multiset{t[0]};
      OrderedTail(s);
      OrderedTail(t);
      OrderedUnique(s[1..], t[1..]);
    }
  }

  // ---------------------------------------------------------------------------
  // readDir

  /** The entries `readDir` returns for a directory listed at `depth`. */
  function DirEntries(g: Generator, contents: seq<FsNode>, readable: bool, depth: int): seq<Entry>
    decreases contents, 1
  {
    if g.opts.maxDepth > 0 && depth > g.opts.maxDepth then []
    else if !readable then []
    else SortEntries(Collected(g, contents, depth))
  }

  /** The entry for one listed node; a directory's children are read one level deeper. */
  function EntryOf(g: Generator, n: FsNode, depth: int): Entry
    decreases n
  {
    if n.Dir? then Entry(n.name, true, DirEntries(g, n.contents, n.readable, depth + 1))
    else Entry(n.name, false, [])
  }

  /** The entries of the shown nodes, in listing order. */
  function Collected(g: Generator, nodes: seq<FsNode>, depth: int): seq<Entry>
    decreases nodes, 0
  {
    if nodes == [] then []
    else
      var n := nodes[|nodes| - 1];
      var init := Collected(g, nodes[..|nodes| - 1], depth);
      if Shown(g, n.name) then init + [EntryOf(g, n, depth)] else init
  }

  /** `readDir`: stops below the depth limit, gives nothing for an unreadable directory, keeps
      the shown names, reads each kept directory one level deeper and sorts the result. */
  method ReadDir(g: Generator, contents: seq<FsNode>, readable: bool, depth: int) returns (entries: seq<Entry>)
    ensures entries == DirEntries(g, contents, readable, depth)
    decreases contents, 1
  {
    if g.opts.maxDepth > 0 && depth > g.opts.maxDepth {
      return [];
    }
    if !readable {
      return [];
    }
    entries := [];
    for i := 0 to |contents|
      invariant entries == Collected(g, contents[..i], depth)
    {
      var file := contents[i];
      assert contents[..i + 1][..i] == contents[..i];
      if !g.opts.includeHidden && "." <= file.name {
        continue;
      }
      var excluded := CheckExcluded(g.excludes, g.glob, file.name);
      if excluded {
        continue;
      }
      var e := Entry(file.name, file.Dir?, []);
      if file.Dir? {
        var children := ReadDir(g, file.contents, file.readable, depth + 1);
        e := e.(children := children);
      }
      entries := entries + [e];
    }
    assert contents[..|contents|] == contents;
    entries := SortEntries(entries);
  }

  /** The entries of `Collected` are exactly those of the shown nodes. */
  lemma {:induction false} CollectedMembers(g: Generator, nodes: seq<FsNode>, depth: int)
    ensures forall e :: e in Collected(g, nodes, depth) <==>
      exists k :: 0 <= k < |nodes| && Shown(g, nodes[k].name) && e == EntryOf(g, nodes[k], depth)
  {
    if nodes != [] {
      var init := nodes[..|nodes| - 1];
      CollectedMembers(g, init, depth);
      forall e | (exists k :: 0 <= k < |nodes| && Shown(g, nodes[k].name) && e == EntryOf(g, nodes[k], depth))
        ensures e in Collected(g, nodes, depth)
      {
        var k :| 0 <= k < |nodes| && Shown(g, nodes[k].name) && e == EntryOf(g, nodes[k], depth);
        if k < |nodes| - 1 {
          assert init[k] == nodes[k];
        }
      }
      forall e | e in Collected(g, init, depth)
        ensures exists k :: 0 <= k < |nodes| && Shown(g, nodes[k].name) && e == EntryOf(g, nodes[k], depth)
      {
        var k :| 0 <= k < |init| && Shown(g, init[k].name) && e == EntryOf(g, init[k], depth);
        assert nodes[k] == init[k];
      }
    }
  }

  /** Within the depth limit a readable directory yields one entry per shown name: hidden names
      only when asked for, excluded names never, and directories read one level deeper. With no
      depth limit this holds at every level, so the whole shown tree is produced. */
  lemma DirEntriesMembers(g: Generator, contents: seq<FsNode>, readable: bool, depth: int)
    requires readable && !(g.opts.maxDepth > 0 && depth > g.opts.maxDepth)
    ensures forall e :: e in DirEntries(g, contents, readable, depth) <==>
      exists k :: 0 <= k < |contents| && Shown(g, contents[k].name) && e == EntryOf(g, contents[k], depth)
  {
    CollectedMembers(g, contents, depth);
    SortEntriesSpec(Collected(g, contents, depth));
    var s := SortEntries(Collected(g, contents, depth));
    forall e
      ensures e in s <==> e in Collected(g, contents, depth)
    {
      assert e in s <==> e in multiset(s);
    }
  }

  /** No entry is hidden (unless hidden names are wanted) and none equals an exclude pattern. */
  lemma FilteredNames(g: Generator, contents: seq<FsNode>, readable: bool, depth: int)
    ensures forall e :: e in DirEntries(g, contents, readable, depth) ==>
      (g.opts.includeHidden || !("." <= e.name)) && e.name !in g.excludes
  {
    if readable && !(g.opts.maxDepth > 0 && depth > g.opts.maxDepth) {
      DirEntriesMembers(g, contents, readable, depth);
      forall e | e in DirEntries(g, contents, readable, depth)
        ensures (g.opts.includeHidden || !("." <= e.name)) && e.name !in g.excludes
      {
        var k :| 0 <= k < |contents| && Shown(g, contents[k].name) && e == EntryOf(g, contents[k], depth);
      }
    }
  }

  /** Every entry of `es` sits at most `d` levels down. */
  predicate WithinDepth(es: seq<Entry>, d: int)
    decreases es
  {
    forall k :: 0 <= k < |es| ==> d >= 1 && WithinDepth(es[k].children, d - 1)
  }

  /** With a positive depth limit, nothing is produced deeper than the limit: a directory read
      at `depth` yields a tree at most `maxDepth - depth + 1` levels deep. */
  lemma {:induction false} DepthLimit(g: Generator, contents: seq<FsNode>, readable: bool, depth: int)
    requires g.opts.maxDepth > 0
    ensures WithinDepth(DirEntries(g, contents, readable, depth), g.opts.maxDepth - depth + 1)
    decreases contents, 1
  {
    if readable && depth <= g.opts.maxDepth {
      var c := Collected(g, contents, depth);
      CollectedDepth(g, contents, depth);
      SortEntriesSpec(c);
      var s := SortEntries(c);
      forall k | 0 <= k < |s|
        ensures g.opts.maxDepth - depth + 1 >= 1 && WithinDepth(s[k].children, g.opts.maxDepth - depth)
      {
        assert s[k] in multiset(c);
        var m :| 0 <= m < |c| && c[m] == s[k];
      }
    }
  }

  lemma {:induction false} CollectedDepth(g: Generator, nodes: seq<FsNode>, depth: int)
    requires g.opts.maxDepth > 0 && depth <= g.opts.maxDepth
    ensures WithinDepth(Collected(g, nodes, depth), g.opts.maxDepth - depth + 1)
    decreases nodes, 0
  {
    if nodes != [] {
      var n := nodes[|nodes| - 1];
      var init := Collected(g, nodes[..|nodes| - 1], depth);
      CollectedDepth(g, nodes[..|nodes| - 1], depth);
      if n.Dir? {
        DepthLimit(g, n.contents, n.readable, depth + 1);
      }
      var r := Collected(g, nodes, depth);
      forall k | 0 <= k < |r|
        ensures WithinDepth(r[k].children, g.opts.maxDepth - depth)
      {
        if k < |init| {
          assert r[k] == init[k];
        } else {
          assert Shown(g, n.name) && r == init + [EntryOf(g, n, depth)];
          assert r[k] == EntryOf(g, n, depth);
          if !n.Dir? {
            assert r[k].children == [];
          }
        }
      }
    }
  }

  /** Siblings are in order at every level. */
  predicate TreeOrdered(es: seq<Entry>)
    decreases es
  {
    Ordered(es) && forall k :: 0 <= k < |es| ==> TreeOrdered(es[k].children)
  }

  /** At every level, every directory precedes every file and each group is in ascending name
      order. */
  lemma {:induction false} DirEntriesOrdered(g: Generator, contents: seq<FsNode>, readable: bool, depth: int)
    ensures TreeOrdered(DirEntries(g, contents, readable, depth))
    ensures var s := DirEntries(g, contents, readable, depth);
      forall i, j :: 0 <= i < j < |s| ==>
        (s[i].isDir || !s[j].isDir) && (s[i].isDir == s[j].isDir ==> !LexLess(s[j].name, s[i].name))
    decreases contents, 1
  {
    if readable && !(g.opts.maxDepth > 0 && depth > g.opts.maxDepth) {
      var c := Collected(g, contents, depth);
      CollectedOrdered(g, contents, depth);
      SortEntriesSpec(c);
      var s := SortEntries(c);
      forall k | 0 <= k < |s|
        ensures TreeOrdered(s[k].children)
      {
        assert s[k] in multiset(c);
        var m :| 0 <= m < |c| && c[m] == s[k];
      }
    }
  }

  lemma {:induction false} CollectedOrdered(g: Generator, nodes: seq<FsNode>, depth: int)
    ensures forall k :: 0 <= k < |Collected(g, nodes, depth)| ==> TreeOrdered(Collected(g, nodes, depth)[k].children)
    decreases nodes, 0
  {
    if nodes != [] {
      var n := nodes[|nodes| - 1];
      var init := Collected(g, nodes[..|nodes| - 1], depth);
      CollectedOrdered(g, nodes[..|nodes| - 1], depth);
      if n.Dir? {
        DirEntriesOrdered(g, n.contents, n.readable, depth + 1);
      }
      var r := Collected(g, nodes, depth);
      forall k | 0 <= k < |r|
        ensures TreeOrdered(r[k].children)
      {
        if k < |init| {
          assert r[k] == init[k];
        } else {
          assert Shown(g, n.name) && r == init + [EntryOf(g, n, depth)];
          assert r[k] == EntryOf(g, n, depth);
          if !n.Dir? {
            assert r[k].children == [];
          }
        }
      }
    }
  }

  // ---------------------------------------------------------------------------
  // formatTree

  const Tee := "├── "
  const Elbow := "└── "
  const Pipe := "│   "
  const Gap := "    "
  const Slash := "/"
  const Newline := "\n"

  function Connector(isLast: bool): string {
    if isLast then Elbow else Tee
  }

  function Extension(isLast: bool): string {
    if isLast then Gap else Pipe
  }

  /** An entry's name as a line shows it: directories get a trailing slash. */
  function Label(e: Entry): string {
    e.name + (if e.isDir then Slash else [])
  }

  /** One drawn line, without its newline. */
  function LineText(prefix: string, isLast: bool, e: Entry): string {
    prefix + Connector(isLast) + Label(e)
  }

  /** `formatTree`: each entry on a line of its own after the prefix and its connector, followed
      by its children (if any) under the prefix extended for them. */
  function FormatTree(es: seq<Entry>, prefix: string): string
    decreases es
  {
    if es == [] then []
    else
      var e := es[0];
      var isLast := |es| == 1;
      var sub := if |e.children| > 0 then FormatTree(e.children, prefix + Extension(isLast)) else [];
      LineText(prefix, isLast, e) + Newline + sub + FormatTree(es[1..], prefix)
  }

  /** Moving the next piece of a concatenation from what is left to what is done. */
  lemma ShiftPiece<T>(done: seq<T>, piece: seq<T>, rest: seq<T>, whole: seq<T>)
    requires done + (piece + rest) == whole
    ensures (done + piece) + rest == whole
  {
  }

  /** One sibling drawn: when `done` holds the drawing of the siblings before the `i`-th, adding
      that sibling's line and its children leaves the siblings after it to draw. */
  lemma FormatTreeStep(es: seq<Entry>, prefix: string, i: nat, done: string, sub: string)
    requires i < |es|
    requires done + FormatTree(es[i..], prefix) == FormatTree(es, prefix)
    requires sub == if |es[i].children| > 0 then FormatTree(es[i].children, prefix + Extension(i == |es| - 1)) else []
    ensures done + (LineText(prefix, i == |es| - 1, es[i]) + Newline + sub) + FormatTree(es[i + 1..], prefix)
      == FormatTree(es, prefix)
  {
    var t := es[i..];
    assert t[0] == es[i];
    assert t[1..] == es[i + 1..];
    ShiftPiece(done, LineText(prefix, i == |es| - 1, es[i]) + Newline + sub, FormatTree(es[i + 1..], prefix), FormatTree(es, prefix));
  }

  /** The three writes of one line: prefix, connector and name, the slash of a directory, and
      the newline. */
  lemma WrittenLine(before: string, prefix: string, isLast: bool, e: Entry, written: string)
    requires written == before + (prefix + Connector(isLast) + e.name) + (if e.isDir then Slash else []) + Newline
    ensures written == before + (LineText(prefix, isLast, e) + Newline)
  {
    var slash := if e.isDir then Slash else [];
    Regroup3(prefix + Connector(isLast), e.name, slash);
    Regroup3(before, prefix + Connector(isLast) + e.name + slash, Newline);
  }

  /** `formatTree` as the source writes it: a builder filled sibling by sibling, with the line,
      the directory slash and the newline, then the children drawn by a recursive call. */
  method WriteTree(es: seq<Entry>, prefix: string) returns (text: string)
    ensures text == FormatTree(es, prefix)
    decreases es
  {
    var result := new Builder();
    for i := 0 to |es|
      invariant result.text + FormatTree(es[i..], prefix) == FormatTree(es, prefix)
    {
      var e := es[i];
      var isLast := i == |es| - 1;
      ghost var before := result.text;
      result.WriteString(prefix + Connector(isLast) + e.name);
      if e.isDir {
        result.WriteString(Slash);
      }
      result.WriteString(Newline);
      WrittenLine(before, prefix, isLast, e, result.text);
      ghost var line := result.text;
      var sub: string := [];
      if |e.children| > 0 {
        sub := WriteTree(e.children, prefix + Extension(isLast));
        result.WriteString(sub);
      } else {
        assert line + sub == line;
      }
      assert result.text == line + sub;
      Regroup3(before, LineText(prefix, isLast, e) + Newline, sub);
      assert sub == if |e.children| > 0 then FormatTree(e.children, prefix + Extension(isLast)) else [];
      FormatTreeStep(es, prefix, i, before, sub);
    }
    assert es[|es|..] == [];
    text := result.text;
  }

  /** The entries in pre-order: each one, then its children, then its later siblings. */
  function Preorder(es: seq<Entry>): seq<Entry>
    decreases es
  {
    if es == [] then [] else [es[0]] + Preorder(es[0].children) + Preorder(es[1..])
  }

  /** The lines of a tree drawing, in pre-order. */
  function TreeLines(es: seq<Entry>, prefix: string): seq<string>
    decreases es
  {
    if es == [] then []
    else
      var isLast := |es| == 1;
      [LineText(prefix, isLast, es[0])]
        + TreeLines(es[0].children, prefix + Extension(isLast))
        + TreeLines(es[1..], prefix)
  }

  /** Lines, each ended by a newline. */
  function Unlines(ls: seq<string>): string {
    if ls == [] then [] else ls[0] + Newline + Unlines(ls[1..])
  }

  lemma {:induction false} UnlinesAppend(a: seq<string>, b: seq<string>)
    ensures Unlines(a + b) == Unlines(a) + Unlines(b)
  {
    if a == [] {
      assert a + b == b;
    } else {
      assert (a + b)[1..] == a[1..] + b;
      UnlinesAppend(a[1..], b);
    }
  }

  /** The drawing is its lines, each ended by a newline. */
  lemma {:induction false} FormatTreeLines(es: seq<Entry>, prefix: string)
    ensures FormatTree(es, prefix) == Unlines(TreeLines(es, prefix))
    decreases es
  {
    if es != [] {
      var e := es[0];
      var isLast := |es| == 1;
      var head := LineText(prefix, isLast, e);
      var sub := TreeLines(e.children, prefix + Extension(isLast));
      var rest := TreeLines(es[1..], prefix);
      FormatTreeLines(e.children, prefix + Extension(isLast));
      FormatTreeLines(es[1..], prefix);
      UnlinesAppend([head] + sub, rest);
      UnlinesAppend([head], sub);
      assert Unlines([head]) == head + Newline;
    }
  }

  /** The drawing has one line per entry of the pre-order walk. */
  lemma {:induction false} TreeLinesLength(es: seq<Entry>, prefix: string)
    ensures |TreeLines(es, prefix)| == |Preorder(es)|
    decreases es
  {
    if es != [] {
      var isLast := |es| == 1;
      TreeLinesLength(es[0].children, prefix + Extension(isLast));
      TreeLinesLength(es[1..], prefix);
    }
  }

  /** One line per entry, in pre-order: line `k` starts with the prefix and ends with the label
      of the `k`-th entry in pre-order. */
  lemma {:induction false} TreeLinesPreorder(es: seq<Entry>, prefix: string)
    ensures |TreeLines(es, prefix)| == |Preorder(es)|
    ensures forall k :: 0 <= k < |Preorder(es)| ==>
      prefix <= TreeLines(es, prefix)[k] && HasSuffix(TreeLines(es, prefix)[k], Label(Preorder(es)[k]))
    decreases es
  {
    if es != [] {
      var isLast := |es| == 1;
      var ext := prefix + Extension(isLast);
      TreeLinesPreorder(es[0].children, ext);
      TreeLinesPreorder(es[1..], prefix);
      var line := LineText(prefix, isLast, es[0]);
      assert line == prefix + (Connector(isLast) + Label(es[0]));
      assert TreeLines(es, prefix) == [line] + TreeLines(es[0].children, ext) + TreeLines(es[1..], prefix);
      assert Preorder(es) == [es[0]] + Preorder(es[0].children) + Preorder(es[1..]);
      LinesMatchCons(prefix, ext, line, es[0], TreeLines(es[0].children, ext), Preorder(es[0].children),
        TreeLines(es[1..], prefix), Preorder(es[1..]));
    }
  }

  /** Each of `ls` starts with `prefix` and ends with the label of the matching entry of `ps`. */
  predicate LinesMatch(ls: seq<string>, prefix: string, ps: seq<Entry>) {
    |ls| == |ps| && forall k :: 0 <= k < |ps| ==> prefix <= ls[k] && HasSuffix(ls[k], Label(ps[k]))
  }

  /** A matching line for `x`, then lines matching under a longer prefix, then lines matching. */
  lemma LinesMatchCons(prefix: string, ext: string, line: string, x: Entry,
                       sub: seq<string>, psub: seq<Entry>, rest: seq<string>, prest: seq<Entry>)
    requires prefix <= ext && prefix <= line && HasSuffix(line, Label(x))
    requires LinesMatch(sub, ext, psub) && LinesMatch(rest, prefix, prest)
    ensures LinesMatch([line] + sub + rest, prefix, [x] + psub + prest)
  {
    var ls, ps := [line] + sub + rest, [x] + psub + prest;
    forall k | 0 <= k < |ps| ensures prefix <= ls[k] && HasSuffix(ls[k], Label(ps[k])) {
      ConsConcatIndex(line, sub, rest, k);
      ConsConcatIndex(x, psub, prest, k);
    }
  }

  /** Indexing into an element followed by two sequences. */
  lemma ConsConcatIndex<T>(x: T, a: seq<T>, b: seq<T>, k: int)
    requires 0 <= k < 1 + |a| + |b|
    ensures ([x] + a + b)[k] == if k == 0 then x else if k <= |a| then a[k - 1] else b[k - 1 - |a|]
  {
  }

  lemma PreorderPrefix(es: seq<Entry>, k: nat)
    requires 0 < k <= |es|
    ensures |Preorder(es[..k])| == 1 + |Preorder(es[0].children)| + |Preorder(es[1..][..k - 1])|
  {
    assert es[..k][0] == es[0];
    assert es[..k][1..] == es[1..][..k - 1];
  }

  lemma SliceAfter<T>(a: seq<T>, b: seq<T>, x: nat, y: nat)
    requires x <= y <= |b|
    ensures (a + b)[|a| + x..|a| + y] == b[x..y]
    ensures x < |b| ==> (a + b)[|a| + x] == b[x]
  {
  }

  /** `ls` holds `line` at `at` and, right after it, the lines `sub`. */
  predicate LinesAt(ls: seq<string>, at: nat, line: string, sub: seq<string>) {
    && at + 1 + |sub| <= |ls|
    && ls[at] == line
    && ls[at + 1..at + 1 + |sub|] == sub
  }

  lemma LinesAtShift(ls: seq<string>, head: seq<string>, rest: seq<string>, at: nat, at': nat,
                     line: string, sub: seq<string>)
    requires ls == head + rest && at == |head| + at' && LinesAt(rest, at', line, sub)
    ensures LinesAt(ls, at, line, sub)
  {
    SliceAfter(head, rest, at' + 1, at' + 1 + |sub|);
  }

  /** Sibling `k`'s line and, right after it, the lines of its children. */
  predicate SiblingAt(es: seq<Entry>, prefix: string, k: nat)
    requires k < |es|
  {
    var isLast := k == |es| - 1;
    LinesAt(TreeLines(es, prefix), |Preorder(es[..k])|,
      prefix + Connector(isLast) + Label(es[k]), TreeLines(es[k].children, prefix + Extension(isLast)))
  }

  lemma FirstSibling(es: seq<Entry>, prefix: string)
    requires es != []
    ensures SiblingAt(es, prefix, 0)
  {
    var isLast0 := |es| == 1;
    var sub0 := TreeLines(es[0].children, prefix + Extension(isLast0));
    var rest := TreeLines(es[1..], prefix);
    var l := LineText(prefix, isLast0, es[0]);
    assert TreeLines(es, prefix) == [l] + (sub0 + rest);
    assert es[..0] == [];
    assert Preorder(es[..0]) == [];
    SliceAfter([l], sub0 + rest, 0, |sub0|);
    assert (sub0 + rest)[0..|sub0|] == sub0;
  }

  /** Sibling `k`'s line uses "└── " when it is the last sibling and "├── " otherwise, and the
      lines of its children follow it, under the prefix extended with "    " for the last
      sibling and "│   " for the others. */
  lemma {:induction false} SiblingLines(es: seq<Entry>, prefix: string, k: nat)
    requires k < |es|
    ensures SiblingAt(es, prefix, k)
    decreases k
  {
    if k == 0 {
      FirstSibling(es, prefix);
    } else {
      SiblingLines(es[1..], prefix, k - 1);
      LaterSibling(es, prefix, k);
    }
  }

  /** Sibling `k > 0` of `es` is sibling `k - 1` of `es[1..]`, shifted by the first sibling's
      lines. */
  lemma LaterSibling(es: seq<Entry>, prefix: string, k: nat)
    requires 0 < k < |es| && SiblingAt(es[1..], prefix, k - 1)
    ensures SiblingAt(es, prefix, k)
  {
    var isLast0 := |es| == 1;
    var head := [LineText(prefix, isLast0, es[0])] + TreeLines(es[0].children, prefix + Extension(isLast0));
    assert TreeLines(es, prefix) == head + TreeLines(es[1..], prefix);
    assert |Preorder(es[..k])| == |head| + |Preorder(es[1..][..k - 1])| by {
      TreeLinesLength(es[0].children, prefix + Extension(isLast0));
      PreorderPrefix(es, k);
    }
    assert es[1..][k - 1] == es[k];
    assert (k - 1 == |es[1..]| - 1) == (k == |es| - 1);
    var isLast := k == |es| - 1;
    LinesAtShift(TreeLines(es, prefix), head, TreeLines(es[1..], prefix),
      |Preorder(es[..k])|, |Preorder(es[1..][..k - 1])|,
      prefix + Connector(isLast) + Label(es[k]), TreeLines(es[k].children, prefix + Extension(isLast)));
  }

  /** The characters the drawing adds around the names. */
  predicate DrawnChar(c: char) {
    c == '├' || c == '└' || c == '│' || c == '─' || c == ' ' || c == '/'
  }

  lemma DrawingHoldsOnly(c: char)
    requires !DrawnChar(c)
    ensures c !in Tee && c !in Elbow && c !in Pipe && c !in Gap && c !in Slash
  {
    assert Tee == ['├', '─', '─', ' '] && Elbow == ['└', '─', '─', ' '];
    assert Pipe == ['│', ' ', ' ', ' '] && Gap == [' ', ' ', ' ', ' '] && Slash == ['/'];
  }

  /** No character `c` in any name of the tree. */
  predicate NamesWithout(es: seq<Entry>, c: char)
    decreases es
  {
    forall k :: 0 <= k < |es| ==> c !in es[k].name && NamesWithout(es[k].children, c)
  }

  lemma NewlineCount(c: char)
    ensures CountChar(Newline, c) == if c == '\n' then 1 else 0
  {
    assert Newline[..0] == [];
  }

  /** A line holds `c` only through its newline. */
  lemma LineCount(prefix: string, isLast: bool, e: Entry, c: char)
    requires c !in prefix && !DrawnChar(c) && c !in e.name
    ensures CountChar(LineText(prefix, isLast, e) + Newline, c) == if c == '\n' then 1 else 0
  {
    DrawingHoldsOnly(c);
    assert c !in LineText(prefix, isLast, e);
    CountAbsent(LineText(prefix, isLast, e), c);
    NewlineCount(c);
    CountCharAppend(LineText(prefix, isLast, e), Newline, c);
  }

  /** Exactly one newline per entry, and no character that the prefix, the names and the box
      drawing all lack. */
  lemma {:induction false} FormatTreeCount(es: seq<Entry>, prefix: string, c: char)
    requires c !in prefix && !DrawnChar(c) && NamesWithout(es, c)
    ensures CountChar(FormatTree(es, prefix), c) == if c == '\n' then |Preorder(es)| else 0
    decreases es
  {
    if es != [] {
      var e := es[0];
      var isLast := |es| == 1;
      var ext := prefix + Extension(isLast);
      DrawingHoldsOnly(c);
      assert c !in ext;
      var line := LineText(prefix, isLast, e) + Newline;
      LineCount(prefix, isLast, e, c);
      var sub := if |e.children| > 0 then FormatTree(e.children, ext) else [];
      var rest := FormatTree(es[1..], prefix);
      FormatTreeCount(e.children, ext, c);
      assert NamesWithout(es[1..], c) by {
        forall k | 0 <= k < |es| - 1
          ensures c !in es[1..][k].name && NamesWithout(es[1..][k].children, c)
        {
          assert es[1..][k] == es[k + 1];
        }
      }
      FormatTreeCount(es[1..], prefix, c);
      assert FormatTree(es, prefix) == line + sub + rest;
      CountCharAppend(line, sub, c);
      CountCharAppend(line + sub, rest, c);
      if |e.children| == 0 {
        assert Preorder(e.children) == [];
      }
    }
  }

  // ---------------------------------------------------------------------------
  // entriesToJSON

  const DirectoryKind := "directory"
  const FileKind := "file"

  /** `jsonEntry`; an empty `children` is the field `omitempty` leaves out. */
  datatype JsonEntry = JsonEntry(name: string, kind: string, children: seq<JsonEntry>)

  /** `entriesToJSON`: one JSON entry per entry, children converted only when present. */
  function EntriesToJson(es: seq<Entry>): (r: seq<JsonEntry>)
    ensures |r| == |es|
    decreases es
  {
    if es == [] then []
    else
      var e := es[0];
      var kind := if e.isDir then DirectoryKind else FileKind;
      var children := if |e.children| > 0 then EntriesToJson(e.children) else [];
      [JsonEntry(e.name, kind, children)] + EntriesToJson(es[1..])
  }

  /** `EntriesToJson` from the `i`-th entry on: that entry's JSON entry, then the rest. */
  lemma EntriesToJsonStep(es: seq<Entry>, i: nat)
    requires i < |es|
    ensures EntriesToJson(es[i..])
      == [JsonEntry(es[i].name, if es[i].isDir then DirectoryKind else FileKind,
                    if |es[i].children| > 0 then EntriesToJson(es[i].children) else [])]
         + EntriesToJson(es[i + 1..])
  {
    var t := es[i..];
    assert t[0] == es[i];
    assert t[1..] == es[i + 1..];
  }

  /** `entriesToJSON` as the source runs it: one JSON entry appended per entry, its type set
      from `isDir`, its children converted by a recursive call when present. */
  method BuildJson(es: seq<Entry>) returns (result: seq<JsonEntry>)
    ensures result == EntriesToJson(es)
    decreases es
  {
    result := [];
    for i := 0 to |es|
      invariant result + EntriesToJson(es[i..]) == EntriesToJson(es)
    {
      var e := es[i];
      var entryType := FileKind;
      if e.isDir {
        entryType := DirectoryKind;
      }
      var je := JsonEntry(e.name, entryType, []);
      if |e.children| > 0 {
        var children := BuildJson(e.children);
        je := je.(children := children);
      }
      EntriesToJsonStep(es, i);
      ShiftPiece(result, [je], EntriesToJson(es[i + 1..]), EntriesToJson(es));
      result := result + [je];
    }
    assert es[|es|..] == [];
  }

  /** Sibling count and order are kept; the type is "directory" exactly for directories and
      "file" otherwise; children are present exactly when the entry has children. */
  lemma {:induction false} EntriesToJsonShape(es: seq<Entry>)
    ensures forall k :: 0 <= k < |es| ==>
      var j := EntriesToJson(es)[k];
      && j.name == es[k].name
      && (j.kind == DirectoryKind <==> es[k].isDir)
      && (j.kind == FileKind <==> !es[k].isDir)
      && j.children == EntriesToJson(es[k].children)
      && (|j.children| > 0 <==> |es[k].children| > 0)
    decreases es
  {
    if es != [] {
      assert |DirectoryKind| != |FileKind|;
      EntriesToJsonShape(es[1..]);
      forall k | 0 <= k < |es|
        ensures EntriesToJson(es)[k].children == EntriesToJson(es[k].children)
      {
        if k > 0 {
          assert EntriesToJson(es)[k] == EntriesToJson(es[1..])[k - 1];
        } else if |es[0].children| == 0 {
          assert es[0].children == [];
        }
      }
    }
  }

  /** Reading the JSON entries back into entries. */
  function JsonToEntries(js: seq<JsonEntry>): seq<Entry>
    decreases js
  {
    if js == [] then []
    else [Entry(js[0].name, js[0].kind == DirectoryKind, JsonToEntries(js[0].children))] + JsonToEntries(js[1..])
  }

  /** The JSON form loses nothing: names, kinds and nesting all come back. */
  lemma {:induction false} JsonRoundTrip(es: seq<Entry>)
    ensures JsonToEntries(EntriesToJson(es)) == es
    decreases es
  {
    if es != [] {
      var e := es[0];
      JsonRoundTrip(e.children);
      JsonRoundTrip(es[1..]);
      JsonHead(es);
      assert (if |e.children| > 0 then e.children else []) == e.children;
      assert [es[0]] + es[1..] == es;
    }
  }

  /** One step of the round trip: the first entry's name and kind, its children as the
      conversion leaves them, then the others. */
  lemma JsonHead(es: seq<Entry>)
    requires es != []
    ensures var e := es[0];
      JsonToEntries(EntriesToJson(es))
      == [Entry(e.name, e.isDir,
                if |e.children| > 0 then JsonToEntries(EntriesToJson(e.children)) else [])]
         + JsonToEntries(EntriesToJson(es[1..]))
  {
    var e := es[0];
    var js := EntriesToJson(es);
    var children := if |e.children| > 0 then EntriesToJson(e.children) else [];
    var j0 := JsonEntry(e.name, if e.isDir then DirectoryKind else FileKind, children);
    assert js == [j0] + EntriesToJson(es[1..]);
    assert js[0] == j0 && js[1..] == EntriesToJson(es[1..]);
    assert (j0.kind == DirectoryKind) == e.isDir by {
      assert |DirectoryKind| != |FileKind|;
    }
  }

  // ---------------------------------------------------------------------------
  // Generate

  /** `filepath.Base` on a slash-separated path: its last element, "." for the empty path and
      "/" for a path of slashes. */
  function Base(path: string): (r: string)
    ensures r != []
    ensures r == "/" || '/' !in r
  {
    if path == [] then "."
    else
      var t := TrimTrailingSlashes(path);
      if t == [] then "/" else LastElement(t)
  }

  function TrimTrailingSlashes(p: string): (r: string)
    ensures r == [] || r[|r| - 1] != '/'
  {
    if p != [] && p[|p| - 1] == '/' then TrimTrailingSlashes(p[..|p| - 1]) else p
  }

  /** What follows the last slash of `p`. */
  function LastElement(p: string): (r: string)
    ensures '/' !in r
    ensures p != [] && p[|p| - 1] != '/' ==> r != []
  {
    if p == [] || p[|p| - 1] == '/' then [] else LastElement(p[..|p| - 1]) + [p[|p| - 1]]
  }

  /** What `os.Stat` says about the root path. */
  datatype RootStat = StatError(reason: string) | Found(node: FsNode)

  /** The generator's result: text, or the JSON tree that `json.MarshalIndent` serialises. */
  datatype Output = Text(text: string) | Json(root: JsonEntry)

  /** The root's display name; `cwd` is what `os.Getwd` returns. */
  function RootName(rootPath: string, cwd: string): string {
    if Base(rootPath) == "." then Base(cwd) else Base(rootPath)
  }

  /** The default rendering: the root name with a slash, then the drawing. */
  function TreeText(rootName: string, es: seq<Entry>): string {
    rootName + Slash + Newline + FormatTree(es, [])
  }

  const MarkdownTitle := "# Directory Structure: "
  const Fence := "```\n"

  /** `formatMarkdown`. */
  function FormatMarkdown(rootName: string, es: seq<Entry>): string {
    MarkdownTitle + rootName + Newline + Newline + Fence + rootName + Slash + Newline + FormatTree(es, []) + Fence
  }

  /** `formatMarkdown` as the source writes it: heading, opening fence, root line, drawing and
      closing fence into one builder. */
  method WriteMarkdown(rootName: string, es: seq<Entry>) returns (text: string)
    ensures text == FormatMarkdown(rootName, es)
  {
    var result := new Builder();
    var heading := MarkdownTitle + rootName + Newline + Newline;
    result.WriteString(heading);
    result.WriteString(Fence);
    var rootLine := rootName + Slash + Newline;
    result.WriteString(rootLine);
    var tree := WriteTree(es, []);
    result.WriteString(tree);
    result.WriteString(Fence);
    text := result.text;
    MarkdownPieces(rootName, es, heading, rootLine, tree, text);
  }

  /** The builder's pieces regrouped as `FormatMarkdown` reads. */
  lemma MarkdownPieces(rootName: string, es: seq<Entry>, heading: string, rootLine: string, tree: string, written: string)
    requires heading == MarkdownTitle + rootName + Newline + Newline
    requires rootLine == rootName + Slash + Newline
    requires tree == FormatTree(es, [])
    requires written == [] + heading + Fence + rootLine + tree + Fence
    ensures written == FormatMarkdown(rootName, es)
  {
    var h := heading + Fence;
    assert [] + heading == heading;
    assert written == h + rootLine + tree + Fence;
    Regroup4(h, rootName, Slash, Newline);
    assert FormatMarkdown(rootName, es) == h + rootName + Slash + Newline + tree + Fence;
  }

  /** The default output is the root line followed by one line per entry in pre-order. */
  lemma TreeTextLines(rootName: string, es: seq<Entry>)
    ensures TreeText(rootName, es) == Unlines([rootName + Slash] + TreeLines(es, []))
    ensures |[rootName + Slash] + TreeLines(es, [])| == 1 + |Preorder(es)|
  {
    FormatTreeLines(es, []);
    TreeLinesPreorder(es, []);
    UnlinesAppend([rootName + Slash], TreeLines(es, []));
  }

  /** Markdown wraps the default output in a heading and a code fence. */
  lemma MarkdownWrapsTree(rootName: string, es: seq<Entry>)
    ensures FormatMarkdown(rootName, es) == MarkdownTitle + rootName + Newline + Newline + Fence + TreeText(rootName, es) + Fence
  {
    var h := MarkdownTitle + rootName + Newline + Newline + Fence;
    var t := FormatTree(es, []);
    assert h + rootName + Slash + Newline + t == h + (rootName + Slash + Newline + t);
  }

  lemma FenceMarks()
    ensures CountChar(Fence, '`') == 3
    ensures '`' !in MarkdownTitle && '`' !in Newline && '`' !in Slash
  {
    assert Fence == ['`', '`', '`'] + "\n";
    CountTriple('`', "\n", '`');
  }

  /** A single fence: when neither the root name nor any entry name holds a backquote, the
      Markdown text holds exactly the six of its opening and closing fence lines. */
  lemma MarkdownSingleFence(rootName: string, es: seq<Entry>)
    requires '`' !in rootName && NamesWithout(es, '`')
    ensures CountChar(FormatMarkdown(rootName, es), '`') == 6
  {
    MarkdownWrapsTree(rootName, es);
    FenceMarks();
    var h := MarkdownTitle + rootName + Newline + Newline;
    var r := rootName + Slash + Newline;
    var t := FormatTree(es, []);
    FormatTreeCount(es, [], '`');
    CountAbsent(h, '`');
    CountAbsent(r, '`');
    CountCharAppend(r, t, '`');
    CountCharAppend(h, Fence, '`');
    CountCharAppend(h + Fence, r + t, '`');
    CountCharAppend(h + Fence + (r + t), Fence, '`');
  }

  /** `Generate`: the root must exist and be a directory; its listing is read at depth 1 and
      rendered as JSON, Markdown or (for any other format) the default text. */
  method Generate(g: Generator, rootPath: string, stat: RootStat, cwd: string) returns (r: Result<Output>)
    ensures stat.StatError? ==> r == Err("cannot access " + rootPath + ": " + stat.reason)
    ensures stat.Found? && stat.node.File? ==> r == Err(rootPath + " is not a directory")
    ensures stat.Found? && stat.node.Dir? ==>
      var es := DirEntries(g, stat.node.contents, stat.node.readable, 1);
      var name := RootName(rootPath, cwd);
      r == Ok(if g.opts.format == "json" then Json(JsonEntry(name, "directory", EntriesToJson(es)))
              else if g.opts.format == "markdown" then Text(FormatMarkdown(name, es))
              else Text(TreeText(name, es)))
  {
    if stat.StatError? {
      return Err("cannot access " + rootPath + ": " + stat.reason);
    }
    if stat.node.File? {
      return Err(rootPath + " is not a directory");
    }
    var rootName := Base(rootPath);
    if rootName == "." {
      rootName := Base(cwd);
    }
    var entries := ReadDir(g, stat.node.contents, stat.node.readable, 1);
    if g.opts.format == "json" {
      var children := BuildJson(entries);
      r := Ok(Json(JsonEntry(rootName, "directory", children)));
    } else if g.opts.format == "markdown" {
      var text := WriteMarkdown(rootName, entries);
      r := Ok(Text(text));
    } else {
      var output := rootName + Slash + Newline;
      var tree := WriteTree(entries, []);
      output := output + tree;
      r := Ok(Text(output));
    }
  }
}

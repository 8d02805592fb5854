/** The four shell-prompt patterns of `parseTypescript` (internal/output/reader.go) and the
    cascade that turns a transcript line into a command. Each pattern has the shape
    `<prefix>(.+)$`; the prefix is a sequence of terms, each one character class taken once,
    any number of times (greedy `*`) or at least once (greedy `+`). Matching follows Go's
    leftmost-first rule: the leftmost start wins, and at that start the first end the
    backtracking order reaches wins. */
module Prompts {
  import opened Basics
  import opened GoStrings

  datatype Atom = Lit(c: char) | PathStart | NonSpace | Space

  datatype Term = One(atom: Atom) | Star(atom: Atom) | Plus(atom: Atom)

  /** `[~\/]`, `[^\s]`, `\s` and a literal character. */
  predicate AtomMatches(a: Atom, c: char) {
    match a
    case Lit(x) => c == x
    case PathStart => c == '~' || c == '/'
    case NonSpace => !IsRegexSpace(c)
    case Space => IsRegexSpace(c)
  }

  /** Every character of `s[i..k]` is in the class. */
  predicate AllIn(a: Atom, s: string, i: nat, k: nat)
    requires i <= k <= |s|
  {
    forall m :: i <= m < k ==> AtomMatches(a, s[m])
  }

  /** Length of the longest run of class characters starting at `i`. */
  function Run(a: Atom, s: string, i: nat): (n: nat)
    requires i <= |s|
    ensures i + n <= |s| && AllIn(a, s, i, i + n)
    ensures i + n < |s| ==> !AtomMatches(a, s[i + n])
    decreases |s| - i
  {
    if i < |s| && AtomMatches(a, s[i]) then 1 + Run(a, s, i + 1) else 0
  }

  /** Declarative reading of a prefix: the terms `ts` match exactly `s[i..j]`. */
  predicate Spans(ts: seq<Term>, s: string, i: nat, j: nat)
    requires i <= j <= |s|
    decreases |ts|, 1
  {
    if ts == [] then i == j
    else
      match ts[0]
      case One(a) => i < j && AtomMatches(a, s[i]) && Spans(ts[1..], s, i + 1, j)
      case Star(a) => SplitsFrom(a, ts[1..], s, i, i, j)
      case Plus(a) => SplitsFrom(a, ts[1..], s, i, i + 1, j)
  }

  /** A repetition of `a` over `s[i..k]`, for some `k` no smaller than `lo`, followed by `rest`
      over `s[k..j]`. */
  predicate SplitsFrom(a: Atom, rest: seq<Term>, s: string, i: nat, lo: nat, j: nat)
    requires i <= lo && j <= |s|
    decreases |rest| + 1, 0
  {
    exists k :: lo <= k <= j && AllIn(a, s, i, k) && Spans(rest, s, k, j)
  }

  /** The ends of all matches of `ts` starting at `i`, in the order a backtracking matcher with
      greedy repetition tries them. */
  function Ends(ts: seq<Term>, s: string, i: nat): (r: seq<nat>)
    requires i <= |s|
    ensures forall e :: e in r ==> i <= e <= |s|
    decreases |ts|, 0
  {
    if ts == [] then [i]
    else
      match ts[0]
      case One(a) => if i < |s| && AtomMatches(a, s[i]) then Ends(ts[1..], s, i + 1) else []
      case Star(a) => EndsDown(ts[1..], s, i, i + Run(a, s, i))
      case Plus(a) => if Run(a, s, i) == 0 then [] else EndsDown(ts[1..], s, i + 1, i + Run(a, s, i))
  }

  /** The ends of `ts` from the split points `k`, `k - 1`, ..., `lo`: longest repetition first. */
  function EndsDown(ts: seq<Term>, s: string, lo: nat, k: nat): (r: seq<nat>)
    requires lo <= k <= |s|
    ensures forall e :: e in r ==> lo <= e <= |s|
    decreases |ts|, 1, k - lo
  {
    Ends(ts, s, k) + if k == lo then [] else EndsDown(ts, s, lo, k - 1)
  }

  /** Some split point from `lo` to `k` leads `ts` to the end `e`. */
  predicate EndsWithin(ts: seq<Term>, s: string, lo: nat, k: nat, e: nat) {
    exists m :: lo <= m <= k && k <= |s| && e in Ends(ts, s, m)
  }

  lemma {:induction false} EndsDownSpans(ts: seq<Term>, s: string, lo: nat, k: nat, e: nat)
    requires lo <= k <= |s|
    ensures e in EndsDown(ts, s, lo, k) <==> EndsWithin(ts, s, lo, k, e)
    decreases k - lo
  {
    if k == lo {
      assert EndsDown(ts, s, lo, k) == Ends(ts, s, k);
    } else {
      EndsDownSpans(ts, s, lo, k - 1, e);
      EndsDownStep(ts, s, lo, k, e);
    }
  }

  /** One more split point adds the ends from it. */
  lemma EndsDownStep(ts: seq<Term>, s: string, lo: nat, k: nat, e: nat)
    requires lo < k <= |s|
    requires e in EndsDown(ts, s, lo, k - 1) <==> EndsWithin(ts, s, lo, k - 1, e)
    ensures e in EndsDown(ts, s, lo, k) <==> EndsWithin(ts, s, lo, k, e)
  {
    assert EndsDown(ts, s, lo, k) == Ends(ts, s, k) + EndsDown(ts, s, lo, k - 1);
    if e in EndsDown(ts, s, lo, k) {
      if e in Ends(ts, s, k) {
        assert lo <= k <= k;
      } else {
        var m :| lo <= m <= k - 1 && e in Ends(ts, s, m);
        assert lo <= m <= k;
      }
    }
    if EndsWithin(ts, s, lo, k, e) {
      var m :| lo <= m <= k && e in Ends(ts, s, m);
      if m < k {
        assert lo <= m <= k - 1 && e in Ends(ts, s, m);
      }
    }
  }

  /** No run of class characters from `i` is longer than `Run`. */
  lemma {:induction false} RunMaximal(a: Atom, s: string, i: nat, k: nat)
    requires i <= k <= |s| && AllIn(a, s, i, k)
    ensures k <= i + Run(a, s, i)
    decreases k - i
  {
    if i < k {
      assert AtomMatches(a, s[i]);
      RunMaximal(a, s, i + 1, k);
    }
  }

  /** The matcher finds exactly the declared matches. */
  lemma {:induction false} EndsSpans(ts: seq<Term>, s: string, i: nat, e: nat)
    requires i <= e <= |s|
    ensures e in Ends(ts, s, i) <==> Spans(ts, s, i, e)
    decreases |ts|, 0
  {
    if ts != [] {
      match ts[0]
      case One(a) =>
        if i < e && AtomMatches(a, s[i]) {
          EndsSpans(ts[1..], s, i + 1, e);
        }
      case Star(a) => StarCase(ts, a, s, i, e);
      case Plus(a) => PlusCase(ts, a, s, i, e);
    }
  }

  lemma StarCase(ts: seq<Term>, a: Atom, s: string, i: nat, e: nat)
    requires ts != [] && ts[0] == Star(a) && i <= e <= |s|
    ensures e in Ends(ts, s, i) <==> Spans(ts, s, i, e)
    decreases |ts|, 0, 0
  {
    StarEndsMember(ts, a, s, i, e);
    StarSpans(a, ts[1..], s, i, e, i);
    assert !ts[0].One? && !ts[0].Plus?;
  }

  /** The ends of `ts` after a `*` repetition are the ends of the remaining terms from the split
      points of the run, the empty repetition included. */
  lemma StarEndsMember(ts: seq<Term>, a: Atom, s: string, i: nat, e: nat)
    requires ts != [] && ts[0] == Star(a) && i <= e <= |s|
    ensures e in Ends(ts, s, i) <==>
      (i <= i + Run(a, s, i) && EndsWithin(ts[1..], s, i, i + Run(a, s, i), e))
  {
    StarEnds(ts, a, s, i);
    EndsDownSpans(ts[1..], s, i, i + Run(a, s, i), e);
  }

  lemma StarEnds(ts: seq<Term>, a: Atom, s: string, i: nat)
    requires ts != [] && ts[0] == Star(a) && i <= |s|
    ensures Ends(ts, s, i) == EndsDown(ts[1..], s, i, i + Run(a, s, i))
  {
    assert !ts[0].One? && !ts[0].Plus?;
  }

  lemma PlusCase(ts: seq<Term>, a: Atom, s: string, i: nat, e: nat)
    requires ts != [] && ts[0] == Plus(a) && i <= e <= |s|
    ensures e in Ends(ts, s, i) <==> Spans(ts, s, i, e)
    decreases |ts|, 0, 0
  {
    PlusEndsMember(ts, a, s, i, e);
    StarSpans(a, ts[1..], s, i, e, i + 1);
    assert !ts[0].One? && !ts[0].Star?;
  }

  /** The ends of `ts` after a `+` repetition are the ends of the remaining terms from the split
      points of a non-empty run. */
  lemma PlusEndsMember(ts: seq<Term>, a: Atom, s: string, i: nat, e: nat)
    requires ts != [] && ts[0] == Plus(a) && i <= e <= |s|
    ensures e in Ends(ts, s, i) <==>
      (i + 1 <= i + Run(a, s, i) && EndsWithin(ts[1..], s, i + 1, i + Run(a, s, i), e))
  {
    if Run(a, s, i) == 0 {
      PlusEndsEmptyRun(ts, a, s, i, e);
    } else {
      PlusEndsRun(ts, a, s, i, e);
    }
  }

  lemma PlusEndsEmptyRun(ts: seq<Term>, a: Atom, s: string, i: nat, e: nat)
    requires ts != [] && ts[0] == Plus(a) && i <= e <= |s| && Run(a, s, i) == 0
    ensures e !in Ends(ts, s, i)
  {
    PlusEnds(ts, a, s, i);
  }

  lemma PlusEndsRun(ts: seq<Term>, a: Atom, s: string, i: nat, e: nat)
    requires ts != [] && ts[0] == Plus(a) && i <= e <= |s| && Run(a, s, i) > 0
    ensures e in Ends(ts, s, i) <==>
      (i + 1 <= i + Run(a, s, i) && EndsWithin(ts[1..], s, i + 1, i + Run(a, s, i), e))
  {
    PlusEnds(ts, a, s, i);
    EndsDownSpans(ts[1..], s, i + 1, i + Run(a, s, i), e);
  }

  lemma PlusEnds(ts: seq<Term>, a: Atom, s: string, i: nat)
    requires ts != [] && ts[0] == Plus(a) && i <= |s|
    ensures Ends(ts, s, i) == if Run(a, s, i) == 0 then [] else EndsDown(ts[1..], s, i + 1, i + Run(a, s, i))
  {
    assert !ts[0].One? && !ts[0].Star?;
  }

  /** A repetition of `a` from `i` followed by `rest` ends at `e` exactly when some split point
      no shorter than `lo` and within the run of `a` leads `rest` to `e`. */
  lemma StarSpans(a: Atom, rest: seq<Term>, s: string, i: nat, e: nat, lo: nat)
    requires i <= lo <= i + 1 && i <= e <= |s|
    ensures SplitsFrom(a, rest, s, i, lo, e) <==>
      (lo <= i + Run(a, s, i) && EndsWithin(rest, s, lo, i + Run(a, s, i), e))
    decreases |rest|, 2
  {
    if SplitsFrom(a, rest, s, i, lo, e) {
      StarSplitEnds(a, rest, s, i, e, lo);
    }
    if lo <= i + Run(a, s, i) && EndsWithin(rest, s, lo, i + Run(a, s, i), e) {
      StarEndsSplit(a, rest, s, i, e, lo);
    }
  }

  /** A declared split point lies within the run and leads the matcher to `e`. */
  lemma StarSplitEnds(a: Atom, rest: seq<Term>, s: string, i: nat, e: nat, lo: nat)
    requires i <= lo && e <= |s| && SplitsFrom(a, rest, s, i, lo, e)
    ensures lo <= i + Run(a, s, i) && EndsWithin(rest, s, lo, i + Run(a, s, i), e)
    decreases |rest|, 1
  {
    var k :| lo <= k <= e && AllIn(a, s, i, k) && Spans(rest, s, k, e);
    RunMaximal(a, s, i, k);
    EndsSpans(rest, s, k, e);
  }

  /** A split point of the matcher within the run is a declared split point. */
  lemma StarEndsSplit(a: Atom, rest: seq<Term>, s: string, i: nat, e: nat, lo: nat)
    requires i <= e <= |s| && i <= lo <= i + Run(a, s, i) && EndsWithin(rest, s, lo, i + Run(a, s, i), e)
    ensures SplitsFrom(a, rest, s, i, lo, e)
    decreases |rest|, 1
  {
    var m :| lo <= m <= i + Run(a, s, i) && i + Run(a, s, i) <= |s| && e in Ends(rest, s, m);
    assert AllIn(a, s, i, m);
    EndsSpans(rest, s, m, e);
  }

  // ---------------------------------------------------------------------------
  // `pattern.FindStringSubmatch(line)` for `<prefix>(.+)$`

  /** `(.+)$` after the prefix ends at `e`: at least one character, no newline, up to the end. */
  predicate CaptureFits(s: string, e: nat)
  {
    e < |s| && '\n' !in s[e..]
  }

  /** `ends[k]` is the first end in `ends` after which `(.+)$` matches. */
  predicate FirstFitAt(ends: seq<nat>, s: string, k: nat)
  {
    k < |ends| && CaptureFits(s, ends[k]) && forall j :: 0 <= j < k ==> !CaptureFits(s, ends[j])
  }

  /** The first end, in backtracking order, after which `(.+)$` matches. */
  function FirstFit(ends: seq<nat>, s: string): (r: Option<nat>)
    ensures r.Some? ==> exists k :: 0 <= k < |ends| && FirstFitAt(ends, s, k) && ends[k] == r.value
    ensures r.None? ==> forall e :: e in ends ==> !CaptureFits(s, e)
  {
    if ends == [] then None
    else
      assert ends[0] in ends;
      if CaptureFits(s, ends[0]) then
        assert FirstFitAt(ends, s, 0);
        Some(ends[0])
      else
        assert forall k :: 0 <= k && FirstFitAt(ends[1..], s, k) ==> FirstFitAt(ends, s, k + 1) && ends[k + 1] == ends[1..][k] by {
          forall k | 0 <= k && FirstFitAt(ends[1..], s, k) ensures FirstFitAt(ends, s, k + 1) && ends[k + 1] == ends[1..][k] {
            FirstFitAtTail(ends, s, k);
          }
        }
        FirstFit(ends[1..], s)
  }

  lemma FirstFitAtTail(ends: seq<nat>, s: string, k: nat)
    requires ends != [] && !CaptureFits(s, ends[0]) && FirstFitAt(ends[1..], s, k)
    ensures FirstFitAt(ends, s, k + 1) && ends[k + 1] == ends[1..][k]
  {
    forall j | 0 <= j < k + 1 ensures !CaptureFits(s, ends[j]) {
      if j > 0 {
        assert ends[j] == ends[1..][j - 1];
      }
    }
  }

  /** At most one position is the first fitting one. */
  lemma FirstFitAtUnique(ends: seq<nat>, s: string, k: nat, k': nat)
    requires FirstFitAt(ends, s, k) && FirstFitAt(ends, s, k')
    ensures k == k'
  {
  }

  /** The submatch of the leftmost match starting at `p` or later. */
  function FindFrom(ts: seq<Term>, s: string, p: nat): (r: Option<string>)
    requires p <= |s|
    decreases |s| - p
  {
    match FirstFit(Ends(ts, s, p), s)
    case Some(e) => Some(s[e..])
    case None => if p == |s| then None else FindFrom(ts, s, p + 1)
  }

  /** `FindStringSubmatch(s)[1]`, or `None` when the pattern does not match. */
  function Find(ts: seq<Term>, s: string): Option<string> {
    FindFrom(ts, s, 0)
  }

  /** A match of the whole pattern: the prefix spans `s[p..e]` and `(.+)$` takes the rest. */
  predicate MatchAt(ts: seq<Term>, s: string, p: nat, e: nat)
    requires p <= e <= |s|
  {
    Spans(ts, s, p, e) && CaptureFits(s, e)
  }

  /** No match of the pattern starts at `p` or later. */
  predicate NoMatchFrom(ts: seq<Term>, s: string, p: nat)
    requires p <= |s|
  {
    forall q, e :: p <= q <= e <= |s| ==> !MatchAt(ts, s, q, e)
  }

  /** Of the matches of the prefix starting at `q`, the one ending at `e` is the one a
      backtracking matcher reaches first among those that `(.+)$` completes. */
  predicate PreferredEnd(ts: seq<Term>, s: string, q: nat, e: nat)
    requires q <= |s|
  {
    exists k :: 0 <= k < |Ends(ts, s, q)| && FirstFitAt(Ends(ts, s, q), s, k) && Ends(ts, s, q)[k] == e
  }

  /** `r` is what `(.+)` captures in the match Go's leftmost-first rule picks from `p` on: no
      match starts earlier, and at its start the match is the one backtracking prefers. */
  predicate LeftmostFrom(ts: seq<Term>, s: string, p: nat, r: string)
    requires p <= |s|
  {
    exists q, e :: p <= q <= e <= |s| && MatchAt(ts, s, q, e) && PreferredEnd(ts, s, q, e) && r == s[e..]
      && forall q', e' :: p <= q' < q && q' <= e' <= |s| ==> !MatchAt(ts, s, q', e')
  }

  /** `FindFrom` finds a match exactly when one starts at `p` or later; what it captures is the
      tail after a match of the prefix, and no match starts before that match's start. */
  lemma {:induction false} FindFromSpec(ts: seq<Term>, s: string, p: nat)
    requires p <= |s|
    ensures FindFrom(ts, s, p).None? <==> NoMatchFrom(ts, s, p)
    ensures FindFrom(ts, s, p).Some? ==> LeftmostFrom(ts, s, p, FindFrom(ts, s, p).value)
    decreases |s| - p
  {
    match FirstFit(Ends(ts, s, p), s)
    case Some(e) =>
      FindHere(ts, s, p, e);
    case None =>
      NoMatchHere(ts, s, p);
      if p < |s| {
        FindFromSpec(ts, s, p + 1);
        FindLater(ts, s, p);
      } else {
        assert NoMatchFrom(ts, s, p);
      }
  }

  /** A fitting end after a prefix match at `p` is a leftmost match. */
  lemma FindHere(ts: seq<Term>, s: string, p: nat, e: nat)
    requires p <= |s| && FirstFit(Ends(ts, s, p), s) == Some(e)
    ensures FindFrom(ts, s, p) == Some(s[e..]) && LeftmostFrom(ts, s, p, s[e..])
    ensures !NoMatchFrom(ts, s, p)
  {
    var k :| 0 <= k < |Ends(ts, s, p)| && FirstFitAt(Ends(ts, s, p), s, k) && Ends(ts, s, p)[k] == e;
    assert e in Ends(ts, s, p);
    EndsSpans(ts, s, p, e);
    assert MatchAt(ts, s, p, e);
    assert PreferredEnd(ts, s, p, e);
  }

  /** When no end fits, no match starts at `p`. */
  lemma NoMatchHere(ts: seq<Term>, s: string, p: nat)
    requires p <= |s| && FirstFit(Ends(ts, s, p), s).None?
    ensures forall e :: p <= e <= |s| ==> !MatchAt(ts, s, p, e)
  {
    forall e | p <= e <= |s|
      ensures !MatchAt(ts, s, p, e)
    {
      EndsSpans(ts, s, p, e);
    }
  }

  /** With no match at `p`, the search from `p` answers as the search from `p + 1`. */
  lemma FindLater(ts: seq<Term>, s: string, p: nat)
    requires p < |s| && FirstFit(Ends(ts, s, p), s).None?
    requires forall e :: p <= e <= |s| ==> !MatchAt(ts, s, p, e)
    requires FindFrom(ts, s, p + 1).None? <==> NoMatchFrom(ts, s, p + 1)
    requires FindFrom(ts, s, p + 1).Some? ==> LeftmostFrom(ts, s, p + 1, FindFrom(ts, s, p + 1).value)
    ensures FindFrom(ts, s, p).None? <==> NoMatchFrom(ts, s, p)
    ensures FindFrom(ts, s, p).Some? ==> LeftmostFrom(ts, s, p, FindFrom(ts, s, p).value)
  {
    assert FindFrom(ts, s, p) == FindFrom(ts, s, p + 1);
    NoMatchShift(ts, s, p);
    if FindFrom(ts, s, p).Some? {
      LeftmostShift(ts, s, p, FindFrom(ts, s, p).value);
    }
  }

  /** With no match starting at `p`, there is no match from `p` exactly when there is none
      from `p + 1`. */
  lemma NoMatchShift(ts: seq<Term>, s: string, p: nat)
    requires p < |s|
    requires forall e :: p <= e <= |s| ==> !MatchAt(ts, s, p, e)
    ensures NoMatchFrom(ts, s, p) <==> NoMatchFrom(ts, s, p + 1)
  {
  }

  /** With no match starting at `p`, the leftmost match from `p + 1` is the leftmost from `p`. */
  lemma LeftmostShift(ts: seq<Term>, s: string, p: nat, r: string)
    requires p < |s| && LeftmostFrom(ts, s, p + 1, r)
    requires forall e :: p <= e <= |s| ==> !MatchAt(ts, s, p, e)
    ensures LeftmostFrom(ts, s, p, r)
  {
    var q, e :| p + 1 <= q <= e <= |s| && MatchAt(ts, s, q, e) && PreferredEnd(ts, s, q, e) && r == s[e..]
      && forall q', e' :: p + 1 <= q' < q && q' <= e' <= |s| ==> !MatchAt(ts, s, q', e');
    assert forall q', e' :: p <= q' < q && q' <= e' <= |s| ==> !MatchAt(ts, s, q', e');
  }

  /** The leftmost-first rule fixes the capture: two captures it allows are the same. */
  lemma LeftmostUnique(ts: seq<Term>, s: string, p: nat, r: string, r': string)
    requires p <= |s| && LeftmostFrom(ts, s, p, r) && LeftmostFrom(ts, s, p, r')
    ensures r == r'
  {
    var q, e :| p <= q <= e <= |s| && MatchAt(ts, s, q, e) && PreferredEnd(ts, s, q, e) && r == s[e..]
      && forall q', e' :: p <= q' < q && q' <= e' <= |s| ==> !MatchAt(ts, s, q', e');
    var q2, e2 :| p <= q2 <= e2 <= |s| && MatchAt(ts, s, q2, e2) && PreferredEnd(ts, s, q2, e2) && r' == s[e2..]
      && forall q', e' :: p <= q' < q2 && q' <= e' <= |s| ==> !MatchAt(ts, s, q', e');
    assert q == q2;
    var k :| 0 <= k < |Ends(ts, s, q)| && FirstFitAt(Ends(ts, s, q), s, k) && Ends(ts, s, q)[k] == e;
    var k2 :| 0 <= k2 < |Ends(ts, s, q)| && FirstFitAt(Ends(ts, s, q), s, k2) && Ends(ts, s, q)[k2] == e2;
    FirstFitAtUnique(Ends(ts, s, q), s, k, k2);
  }

  // ---------------------------------------------------------------------------
  // The four prompts and the cascade

  /** On `~/x❯y❯ cmd` the search from the start captures `cmd`. */
  lemma ArrowFind(s: string)
    requires s == "~/x\U{276F}y\U{276F} cmd"
    ensures FindFrom(ArrowPrompt, s, 0) == Some("cmd")
  {
    ArrowEnds(s);
    assert FirstFit(Ends(ArrowPrompt, s, 0), s) == Some(7) by {
      assert CaptureFits(s, 7);
    }
    assert s[7..] == "cmd";
  }

  /** Backtracking prefers the longest run of `[^\s]*`: on `~/x❯y❯ cmd` the arrow prompt
      captures `cmd`, not `y❯ cmd`. */
  lemma ArrowPrefersLongestPath()
    ensures Find(ArrowPrompt, "~/x\U{276F}y\U{276F} cmd") == Some("cmd")
    ensures !LeftmostFrom(ArrowPrompt, "~/x\U{276F}y\U{276F} cmd", 0, "y\U{276F} cmd")
  {
    var s := "~/x\U{276F}y\U{276F} cmd";
    ArrowFind(s);
    FindFromSpec(ArrowPrompt, s, 0);
    forall r | LeftmostFrom(ArrowPrompt, s, 0, r) ensures r == "cmd" {
      LeftmostUnique(ArrowPrompt, s, 0, "cmd", r);
    }
  }

  /** `[~\/][^\s]*\s*❯\s*(.+)$` */
  const ArrowPrompt: seq<Term> := [One(PathStart), Star(NonSpace), Star(Space), One(Lit('\U{276F}')), Star(Space)]
  /** `[~\/][^\s]*\s*>\s+(.+)$` */
  const AnglePrompt: seq<Term> := [One(PathStart), Star(NonSpace), Star(Space), One(Lit('>')), Plus(Space)]
  /** `\$\s+(.+)$` */
  const DollarPrompt: seq<Term> := [One(Lit('$')), Plus(Space)]
  /** `%\s+(.+)$` */
  const PercentPrompt: seq<Term> := [One(Lit('%')), Plus(Space)]

  const PromptPatterns: seq<seq<Term>> := [ArrowPrompt, AnglePrompt, DollarPrompt, PercentPrompt]

  /** The `❯` and `>` patterns open with `[~\/]`: a line with neither character matches neither. */
  lemma PathPromptNeedsPath(ts: seq<Term>, line: string)
    requires ts == ArrowPrompt || ts == AnglePrompt
    requires '~' !in line && '/' !in line
    ensures Find(ts, line).None?
  {
    FindFromSpec(ts, line, 0);
    forall q, e | 0 <= q <= e <= |line| ensures !MatchAt(ts, line, q, e) {
      assert ts[0] == One(PathStart);
      if q < |line| {
        assert line[q] in line;
      }
    }
  }

  /** The arrow prompt's terms after the path start, after the path, and after the spaces. */
  const ArrowAfterStart: seq<Term> := ArrowPrompt[1..]
  const ArrowAfterPath: seq<Term> := ArrowPrompt[2..]
  const ArrowAfterSpaces: seq<Term> := ArrowPrompt[3..]

  /** On `~/x❯y❯ cmd`, the trailing `\s*` from offset 6 ends at 7 or at 6. */
  lemma ArrowTrailingSpace(s: string)
    requires s == "~/x\U{276F}y\U{276F} cmd"
    ensures Ends([Star(Space)], s, 6) == [7, 6]
  {
    assert Run(Space, s, 6) == 1 by {
      assert Run(Space, s, 7) == 0;
    }
    assert [Star(Space)][1..] == [];
    EndsDownUnfold([], s, 6, 7);
  }

  /** On `~/x❯y❯ cmd`, the `❯` at offset 5 gives the ends 7 and 6. */
  lemma ArrowEndsAtFive(s: string)
    requires s == "~/x\U{276F}y\U{276F} cmd"
    ensures Ends(ArrowAfterPath, s, 5) == [7, 6]
  {
    assert ArrowAfterPath[1..] == ArrowAfterSpaces && ArrowAfterSpaces[1..] == [Star(Space)];
    ArrowTrailingSpace(s);
    assert Ends(ArrowAfterSpaces, s, 5) == [7, 6];
    assert Run(Space, s, 5) == 0;
  }

  /** On `~/x❯y❯ cmd`, no `❯` follows the path when it ends at offset 6. */
  lemma ArrowEndsAtSix(s: string)
    requires s == "~/x\U{276F}y\U{276F} cmd"
    ensures Ends(ArrowAfterPath, s, 6) == []
  {
    assert ArrowAfterPath[1..] == ArrowAfterSpaces;
    assert Run(Space, s, 7) == 0 && Run(Space, s, 6) == 1;
    assert Ends(ArrowAfterSpaces, s, 7) == [] && Ends(ArrowAfterSpaces, s, 6) == [];
    assert Ends(ArrowAfterPath, s, 6) == EndsDown(ArrowAfterSpaces, s, 6, 7);
  }

  /** On `~/x❯y❯ cmd` the path after `~` is the five characters up to the space. */
  lemma ArrowPathRun(s: string)
    requires s == "~/x\U{276F}y\U{276F} cmd"
    ensures Run(NonSpace, s, 1) == 5
  {
    assert Run(NonSpace, s, 6) == 0;
  }

  /** On `~/x❯y❯ cmd` the prefix starts at `~`, and the path's split points run down from 6. */
  lemma ArrowStart(s: string)
    requires s == "~/x\U{276F}y\U{276F} cmd"
    ensures Ends(ArrowPrompt, s, 0) == EndsDown(ArrowAfterPath, s, 1, 6)
  {
    assert ArrowAfterStart[1..] == ArrowAfterPath;
    ArrowPathRun(s);
    assert Ends(ArrowPrompt, s, 0) == Ends(ArrowAfterStart, s, 1);
  }

  lemma EndsDownUnfold(ts: seq<Term>, s: string, lo: nat, k: nat)
    requires lo < k <= |s|
    ensures EndsDown(ts, s, lo, k) == Ends(ts, s, k) + EndsDown(ts, s, lo, k - 1)
  {
  }

  /** The first end the arrow prompt's prefix reaches on `~/x❯y❯ cmd` is just before `cmd`. */
  lemma ArrowEnds(s: string)
    requires s == "~/x\U{276F}y\U{276F} cmd"
    ensures Ends(ArrowPrompt, s, 0) != [] && Ends(ArrowPrompt, s, 0)[0] == 7
  {
    ArrowStart(s);
    EndsDownUnfold(ArrowAfterPath, s, 1, 6);
    EndsDownUnfold(ArrowAfterPath, s, 1, 5);
    ArrowEndsAtSix(s);
    ArrowEndsAtFive(s);
  }

  /** The filter on a trimmed capture: longer than one byte and not the tool's own invocation. */
  predicate AcceptedCommand(cmd: string) {
    Utf8Len(cmd) > 1 && !("context" <= cmd)
  }

  /** What pattern `ts` contributes: its trimmed capture, if that passes the filter. */
  function Candidate(ts: seq<Term>, line: string): (r: Option<string>)
    ensures r.Some? ==> AcceptedCommand(r.value) && Trimmed(r.value)
  {
    match Find(ts, line)
    case Some(c) => if AcceptedCommand(TrimSpace(c)) then Some(TrimSpace(c)) else None
    case None => None
  }

  /** The `for _, pattern := range promptPatterns` loop with its `break`, over what each pattern
      contributes in turn: the first candidate present wins. */
  function Cascade(cs: seq<Option<string>>): (r: Option<string>)
    ensures r.Some? ==> r in cs
  {
    if cs == [] then None
    else if cs[0].Some? then cs[0]
    else Cascade(cs[1..])
  }

  /** What each pattern of `ps` contributes, in order. */
  function CandidatesOf(ps: seq<seq<Term>>, line: string): (cs: seq<Option<string>>)
    ensures |cs| == |ps|
    ensures forall c :: c in cs && c.Some? ==> AcceptedCommand(c.value) && Trimmed(c.value)
  {
    if ps == [] then [] else [Candidate(ps[0], line)] + CandidatesOf(ps[1..], line)
  }

  /** The candidates of the four prompts, in the order they are tried. */
  function Candidates(line: string): (cs: seq<Option<string>>)
    ensures |cs| == 4
    ensures forall c :: c in cs && c.Some? ==> AcceptedCommand(c.value) && Trimmed(c.value)
  {
    CandidatesOf(PromptPatterns, line)
  }

  /** The four candidates written out. */
  lemma CandidatesFour(line: string)
    ensures Candidates(line) == [Candidate(ArrowPrompt, line), Candidate(AnglePrompt, line),
                                 Candidate(DollarPrompt, line), Candidate(PercentPrompt, line)]
  {
    CandidatesOfFour(ArrowPrompt, AnglePrompt, DollarPrompt, PercentPrompt, line);
  }

  lemma CandidatesOfFour(p0: seq<Term>, p1: seq<Term>, p2: seq<Term>, p3: seq<Term>, line: string)
    ensures CandidatesOf([p0, p1, p2, p3], line)
      == [Candidate(p0, line), Candidate(p1, line), Candidate(p2, line), Candidate(p3, line)]
  {
    assert [p0, p1, p2, p3] == [p0] + [p1, p2, p3];
    assert [p1, p2, p3] == [p1] + [p2, p3];
    assert [p2, p3] == [p2] + [p3];
    assert [p3] == [p3] + [];
    CandidatesOfCons(p3, [], line);
    CandidatesOfCons(p2, [p3], line);
    CandidatesOfCons(p1, [p2, p3], line);
    CandidatesOfCons(p0, [p1, p2, p3], line);
  }

  lemma CandidatesOfCons(p: seq<Term>, ps: seq<seq<Term>>, line: string)
    ensures CandidatesOf([p] + ps, line) == [Candidate(p, line)] + CandidatesOf(ps, line)
  {
    assert ([p] + ps)[1..] == ps;
  }

  /** The command a transcript line announces, if any. */
  function PromptCommand(line: string): (r: Option<string>)
    ensures r.Some? ==> AcceptedCommand(r.value) && Trimmed(r.value) && r.value != []
  {
    Cascade(Candidates(line))
  }

  /** The candidate of the `i`-th pattern is the `i`-th candidate. */
  lemma {:induction false} CandidatesOfAt(ps: seq<seq<Term>>, line: string, i: nat)
    requires i < |ps|
    ensures CandidatesOf(ps, line)[i] == Candidate(ps[i], line)
  {
    if i > 0 {
      CandidatesOfAt(ps[1..], line, i - 1);
    }
  }

  /** The `for _, pattern := range promptPatterns` loop of `parseTypescript`: the first pattern
      whose trimmed capture passes the filter sets `command` and ends the loop; without one,
      `command` stays empty. */
  method DetectCommand(line: string) returns (command: string)
    ensures PromptCommand(line).Some? ==> command == PromptCommand(line).value
    ensures PromptCommand(line).None? ==> command == []
  {
    command := [];
    ghost var cs := Candidates(line);
    CascadeFirst(cs);
    for i := 0 to |PromptPatterns|
      invariant command == [] && forall k :: 0 <= k < i ==> cs[k].None?
    {
      CandidatesOfAt(PromptPatterns, line, i);
      var c := Candidate(PromptPatterns[i], line);
      if c.Some? {
        command := c.value;
        FirstCandidate(cs, i);
        return;
      }
    }
  }

  /** When the candidate at `i` is the first one present, the cascade yields it. */
  lemma FirstCandidate(cs: seq<Option<string>>, i: nat)
    requires i < |cs| && cs[i].Some? && forall k :: 0 <= k < i ==> cs[k].None?
    ensures Cascade(cs) == cs[i]
  {
    CascadeFirst(cs);
    var k :| 0 <= k < |cs| && Cascade(cs) == cs[k] && forall j :: 0 <= j < k ==> cs[j].None?;
    assert k == i;
  }

  /** The cascade yields the first candidate present: a pattern whose capture fails the filter
      does not stop the search. */
  lemma {:induction false} CascadeFirst(cs: seq<Option<string>>)
    ensures Cascade(cs).None? <==> forall k :: 0 <= k < |cs| ==> cs[k].None?
    ensures Cascade(cs).Some? ==>
      exists k :: 0 <= k < |cs| && Cascade(cs) == cs[k] && forall j :: 0 <= j < k ==> cs[j].None?
  {
    if cs != [] && cs[0].None? {
      var tail := cs[1..];
      CascadeFirst(tail);
      assert forall k :: 1 <= k < |cs| ==> cs[k] == tail[k - 1];
      if Cascade(tail).Some? {
        var k :| 0 <= k < |tail| && Cascade(tail) == tail[k] && forall j :: 0 <= j < k ==> tail[j].None?;
        assert Cascade(cs) == cs[k + 1];
      }
    }
  }

  lemma Cascade4(c0: Option<string>, c1: Option<string>, c2: Option<string>, c3: Option<string>)
    ensures Cascade([c0, c1, c2, c3]) ==
      if c0.Some? then c0 else if c1.Some? then c1 else if c2.Some? then c2 else c3
  {
    assert [c0, c1, c2, c3][1..] == [c1, c2, c3];
    assert [c1, c2, c3][1..] == [c2, c3];
    assert [c2, c3][1..] == [c3];
    assert [c3][1..] == [];
    assert Cascade([c3]) == c3;
    assert Cascade([c2, c3]) == if c2.Some? then c2 else c3;
    assert Cascade([c1, c2, c3]) == if c1.Some? then c1 else if c2.Some? then c2 else c3;
  }

  /** The prompts in their fixed order ❯, >, $, %: a line is a prompt line when one of them
      yields an accepted command, and the first such one gives the command. */
  lemma PromptOrder(line: string)
    ensures PromptCommand(line).None? <==>
      (Candidate(ArrowPrompt, line).None? && Candidate(AnglePrompt, line).None?
       && Candidate(DollarPrompt, line).None? && Candidate(PercentPrompt, line).None?)
    ensures Candidate(ArrowPrompt, line).Some? ==> PromptCommand(line) == Candidate(ArrowPrompt, line)
    ensures (Candidate(ArrowPrompt, line).None? && Candidate(AnglePrompt, line).Some?) ==>
      PromptCommand(line) == Candidate(AnglePrompt, line)
    ensures (Candidate(ArrowPrompt, line).None? && Candidate(AnglePrompt, line).None?
             && Candidate(DollarPrompt, line).Some?) ==>
      PromptCommand(line) == Candidate(DollarPrompt, line)
    ensures (Candidate(ArrowPrompt, line).None? && Candidate(AnglePrompt, line).None?
             && Candidate(DollarPrompt, line).None?) ==>
      PromptCommand(line) == Candidate(PercentPrompt, line)
  {
    CandidatesFour(line);
    Cascade4(Candidate(ArrowPrompt, line), Candidate(AnglePrompt, line),
             Candidate(DollarPrompt, line), Candidate(PercentPrompt, line));
  }
}

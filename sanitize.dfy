/** The text sanitisers of internal/output/reader.go: `stripANSI`, which deletes terminal
    escape sequences, and `cleanOutput`, which trims a captured output and collapses runs of
    blank lines. */
module Sanitize {
  import opened Basics
  import opened GoStrings

  const Esc: char := '\U{1B}'
  const Bel: char := '\U{07}'

  // ---------------------------------------------------------------------------
  // stripANSI: the four alternatives of its regular expression, each matched at the
  // start of the remaining text and returning the length of the match.

  predicate IsParamChar(c: char) {
    '0' <= c <= '9' || c == ';'
  }

  predicate IsAsciiLetter(c: char) {
    'a' <= c <= 'z' || 'A' <= c <= 'Z'
  }

  /** End of the run of `[0-9;]` characters that starts at `i`. */
  function ParamRun(s: string, i: nat): (j: nat)
    requires i <= |s|
    ensures i <= j <= |s|
    ensures forall k :: i <= k < j ==> IsParamChar(s[k])
    ensures j < |s| ==> !IsParamChar(s[j])
    decreases |s| - i
  {
    if i < |s| && IsParamChar(s[i]) then ParamRun(s, i + 1) else i
  }

  /** Position of the first `c` at or after `i`. */
  function IndexFrom(s: string, i: nat, c: char): (r: Option<nat>)
    requires i <= |s|
    ensures r.Some? ==> i <= r.value < |s| && s[r.value] == c
    ensures r.Some? ==> forall k :: i <= k < r.value ==> s[k] != c
    ensures r.None? ==> forall k :: i <= k < |s| ==> s[k] != c
    decreases |s| - i
  {
    if i == |s| then None else if s[i] == c then Some(i) else IndexFrom(s, i + 1, c)
  }

  /** First alternative, a CSI sequence: `\x1b\[[0-9;]*[a-zA-Z]`. */
  function MatchCsi(s: string): Option<nat> {
    if |s| >= 2 && s[0] == Esc && s[1] == '[' then
      var j := ParamRun(s, 2);
      if j < |s| && IsAsciiLetter(s[j]) then Some(j + 1) else None
    else None
  }

  /** Second alternative, an OSC sequence ended by BEL: `\x1b\][^\x07]*\x07`. */
  function MatchOsc(s: string): Option<nat> {
    if |s| >= 2 && s[0] == Esc && s[1] == ']' then
      match IndexFrom(s, 2, Bel)
      case Some(k) => Some(k + 1)
      case None => None
    else None
  }

  /** Third alternative, a DCS/SOS/PM/APC string ended by `ESC \`: `\x1b[PX^_][^\x1b]*\x1b\\`. */
  function MatchControlString(s: string): Option<nat> {
    if |s| >= 2 && s[0] == Esc && s[1] in "PX^_" then
      match IndexFrom(s, 2, Esc)
      case Some(k) => if k + 1 < |s| && s[k + 1] == '\\' then Some(k + 2) else None
      case None => None
    else None
  }

  /** Fourth alternative: `\x1b\[[0-9;]*[mKHJPq]`. */
  function MatchCsiShort(s: string): Option<nat> {
    if |s| >= 2 && s[0] == Esc && s[1] == '[' then
      var j := ParamRun(s, 2);
      if j < |s| && s[j] in "mKHJPq" then Some(j + 1) else None
    else None
  }

  /** The alternation at the start of `s`, earlier alternatives preferred; the length matched. */
  function MatchEscape(s: string): (r: Option<nat>)
    ensures r.Some? ==> 2 <= r.value <= |s| && s[0] == Esc
  {
    if MatchCsi(s).Some? then MatchCsi(s)
    else if MatchOsc(s).Some? then MatchOsc(s)
    else if MatchControlString(s).Some? then MatchControlString(s)
    else MatchCsiShort(s)
  }

  /** The fourth alternative never matches where the first does not: it adds nothing. */
  lemma CsiShortSubsumed(s: string)
    ensures MatchCsiShort(s).Some? ==> MatchCsi(s) == MatchCsiShort(s)
  {
  }

  /** `stripANSI`: `ReplaceAllString(s, "")` with the regular expression above. Matches are
      found left to right and never overlap; everything between them is kept. */
  function StripAnsi(s: string): (r: string)
    ensures |r| <= |s|
    decreases |s|
  {
    if s == [] then []
    else
      match MatchEscape(s)
      case Some(n) => StripAnsi(s[n..])
      case None => [s[0]] + StripAnsi(s[1..])
  }

  /** Text without an escape character is left as it is. */
  lemma {:induction false} StripAnsiPlainText(s: string)
    requires Esc !in s
    ensures StripAnsi(s) == s
  {
    if s != [] {
      StripAnsiPlainText(s[1..]);
      assert s == [s[0]] + s[1..];
    }
  }

  /** Text before the first escape character passes through unchanged. */
  lemma {:induction false} StripAnsiPlainPrefix(p: string, q: string)
    requires Esc !in p
    ensures StripAnsi(p + q) == p + StripAnsi(q)
  {
    if p != [] {
      assert (p + q)[0] == p[0] && (p + q)[1..] == p[1..] + q;
      StripAnsiPlainPrefix(p[1..], q);
    } else {
      assert p + q == q;
    }
  }

  /** A complete CSI sequence (ESC, '[', parameters, final letter) is deleted. */
  lemma StripAnsiDropsCsi(params: string, final: char, q: string)
    requires forall k :: 0 <= k < |params| ==> IsParamChar(params[k])
    requires IsAsciiLetter(final)
    ensures StripAnsi([Esc, '['] + params + [final] + q) == StripAnsi(q)
  {
    var s := [Esc, '['] + params + [final] + q;
    assert s[2 + |params|] == final;
    assert forall k :: 2 <= k < 2 + |params| ==> s[k] == params[k - 2];
    assert ParamRun(s, 2) == 2 + |params| by {
      ParamRunOver(s, 2, 2 + |params|);
    }
    assert s[3 + |params|..] == q;
  }

  lemma {:induction false} ParamRunOver(s: string, i: nat, j: nat)
    requires i <= j < |s|
    requires forall k :: i <= k < j ==> IsParamChar(s[k])
    requires !IsParamChar(s[j])
    ensures ParamRun(s, i) == j
    decreases j - i
  {
    if i < j {
      ParamRunOver(s, i + 1, j);
    }
  }

  /** `a` can be obtained from `b` by deleting characters. */
  predicate IsSubsequence(a: string, b: string)
    decreases |b|
  {
    if a == [] then true
    else if b == [] then false
    else (a[0] == b[0] && IsSubsequence(a[1..], b[1..])) || IsSubsequence(a, b[1..])
  }

  lemma {:induction false} SubsequenceDropPrefix(a: string, b: string, n: nat)
    requires n <= |b| && IsSubsequence(a, b[n..])
    ensures IsSubsequence(a, b)
    decreases n
  {
    if n > 0 {
      assert b[1..][n - 1..] == b[n..];
      SubsequenceDropPrefix(a, b[1..], n - 1);
    }
  }

  /** The sanitiser only deletes: its result is a subsequence of its input. */
  lemma {:induction false} StripAnsiSubsequence(s: string)
    ensures IsSubsequence(StripAnsi(s), s)
    decreases |s|
  {
    if s != [] {
      match MatchEscape(s)
      case Some(n) =>
        StripAnsiSubsequence(s[n..]);
        SubsequenceDropPrefix(StripAnsi(s), s, n);
      case None =>
        StripAnsiSubsequence(s[1..]);
    }
  }

  /** One pass does not always reach a fixpoint: deleting an inner sequence can complete
      an outer one. */
  lemma StripAnsiNotIdempotent()
    ensures var s := [Esc, '[', Esc, '[', 'm', 'A'];
            StripAnsi(s) == [Esc, '[', 'A'] && StripAnsi(StripAnsi(s)) == []
  {
    var s := [Esc, '[', Esc, '[', 'm', 'A'];
    var t := [Esc, '[', 'm', 'A'];
    var u := [Esc, '[', 'A'];
    assert ParamRun(s, 2) == 2;
    assert MatchEscape(s) == None;
    assert s[1..] == ['['] + t;
    assert MatchEscape(s[1..]) == None;
    assert s[1..][1..] == t;
    assert ParamRun(t, 2) == 2;
    assert MatchEscape(t) == Some(3);
    assert t[3..] == ['A'];
    assert StripAnsi(['A']) == ['A'];
    assert StripAnsi(t) == ['A'];
    assert StripAnsi(s[1..]) == ['['] + ['A'];
    assert StripAnsi(s) == [Esc] + (['['] + ['A']);
    assert ParamRun(u, 2) == 2;
    assert MatchEscape(u) == Some(3);
    assert u[3..] == [];
  }

  // ---------------------------------------------------------------------------
  // cleanOutput

  const Nl3: string := "\n\n\n"
  const Nl2: string := "\n\n"

  function Newlines(k: nat): (r: string)
    ensures |r| == k && forall i :: 0 <= i < k ==> r[i] == '\n'
  {
    seq(k, _ => '\n')
  }

  /** Reference definition of the collapse: delete every newline that begins three in a row,
      so each run of three or more newlines becomes exactly two and shorter runs stay. */
  function Squeeze(s: string): (r: string)
    ensures |r| <= |s|
    decreases |s|
  {
    if s == [] then []
    else if Nl3 <= s then Squeeze(s[1..])
    else [s[0]] + Squeeze(s[1..])
  }

  /** What `cleanOutput` computes. */
  function CleanText(s: string): string {
    Squeeze(TrimSpace(s))
  }

  /** `cleanOutput`: trim, then replace "\n\n\n" by "\n\n" until none is left. */
  method CleanOutput(s: string) returns (r: string)
    ensures r == CleanText(s)
    ensures !Contains(r, Nl3)
  {
    r := TrimSpace(s);
    while Contains(r, Nl3)
      invariant Squeeze(r) == CleanText(s)
      decreases |r|
    {
      SqueezeReplaceAll(r);
      ReplaceAllShrinks(r);
      r := ReplaceAll(r, Nl3, Nl2);
    }
    SqueezeFixpoint(r);
  }

  lemma NewlinesCons(k: nat, u: string)
    ensures Newlines(k + 1) + u == ['\n'] + (Newlines(k) + u)
  {
  }

  /** Number of newlines at the start of `s`. */
  function LeadingNewlines(s: string): (a: nat)
    ensures a <= |s| && s == Newlines(a) + s[a..]
    ensures a < |s| ==> s[a] != '\n'
  {
    if s != [] && s[0] == '\n' then
      var b := LeadingNewlines(s[1..]);
      NewlinesCons(b, s[b + 1..]);
      assert s == [s[0]] + s[1..] && s[1..][b..] == s[b + 1..];
      1 + b
    else 0
  }

  /** Size of a run of `a` newlines after one `ReplaceAll` pass. */
  function ReplacedRun(a: nat): nat {
    2 * (a / 3) + a % 3
  }

  lemma {:induction false} SqueezeRun(a: nat, u: string)
    requires u == [] || u[0] != '\n'
    ensures Squeeze(Newlines(a) + u) == Newlines(Min(a, 2)) + Squeeze(u)
    decreases a
  {
    var s := Newlines(a) + u;
    if a == 0 {
      assert s == u;
    } else {
      NewlinesFront(a, u);
      SqueezeRun(a - 1, u);
      if a < 3 {
        NewlinesFront(Min(a, 2), Squeeze(u));
      }
    }
  }

  /** A run of `a > 0` newlines in front of `u`: its first character, the rest, and whether
      it begins with three newlines. */
  lemma NewlinesFront(a: nat, u: string)
    requires a > 0 && (u == [] || u[0] != '\n')
    ensures var s := Newlines(a) + u;
      s != [] && s[0] == '\n' && s[1..] == Newlines(a - 1) + u
      && (Nl3 <= s <==> a >= 3)
      && Newlines(a) + u == ['\n'] + (Newlines(a - 1) + u)
  {
    var s := Newlines(a) + u;
    assert s[1..] == Newlines(a - 1) + u;
    if a >= 3 {
      assert s[..3] == Nl3;
    } else if |s| >= 3 {
      assert s[a] == u[0];
    }
  }

  lemma ReplacedRunStep(a: nat)
    ensures a >= 3 ==> ReplacedRun(a) == ReplacedRun(a - 3) + 2
    ensures a < 3 ==> ReplacedRun(a) == a
    ensures Min(ReplacedRun(a), 2) == Min(a, 2)
  {
  }

  lemma ReplaceAllKeep(s: string)
    requires s != [] && !(Nl3 <= s)
    ensures ReplaceAll(s, Nl3, Nl2) == [s[0]] + ReplaceAll(s[1..], Nl3, Nl2)
  {
  }

  lemma ReplaceAllHit(s: string)
    requires Nl3 <= s
    ensures ReplaceAll(s, Nl3, Nl2) == Nl2 + ReplaceAll(s[3..], Nl3, Nl2)
  {
  }

  /** A run of one or two newlines passes through a `ReplaceAll` pass unchanged. */
  lemma ReplaceShortRun(a: nat, u: string)
    requires 1 <= a <= 2
    requires u == [] || u[0] != '\n'
    ensures ReplaceAll(Newlines(a) + u, Nl3, Nl2) == Newlines(a) + ReplaceAll(u, Nl3, Nl2)
  {
    var t := ['\n'] + u;
    assert !(Nl3 <= t) by {
      if |t| >= 3 { assert t[1] == u[0]; }
    }
    ReplaceAllKeep(t);
    assert t[1..] == u;
    if a == 2 {
      var s := ['\n'] + t;
      assert s == Newlines(a) + u;
      assert !(Nl3 <= s) by {
        if |s| >= 3 { assert s[2] == u[0]; }
      }
      ReplaceAllKeep(s);
      assert s[1..] == t;
    } else {
      assert t == Newlines(a) + u;
    }
  }

  lemma {:induction false} ReplaceRun(a: nat, u: string)
    requires u == [] || u[0] != '\n'
    ensures ReplaceAll(Newlines(a) + u, Nl3, Nl2) == Newlines(ReplacedRun(a)) + ReplaceAll(u, Nl3, Nl2)
    decreases a
  {
    ReplacedRunStep(a);
    if a == 0 {
      assert Newlines(a) + u == u;
    } else if a >= 3 {
      var s := Newlines(a) + u;
      NewlinesDrop3(a, u);
      ReplaceAllHit(s);
      ReplaceRun(a - 3, u);
      var k := ReplacedRun(a - 3);
      assert Newlines(k + 2) == Nl2 + Newlines(k);
      Regroup3(Nl2, Newlines(k), ReplaceAll(u, Nl3, Nl2));
    } else {
      ReplaceShortRun(a, u);
    }
  }

  lemma NewlinesDrop3(a: nat, u: string)
    requires a >= 3
    ensures Nl3 <= Newlines(a) + u && (Newlines(a) + u)[3..] == Newlines(a - 3) + u
  {
    var s := Newlines(a) + u;
    assert s[..3] == Nl3;
    assert s[3..] == Newlines(a - 3) + u;
  }

  /** One `ReplaceAll` pass does not change what the collapse produces. */
  lemma {:induction false} SqueezeReplaceAll(s: string)
    ensures Squeeze(ReplaceAll(s, Nl3, Nl2)) == Squeeze(s)
    decreases |s|
  {
    var a := LeadingNewlines(s);
    var u := s[a..];
    ReplaceRun(a, u);
    SqueezeRun(a, u);
    var m := ReplacedRun(a);
    ReplacedRunStep(a);
    if u == [] {
      assert ReplaceAll(u, Nl3, Nl2) == [];
      SqueezeRun(m, []);
      assert Newlines(m) + [] == Newlines(m);
      assert Newlines(a) + [] == Newlines(a);
    } else {
      var ru := ReplaceAll(u, Nl3, Nl2);
      assert ru == [u[0]] + ReplaceAll(u[1..], Nl3, Nl2);
      SqueezeRun(m, ru);
      SqueezeReplaceAll(u[1..]);
      assert ru[1..] == ReplaceAll(u[1..], Nl3, Nl2);
      assert Squeeze(ru) == [u[0]] + Squeeze(ru[1..]);
      assert Squeeze(u) == [u[0]] + Squeeze(u[1..]);
    }
  }

  lemma {:induction false} ReplaceAllShrinks(s: string)
    ensures |ReplaceAll(s, Nl3, Nl2)| <= |s|
    ensures Contains(s, Nl3) ==> |ReplaceAll(s, Nl3, Nl2)| < |s|
    decreases |s|
  {
    if s != [] {
      if Nl3 <= s {
        ReplaceAllShrinks(s[3..]);
      } else {
        ReplaceAllShrinks(s[1..]);
      }
    }
  }

  /** A text without three newlines in a row is left as it is. */
  lemma {:induction false} SqueezeFixpoint(s: string)
    requires !Contains(s, Nl3)
    ensures Squeeze(s) == s
    decreases |s|
  {
    if s != [] {
      SqueezeFixpoint(s[1..]);
      assert s == [s[0]] + s[1..];
    }
  }

  lemma {:induction false} ContainsSkip(p: string, w: string)
    requires forall i :: 0 <= i < |p| ==> !(Nl3 <= (p + w)[i..])
    requires Contains(p + w, Nl3)
    ensures Contains(w, Nl3)
  {
    if p == [] {
      assert p + w == w;
    } else {
      assert (p + w)[0..] == p + w;
      assert (p + w)[1..] == p[1..] + w;
      forall i | 0 <= i < |p[1..]|
        ensures !(Nl3 <= (p[1..] + w)[i..])
      {
        assert (p[1..] + w)[i..] == (p + w)[i + 1..];
      }
      ContainsSkip(p[1..], w);
    }
  }

  /** The collapse leaves no three newlines in a row. */
  lemma {:induction false} SqueezeNoTriple(s: string)
    ensures !Contains(Squeeze(s), Nl3)
    decreases |s|
  {
    var a := LeadingNewlines(s);
    var u := s[a..];
    SqueezeRun(a, u);
    var m := Min(a, 2);
    if u == [] {
      assert Squeeze(u) == [];
      assert Newlines(m) + [] == Newlines(m);
      ShortRunNoTriple(m);
    } else {
      var w := Squeeze(u[1..]);
      assert Squeeze(u) == [u[0]] + w;
      SqueezeNoTriple(u[1..]);
      Regroup3(Newlines(m), [u[0]], w);
      RunThenTextNoTriple(m, u[0], w);
    }
  }

  lemma ShortRunNoTriple(m: nat)
    requires m <= 2
    ensures !Contains(Newlines(m), Nl3)
  {
    if Contains(Newlines(m), Nl3) {
      var i := ContainsWitness(Newlines(m), Nl3);
    }
  }

  /** At most two newlines, a character that is not one, then text without three newlines in
      a row: nowhere are there three in a row. */
  lemma RunThenTextNoTriple(m: nat, c: char, w: string)
    requires m <= 2 && c != '\n' && !Contains(w, Nl3)
    ensures !Contains(Newlines(m) + [c] + w, Nl3)
  {
    var p := Newlines(m) + [c];
    if Contains(p + w, Nl3) {
      assert (p + w)[m] == c;
      forall i | 0 <= i < |p|
        ensures !(Nl3 <= (p + w)[i..])
      {
        assert (p + w)[i..][m - i] == c;
      }
      ContainsSkip(p, w);
    }
  }

  lemma SqueezeIdempotent(s: string)
    ensures Squeeze(Squeeze(s)) == Squeeze(s)
  {
    SqueezeNoTriple(s);
    SqueezeFixpoint(Squeeze(s));
  }

  lemma {:induction false} SqueezeLast(s: string)
    requires s != [] && s[|s| - 1] != '\n'
    ensures Squeeze(s) == Squeeze(s[..|s| - 1]) + [s[|s| - 1]]
    decreases |s|
  {
    if |s| > 1 {
      var init := s[..|s| - 1];
      SqueezeLast(s[1..]);
      assert s[1..][..|s| - 2] == init[1..];
      if Nl3 <= s {
        assert Nl3 <= init;
      } else {
        assert !(Nl3 <= init);
      }
    }
  }

  lemma SqueezeKeepsTrimmed(s: string)
    requires Trimmed(s)
    ensures Trimmed(Squeeze(s))
  {
    if s != [] {
      assert !(Nl3 <= s);
      SqueezeLast(s);
    }
  }

  /** `cleanOutput` yields trimmed text without three newlines in a row, and applying it twice
      is the same as applying it once. */
  lemma CleanTextProperties(s: string)
    ensures Trimmed(CleanText(s))
    ensures !Contains(CleanText(s), Nl3)
    ensures CleanText(CleanText(s)) == CleanText(s)
  {
    var t := TrimSpace(s);
    SqueezeKeepsTrimmed(t);
    SqueezeNoTriple(t);
    TrimmedFixpoint(Squeeze(t));
    SqueezeIdempotent(t);
  }
}

/** The parts of Go's `strings` and `unicode` packages that the core relies on.
    A Go string is a byte sequence; here it is a sequence of Unicode scalar values,
    and `Utf8Len` gives the number of bytes Go's `len` would report. */
module GoStrings {

  /** `unicode.IsSpace`: the characters with the Unicode White_Space property. */
  predicate IsSpace(c: char) {
    || c == '\t' || c == '\n' || c == '\U{0B}' || c == '\U{0C}' || c == '\r' || c == ' '
    || c == '\U{85}' || c == '\U{A0}' || c == '\U{1680}'
    || ('\U{2000}' <= c <= '\U{200A}')
    || c == '\U{2028}' || c == '\U{2029}' || c == '\U{202F}' || c == '\U{205F}' || c == '\U{3000}'
  }

  /** The class `\s` of Go's regexp syntax: `[\t\n\f\r ]` (no vertical tab). */
  predicate IsRegexSpace(c: char) {
    c == '\t' || c == '\n' || c == '\U{0C}' || c == '\r' || c == ' '
  }

  lemma RegexSpaceIsSpace(c: char)
    ensures IsRegexSpace(c) ==> IsSpace(c)
  {
  }

  /** Number of bytes of the UTF-8 encoding of one code point. */
  function RuneLen(c: char): (n: nat)
    ensures 1 <= n <= 4
  {
    if c < '\U{80}' then 1
    else if c < '\U{800}' then 2
    else if c < '\U{10000}' then 3
    else 4
  }

  /** Go's `len(s)`: the length of the UTF-8 encoding of `s`. */
  function Utf8Len(s: string): (n: nat)
    ensures |s| <= n <= 4 * |s|
  {
    if s == [] then 0 else RuneLen(s[0]) + Utf8Len(s[1..])
  }

  lemma Utf8LenAppend(a: string, b: string)
    ensures Utf8Len(a + b) == Utf8Len(a) + Utf8Len(b)
  {
    if a != [] {
      assert (a + b)[0] == a[0];
      assert (a + b)[1..] == a[1..] + b;
      Utf8LenAppend(a[1..], b);
    } else {
      assert a + b == b;
    }
  }

  // ---------------------------------------------------------------------------
  // Trimming

  /** `strings.TrimLeft(s, white space)`. */
  function TrimLeftSpace(s: string): (r: string)
    ensures |r| <= |s|
    ensures r == [] || !IsSpace(r[0])
  {
    if s != [] && IsSpace(s[0]) then TrimLeftSpace(s[1..]) else s
  }

  /** `strings.TrimRight(s, white space)`. */
  function TrimRightSpace(s: string): (r: string)
    ensures |r| <= |s|
    ensures r == [] || !IsSpace(r[|r| - 1])
  {
    if s != [] && IsSpace(s[|s| - 1]) then TrimRightSpace(s[..|s| - 1]) else s
  }

  /** `TrimLeftSpace` drops a prefix made of white space only. */
  lemma {:induction false} TrimLeftSpaceSpec(s: string)
    ensures var r := TrimLeftSpace(s);
      r == s[|s| - |r|..] && forall k :: 0 <= k < |s| - |r| ==> IsSpace(s[k])
  {
    if s != [] && IsSpace(s[0]) {
      TrimLeftSpaceSpec(s[1..]);
    }
  }

  /** `TrimRightSpace` drops a suffix made of white space only. */
  lemma {:induction false} TrimRightSpaceSpec(s: string)
    ensures var r := TrimRightSpace(s);
      r == s[..|r|] && forall k :: |r| <= k < |s| ==> IsSpace(s[k])
  {
    if s != [] && IsSpace(s[|s| - 1]) {
      TrimRightSpaceSpec(s[..|s| - 1]);
    }
  }

  /** A string with no white space at either end. */
  predicate Trimmed(s: string) {
    s == [] || (!IsSpace(s[0]) && !IsSpace(s[|s| - 1]))
  }

  /** Number of white-space characters at the start of `s`. */
  function LeadingSpaces(s: string): nat {
    |s| - |TrimLeftSpace(s)|
  }

  /** `strings.TrimSpace`: drops leading and trailing white space. */
  function TrimSpace(s: string): (r: string)
    ensures Trimmed(r) && |r| <= |s|
  {
    var l := TrimLeftSpace(s);
    var r := TrimRightSpace(l);
    assert r == [] || r[0] == l[0] by {
      TrimRightSpaceSpec(l);
    }
    r
  }

  /** `TrimSpace` keeps the middle of `s` and drops only white space around it. */
  lemma TrimSpaceSpec(s: string)
    ensures var r := TrimSpace(s);
      && LeadingSpaces(s) + |r| <= |s| && r == s[LeadingSpaces(s)..LeadingSpaces(s) + |r|]
      && (forall k :: 0 <= k < LeadingSpaces(s) ==> IsSpace(s[k]))
      && (forall k :: LeadingSpaces(s) + |r| <= k < |s| ==> IsSpace(s[k]))
  {
    var l := TrimLeftSpace(s);
    var r := TrimRightSpace(l);
    TrimLeftSpaceSpec(s);
    TrimRightSpaceSpec(l);
    assert r == TrimSpace(s);
    MiddleOfSuffix(s, l, r, LeadingSpaces(s));
  }

  /** A prefix `r` of the suffix `l` of `s` sits at offset `n` in `s`; what follows `r` in `l`
      follows it in `s`. */
  lemma MiddleOfSuffix(s: string, l: string, r: string, n: nat)
    requires n == |s| - |l| && l == s[n..] && |r| <= |l| && r == l[..|r|]
    requires forall k :: |r| <= k < |l| ==> IsSpace(l[k])
    ensures n + |r| <= |s| && r == s[n..n + |r|]
    ensures forall k :: n + |r| <= k < |s| ==> IsSpace(s[k])
  {
    assert forall k :: 0 <= k < |r| ==> r[k] == s[n + k];
    forall k | n + |r| <= k < |s|
      ensures IsSpace(s[k])
    {
      assert s[k] == l[k - n];
    }
  }

  lemma {:induction false} TrimmedFixpoint(s: string)
    requires Trimmed(s)
    ensures TrimSpace(s) == s
  {
    assert TrimLeftSpace(s) == s;
    assert TrimRightSpace(s) == s;
  }

  lemma TrimSpaceIdempotent(s: string)
    ensures TrimSpace(TrimSpace(s)) == TrimSpace(s)
  {
    TrimmedFixpoint(TrimSpace(s));
  }

  // ---------------------------------------------------------------------------
  // Prefixes, suffixes and substrings (Dafny's `p <= s` is `strings.HasPrefix(s, p)`)

  predicate HasSuffix(s: string, suffix: string) {
    |suffix| <= |s| && s[|s| - |suffix|..] == suffix
  }

  /** `strings.TrimPrefix`. */
  function TrimPrefix(s: string, prefix: string): (r: string)
    ensures prefix <= s ==> s == prefix + r
    ensures !(prefix <= s) ==> r == s
  {
    if prefix <= s then s[|prefix|..] else s
  }

  /** `strings.TrimSuffix`. */
  function TrimSuffix(s: string, suffix: string): (r: string)
    ensures HasSuffix(s, suffix) ==> s == r + suffix
    ensures !HasSuffix(s, suffix) ==> r == s
  {
    if HasSuffix(s, suffix) then s[..|s| - |suffix|] else s
  }

  /** `strings.Contains`. */
  predicate Contains(s: string, sub: string)
    decreases |s|
  {
    sub <= s || (s != [] && Contains(s[1..], sub))
  }

  /** `Contains` holds exactly when `sub` occurs at some position. */
  lemma {:induction false} ContainsAt(s: string, sub: string, i: nat)
    requires i + |sub| <= |s| && s[i..i + |sub|] == sub
    ensures Contains(s, sub)
    decreases i
  {
    if i > 0 {
      assert s[1..][i - 1..i - 1 + |sub|] == s[i..i + |sub|];
      ContainsAt(s[1..], sub, i - 1);
    }
  }

  lemma {:induction false} ContainsWitness(s: string, sub: string) returns (i: nat)
    requires Contains(s, sub)
    ensures i + |sub| <= |s| && s[i..i + |sub|] == sub
    decreases |s|
  {
    if sub <= s {
      i := 0;
    } else {
      var j := ContainsWitness(s[1..], sub);
      assert s[1..][j..j + |sub|] == s[j + 1..j + 1 + |sub|];
      i := j + 1;
    }
  }

  /** A substring of a middle part is a substring of the whole. */
  lemma ContainsInfix(a: string, m: string, b: string, sub: string)
    requires Contains(m, sub)
    ensures Contains(a + m + b, sub)
  {
    var i := ContainsWitness(m, sub);
    var s := a + m + b;
    assert s[|a| + i..|a| + i + |sub|] == m[i..i + |sub|];
    ContainsAt(s, sub, |a| + i);
  }

  /** `strings.ReplaceAll` for a non-empty pattern: leftmost, non-overlapping, left to right. */
  function ReplaceAll(s: string, pattern: string, replacement: string): string
    requires |pattern| > 0
    decreases |s|
  {
    if s == [] then []
    else if pattern <= s then replacement + ReplaceAll(s[|pattern|..], pattern, replacement)
    else [s[0]] + ReplaceAll(s[1..], pattern, replacement)
  }

  // ---------------------------------------------------------------------------
  // Split and Join on a one-character separator

  /** `strings.Split(s, string(sep))`: the pieces between separators, always at least one. */
  function Split(s: string, sep: char): (r: seq<string>)
    ensures |r| >= 1
    ensures forall k :: 0 <= k < |r| ==> sep !in r[k]
  {
    if s == [] then [[]]
    else
      var rest := Split(s[1..], sep);
      if s[0] == sep then [[]] + rest else [[s[0]] + rest[0]] + rest[1..]
  }

  /** `strings.Join(ls, string(sep))`. */
  function Join(ls: seq<string>, sep: char): string {
    if |ls| == 0 then []
    else if |ls| == 1 then ls[0]
    else ls[0] + [sep] + Join(ls[1..], sep)
  }

  lemma {:induction false} SplitNoSep(s: string, sep: char)
    requires sep !in s
    ensures Split(s, sep) == [s]
  {
    if s != [] {
      SplitNoSep(s[1..], sep);
      assert [s[0]] + s[1..] == s;
    }
  }

  /** Splitting a string around one separator splits each side independently. */
  lemma {:induction false} SplitConcat(a: string, b: string, sep: char)
    ensures Split(a + [sep] + b, sep) == Split(a, sep) + Split(b, sep)
  {
    if a == [] {
      assert a + [sep] + b == [sep] + b;
      assert ([sep] + b)[1..] == b;
    } else {
      assert (a + [sep] + b)[0] == a[0];
      assert (a + [sep] + b)[1..] == a[1..] + [sep] + b;
      SplitConcat(a[1..], b, sep);
    }
  }

  /** Appending text without a separator only lengthens the last piece. */
  lemma {:induction false} SplitExtend(a: string, x: string, sep: char)
    requires sep !in x
    ensures var p := Split(a, sep);
      Split(a + x, sep) == p[..|p| - 1] + [p[|p| - 1] + x]
  {
    if a == [] {
      SplitNoSep(x, sep);
      assert a + x == x;
    } else {
      SplitExtend(a[1..], x, sep);
      if a[0] == sep {
        SplitExtendAfterSep(a, x, sep);
      } else {
        SplitExtendAfterChar(a, x, sep);
      }
    }
  }

  lemma SplitExtendAfterSep(a: string, x: string, sep: char)
    requires a != [] && a[0] == sep
    requires var p := Split(a[1..], sep); Split(a[1..] + x, sep) == p[..|p| - 1] + [p[|p| - 1] + x]
    ensures var p := Split(a, sep); Split(a + x, sep) == p[..|p| - 1] + [p[|p| - 1] + x]
  {
    assert (a + x)[0] == a[0] && (a + x)[1..] == a[1..] + x;
    var rest := Split(a[1..], sep);
    var p := Split(a, sep);
    assert p == [[]] + rest;
    assert p[..|p| - 1] == [[]] + rest[..|rest| - 1];
  }

  lemma SplitExtendAfterChar(a: string, x: string, sep: char)
    requires a != [] && a[0] != sep
    requires var p := Split(a[1..], sep); Split(a[1..] + x, sep) == p[..|p| - 1] + [p[|p| - 1] + x]
    ensures var p := Split(a, sep); Split(a + x, sep) == p[..|p| - 1] + [p[|p| - 1] + x]
  {
    assert (a + x)[0] == a[0] && (a + x)[1..] == a[1..] + x;
    var rest := Split(a[1..], sep);
    var ext := Split(a[1..] + x, sep);
    assert Split(a, sep) == [[a[0]] + rest[0]] + rest[1..];
    assert Split(a + x, sep) == [[a[0]] + ext[0]] + ext[1..];
    ExtendFirstPiece(a[0], rest, ext, x);
  }

  /** Lengthening the last piece commutes with prefixing the first piece by `c`. */
  lemma ExtendFirstPiece(c: char, rest: seq<string>, ext: seq<string>, x: string)
    requires |rest| >= 1 && ext == rest[..|rest| - 1] + [rest[|rest| - 1] + x]
    ensures var p := [[c] + rest[0]] + rest[1..];
      [[c] + ext[0]] + ext[1..] == p[..|p| - 1] + [p[|p| - 1] + x]
  {
    var n := |rest|;
    var p := [[c] + rest[0]] + rest[1..];
    if n == 1 {
      assert ext == [rest[0] + x];
      Regroup3([c], rest[0], x);
    } else {
      assert ext[0] == rest[0] && ext[1..] == rest[1..n - 1] + [rest[n - 1] + x];
      assert p[..|p| - 1] == [[c] + rest[0]] + rest[1..n - 1];
    }
  }

  /** Join undoes Split. */
  lemma {:induction false} JoinSplit(s: string, sep: char)
    ensures Join(Split(s, sep), sep) == s
  {
    if s != [] {
      var rest := Split(s[1..], sep);
      JoinSplit(s[1..], sep);
      if s[0] == sep {
        assert Split(s, sep) == [[]] + rest;
        assert ([[]] + rest)[1..] == rest;
      } else {
        var r := Split(s, sep);
        assert r == [[s[0]] + rest[0]] + rest[1..];
        if |rest| > 1 {
          assert r[1..] == rest[1..];
          assert Join(rest, sep) == rest[0] + [sep] + Join(rest[1..], sep);
        }
      }
    }
  }

  /** Split undoes Join when no piece holds the separator. */
  lemma {:induction false} SplitJoin(ls: seq<string>, sep: char)
    requires |ls| >= 1
    requires forall k :: 0 <= k < |ls| ==> sep !in ls[k]
    ensures Split(Join(ls, sep), sep) == ls
  {
    SplitNoSep(ls[0], sep);
    if |ls| > 1 {
      SplitJoin(ls[1..], sep);
      SplitConcat(ls[0], Join(ls[1..], sep), sep);
      assert [ls[0]] + ls[1..] == ls;
    }
  }

  /** Every piece of a join occurs in it. */
  lemma {:induction false} JoinInfix(ls: seq<string>, sep: char, k: nat)
    requires k < |ls|
    ensures exists a, b :: Join(ls, sep) == a + ls[k] + b
  {
    if |ls| == 1 {
      assert Join(ls, sep) == [] + ls[0] + [];
    } else if k == 0 {
      assert Join(ls, sep) == [] + ls[0] + ([sep] + Join(ls[1..], sep));
    } else {
      JoinInfix(ls[1..], sep, k - 1);
      var a, b :| Join(ls[1..], sep) == a + ls[1..][k - 1] + b;
      assert Join(ls, sep) == (ls[0] + [sep] + a) + ls[k] + b;
    }
  }

  /** A substring of one piece of a split is a substring of the string split. */
  lemma SplitPieceContains(s: string, sep: char, k: nat, sub: string)
    requires k < |Split(s, sep)| && Contains(Split(s, sep)[k], sub)
    ensures Contains(s, sub)
  {
    JoinSplit(s, sep);
    JoinInfix(Split(s, sep), sep, k);
    var a, b :| Join(Split(s, sep), sep) == a + Split(s, sep)[k] + b;
    ContainsInfix(a, Split(s, sep)[k], b, sub);
  }

  lemma {:induction false} JoinAppend(ls: seq<string>, x: string, sep: char)
    requires |ls| >= 1
    ensures Join(ls + [x], sep) == Join(ls, sep) + [sep] + x
  {
    if |ls| == 1 {
      assert ls + [x] == [ls[0], x];
    } else {
      assert (ls + [x])[1..] == ls[1..] + [x];
      JoinAppend(ls[1..], x, sep);
    }
  }

  // ---------------------------------------------------------------------------
  // Ordering

  /** Go's `<` on strings: byte-wise comparison, which on UTF-8 agrees with code-point order. */
  predicate LexLess(a: string, b: string) {
    if a == [] then b != []
    else if b == [] then false
    else if a[0] != b[0] then a[0] < b[0]
    else LexLess(a[1..], b[1..])
  }

  lemma {:induction false} LexLessIrreflexive(a: string)
    ensures !LexLess(a, a)
  {
    if a != [] {
      LexLessIrreflexive(a[1..]);
    }
  }

  lemma {:induction false} LexLessTransitive(a: string, b: string, c: string)
    requires LexLess(a, b) && LexLess(b, c)
    ensures LexLess(a, c)
  {
    if a != [] && b != [] && c != [] && a[0] == b[0] && b[0] == c[0] {
      LexLessTransitive(a[1..], b[1..], c[1..]);
    }
  }

  lemma {:induction false} LexLessTotal(a: string, b: string)
    requires a != b
    ensures LexLess(a, b) || LexLess(b, a)
  {
    if a != [] && b != [] && a[0] == b[0] {
      assert a == [a[0]] + a[1..] && b == [b[0]] + b[1..];
      LexLessTotal(a[1..], b[1..]);
    }
  }

  lemma LexLessAsymmetric(a: string, b: string)
    requires LexLess(a, b)
    ensures !LexLess(b, a)
  {
    if LexLess(b, a) {
      LexLessTransitive(a, b, a);
      LexLessIrreflexive(a);
    }
  }

  // ---------------------------------------------------------------------------
  // Counting characters

  /** How often `c` occurs in `s`. */
  function CountChar(s: string, c: char): nat {
    if s == [] then 0 else CountChar(s[..|s| - 1], c) + (if s[|s| - 1] == c then 1 else 0)
  }

  lemma {:induction false} CountCharAppend(a: string, b: string, c: char)
    ensures CountChar(a + b, c) == CountChar(a, c) + CountChar(b, c)
    decreases |b|
  {
    if b == [] {
      assert a + b == a;
    } else {
      assert (a + b)[..|a + b| - 1] == a + b[..|b| - 1];
      CountCharAppend(a, b[..|b| - 1], c);
    }
  }

  lemma {:induction false} CountAbsent(s: string, c: char)
    requires c !in s
    ensures CountChar(s, c) == 0
  {
    if s != [] {
      CountAbsent(s[..|s| - 1], c);
    }
  }

  /** Three copies of `x` in front of `rest`. */
  lemma CountTriple(x: char, rest: string, c: char)
    requires c !in rest
    ensures CountChar([x, x, x] + rest, c) == if x == c then 3 else 0
  {
    CountAbsent(rest, c);
    CountCharAppend([x, x, x], rest, c);
    assert [x, x, x][..2] == [x, x] && [x, x][..1] == [x] && [x][..0] == [];
    assert CountChar([x], c) == if x == c then 1 else 0;
    assert CountChar([x, x], c) == if x == c then 2 else 0;
  }

  // ---------------------------------------------------------------------------
  // Builders

  /** Regrouping a concatenation, stated once over any strings so that callers need not
      re-derive it from the elements. */
  lemma Regroup3(a: string, b: string, c: string)
    ensures a + b + c == a + (b + c)
  {
  }

  lemma Regroup4(a: string, b: string, c: string, d: string)
    ensures a + b + c + d == a + (b + c + d)
  {
  }

  lemma Regroup5(a: string, b: string, c: string, d: string, e: string)
    ensures a + b + c + d + e == a + (b + c + d + e)
  {
  }

  lemma Regroup6(a: string, b: string, c: string, d: string, e: string, f: string)
    ensures a + b + c + d + e + f == a + (b + c + d + e + f)
  {
  }

  /** `strings.Builder`: text that only grows. */
  class Builder {
    var text: string

    constructor()
      ensures text == []
    {
      text := [];
    }

    method WriteString(s: string)
      modifies this
      ensures text == old(text) + s
    {
      text := text + s;
    }
  }
}

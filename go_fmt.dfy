/** Integer scanning and printing as Go's `fmt` does them for the `%d` verb,
    and the 64-bit wrap-around of Go's `int` arithmetic. */
module GoFmt {
  import opened Basics
  import opened GoStrings

  const Int64Min: int := -0x8000_0000_0000_0000
  const Int64Max: int := 0x7FFF_FFFF_FFFF_FFFF
  const Two64: int := 0x1_0000_0000_0000_0000

  /** The value a Go `int64` computation yields for the mathematical result `x`. */
  function Wrap64(x: int): (r: int)
    ensures Int64Min <= r <= Int64Max
    ensures (r - x) % Two64 == 0
    ensures Int64Min <= x <= Int64Max ==> r == x
  {
    (x - Int64Min) % Two64 + Int64Min
  }

  predicate IsDigit(c: char) {
    '0' <= c <= '9'
  }

  function DigitValue(c: char): (d: nat)
    requires IsDigit(c)
    ensures d < 10
  {
    (c as int) - ('0' as int)
  }

  function DigitChar(d: nat): (c: char)
    requires d < 10
    ensures IsDigit(c) && DigitValue(c) == d
  {
    (('0' as int) + d) as char
  }

  predicate AllDigits(s: string) {
    forall k :: 0 <= k < |s| ==> IsDigit(s[k])
  }

  /** Decimal representation of `n` without leading zeros, as `%d` prints it. */
  function NatToDecimal(n: nat): (r: string)
    ensures |r| >= 1 && AllDigits(r)
    ensures |r| > 1 ==> r[0] != '0'
    decreases n
  {
    if n < 10 then [DigitChar(n)] else NatToDecimal(n / 10) + [DigitChar(n % 10)]
  }

  /** `fmt.Sprintf("%d", i)`. */
  function IntToString(i: int): string {
    if i < 0 then "-" + NatToDecimal(-i) else NatToDecimal(i)
  }

  /** The number a string of decimal digits denotes. */
  function DecimalValue(ds: string): nat
    requires AllDigits(ds)
  {
    if ds == [] then 0 else DecimalValue(ds[..|ds| - 1]) * 10 + DigitValue(ds[|ds| - 1])
  }

  /** Length of the token `%d` reads at the start of `s`: the run of decimal digits. Base
      prefixes and underscores belong to `%v` only, so `%d` stops before them. */
  function DigitRun(s: string): (n: nat)
    ensures n <= |s| && forall k :: 0 <= k < n ==> IsDigit(s[k])
    ensures n < |s| ==> !IsDigit(s[n])
  {
    if s != [] && IsDigit(s[0]) then
      var n := 1 + DigitRun(s[1..]);
      assert forall k :: 1 <= k < n ==> s[k] == s[1..][k - 1];
      n
    else 0
  }

  /** The white space `Sscanf` skips before a verb: a newline there is an error. */
  function SkipScanSpace(s: string): (r: Option<string>)
    ensures r.Some? ==> |r.value| <= |s| && r.value == s[|s| - |r.value|..]
    ensures r.Some? ==> r.value == [] || !IsSpace(r.value[0])
  {
    if s == [] then Some(s)
    else if s[0] == '\n' then None
    else if IsSpace(s[0]) then SkipScanSpace(s[1..])
    else Some(s)
  }

  /** `fmt.Sscanf(s, "%d", &x)`: `Some(v)` when Sscanf stores `v`, `None` when it reports an error
      (nothing after the number is looked at). */
  function ScanInt(s: string): (r: Option<int>)
    ensures r.Some? ==> Int64Min <= r.value <= Int64Max
  {
    match SkipScanSpace(s)
    case None => None
    case Some(t) =>
      if t != [] && t[0] == '-' then ScanDigits(t[1..], true)
      else if t != [] && t[0] == '+' then ScanDigits(t[1..], false)
      else ScanDigits(t, false)
  }

  /** The token at the start of `u`, negated when a minus sign preceded it, if `strconv.ParseInt`
      accepts it in base 10: it is non-empty and fits in 64 bits. */
  function ScanDigits(u: string, negative: bool): (r: Option<int>)
    ensures r.Some? ==> Int64Min <= r.value <= Int64Max
    ensures r.Some? ==> 0 < DigitRun(u) && AllDigits(u[..DigitRun(u)])
  {
    var n := DigitRun(u);
    if n == 0 then None
    else
      var v: int := if negative then -(DecimalValue(u[..n]) as int) else DecimalValue(u[..n]);
      if Int64Min <= v <= Int64Max then Some(v) else None
  }

  lemma {:induction false} DecimalValueOfNat(n: nat)
    ensures DecimalValue(NatToDecimal(n)) == n
    decreases n
  {
    if n >= 10 {
      DecimalValueOfNat(n / 10);
      var r := NatToDecimal(n);
      assert r[..|r| - 1] == NatToDecimal(n / 10);
    }
  }

  /** The token is the only prefix of token characters not followed by one. */
  lemma {:induction false} DigitRunExact(s: string, m: nat)
    requires m <= |s| && (forall k :: 0 <= k < m ==> IsDigit(s[k])) && (m < |s| ==> !IsDigit(s[m]))
    ensures DigitRun(s) == m
  {
    if m > 0 {
      assert forall k :: 0 <= k < m - 1 ==> s[1..][k] == s[k + 1];
      DigitRunExact(s[1..], m - 1);
    }
  }

  lemma DigitRunOfDecimal(n: nat, rest: string)
    requires rest == [] || !IsDigit(rest[0])
    ensures DigitRun(NatToDecimal(n) + rest) == |NatToDecimal(n)|
  {
    var d := NatToDecimal(n);
    var s := d + rest;
    forall k | 0 <= k < |d| ensures IsDigit(s[k]) {
      assert s[k] == d[k];
    }
    if |d| < |s| {
      assert s[|d|] == rest[0];
    }
    DigitRunExact(s, |d|);
  }

  /** The digits and sign of a printed integer, as `ScanInt` reads them back. */
  lemma {:induction false} ScanDecimal(u: string, a: nat, rest: string)
    requires u == NatToDecimal(a) + rest
    requires rest == [] || !IsDigit(rest[0])
    ensures DigitRun(u) == |NatToDecimal(a)| && u[..DigitRun(u)] == NatToDecimal(a)
    ensures DecimalValue(u[..DigitRun(u)]) == a
  {
    DigitRunOfDecimal(a, rest);
    DecimalValueOfNat(a);
    assert u[..|NatToDecimal(a)|] == NatToDecimal(a);
  }

  /** `%d` stops its token at an underscore, so "1_0" stores the 1 before it. */
  lemma ScanIntUnderscore()
    ensures ScanInt("1_0") == Some(1)
  {
    var s := "1_0";
    assert SkipScanSpace(s) == Some(s);
    assert DigitRun(s[1..]) == 0;
    assert DigitRun(s) == 1;
    assert s[..1] == "1";
    assert DecimalValue("1") == 1 by { assert "1"[..0] == []; }
    assert ScanDigits(s, false) == Some(1);
  }

  /** `%d` takes no base prefix, so "0x1F" stores the 0 before the `x`. */
  lemma ScanIntNoBasePrefix()
    ensures ScanInt("0x1F") == Some(0)
  {
    var s := "0x1F";
    assert SkipScanSpace(s) == Some(s);
    assert DigitRun(s[1..]) == 0;
    assert DigitRun(s) == 1;
    assert s[..1] == "0";
    assert DecimalValue("0") == 0 by { assert "0"[..0] == []; }
    assert ScanDigits(s, false) == Some(0);
  }

  lemma {:induction false} ScanPrintedNegative(x: int, rest: string)
    requires Int64Min <= x < 0
    requires rest == [] || !IsDigit(rest[0])
    ensures ScanInt(IntToString(x) + rest) == Some(x)
  {
    var s := IntToString(x) + rest;
    var u := NatToDecimal(-x) + rest;
    assert s == ['-'] + u;
    assert s[0] == '-' && s[1..] == u;
    ScanNegativeDigits(u, x, rest);
    assert SkipScanSpace(s) == Some(s);
  }

  /** The digits after the minus sign of a printed negative integer scan back to it. */
  lemma ScanNegativeDigits(u: string, x: int, rest: string)
    requires Int64Min <= x < 0
    requires u == NatToDecimal(-x) + rest
    requires rest == [] || !IsDigit(rest[0])
    ensures ScanDigits(u, true) == Some(x)
  {
    ScanDecimal(u, -x, rest);
  }

  lemma {:induction false} ScanPrintedNonNegative(x: nat, rest: string)
    requires x <= Int64Max
    requires rest == [] || !IsDigit(rest[0])
    ensures ScanInt(IntToString(x) + rest) == Some(x)
  {
    var s := IntToString(x) + rest;
    assert s == NatToDecimal(x) + rest;
    ScanNonNegativeDigits(s, x, rest);
    UnsignedStart(s);
  }

  /** The digits of a printed natural number scan back to it. */
  lemma ScanNonNegativeDigits(u: string, x: nat, rest: string)
    requires x <= Int64Max
    requires u == NatToDecimal(x) + rest
    requires rest == [] || !IsDigit(rest[0])
    ensures IsDigit(u[0]) && ScanDigits(u, false) == Some(x)
  {
    ScanDecimal(u, x, rest);
    assert u[0] == NatToDecimal(x)[0];
  }

  /** A string that starts with a digit is read by `ScanInt` from its first character. */
  lemma UnsignedStart(s: string)
    requires s != [] && IsDigit(s[0])
    ensures ScanInt(s) == ScanDigits(s, false)
  {
    assert SkipScanSpace(s) == Some(s);
  }
}

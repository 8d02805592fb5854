/** The calendar part of Go's `time` package that the log headers use: `time.Parse` with the
    layout "2006-01-02 15:04:05", whose results are in UTC. */
module GoTime {
  import opened Basics
  import opened GoFmt

  datatype DateTime = DateTime(year: int, month: int, day: int, hour: int, minute: int, second: int,
                               nanosecond: int)

  /** `time.Time{}`: January 1, year 1, 00:00:00 UTC, what a failed `time.Parse` returns. */
  const ZeroTime: DateTime := DateTime(1, 1, 1, 0, 0, 0, 0)

  const NanosPerSecond: nat := 1_000_000_000

  predicate IsLeap(year: int) {
    year % 4 == 0 && (year % 100 != 0 || year % 400 == 0)
  }

  function DaysIn(month: int, year: int): int
    requires 1 <= month <= 12
  {
    if month == 2 then (if IsLeap(year) then 29 else 28)
    else if month == 4 || month == 6 || month == 9 || month == 11 then 30
    else 31
  }

  /** A date and time of day that exists on the calendar, with a four-digit year. */
  predicate ValidDateTime(t: DateTime) {
    && 0 <= t.year <= 9999 && 1 <= t.month <= 12 && 1 <= t.day <= DaysIn(t.month, t.year)
    && 0 <= t.hour < 24 && 0 <= t.minute < 60 && 0 <= t.second < 60
    && 0 <= t.nanosecond < NanosPerSecond
  }

  /** The number the digits `s[i..i + n]` spell, if they are all digits. */
  function FixedDigits(s: string, i: nat, n: nat): (r: Option<nat>)
    requires i + n <= |s|
    ensures r.Some? <==> AllDigits(s[i..i + n])
    ensures r.Some? ==> r.value == DecimalValue(s[i..i + n])
  {
    if AllDigits(s[i..i + n]) then Some(DecimalValue(s[i..i + n])) else None
  }

  /** `getnum(v[i..], fixed)`: two digits, or, when `fixed` is unset, one digit not followed
      by another; the number and the position after it. */
  function GetNum(v: string, i: nat, fixed: bool): (r: Option<(nat, nat)>)
    requires i <= |v|
    ensures r.Some? ==> i < r.value.1 <= i + 2 && r.value.1 <= |v|
    ensures r.Some? ==> AllDigits(v[i..r.value.1]) && r.value.0 == DecimalValue(v[i..r.value.1])
    ensures r.Some? && fixed ==> r.value.1 == i + 2
  {
    if i < |v| && IsDigit(v[i]) then
      if i + 1 < |v| && IsDigit(v[i + 1]) then
        assert v[i..i + 2][0] == v[i] && v[i..i + 2][1] == v[i + 1];
        Some((DecimalValue(v[i..i + 2]), i + 2))
      else if fixed then None
      else
        assert v[i..i + 1][0] == v[i];
        Some((DecimalValue(v[i..i + 1]), i + 1))
    else None
  }

  /** `cutspace`: the value without its leading spaces; a space in the layout matches a run
      of them. */
  function CutSpace(u: string): (r: string)
    ensures |r| <= |u| && r == u[|u| - |r|..]
    ensures r == [] || r[0] != ' '
    ensures u != [] && u[0] == ' ' ==> |r| < |u|
  {
    if u != [] && u[0] == ' ' then CutSpace(u[1..]) else u
  }

  function Pow10(n: nat): (p: nat)
    ensures p >= 1
  {
    if n == 0 then 1 else 10 * Pow10(n - 1)
  }

  /** `parseNanoseconds`: the first nine digits of a fraction at most, scaled to nanoseconds. */
  function Nanos(digits: string): (ns: nat)
    requires AllDigits(digits)
    ensures ns < NanosPerSecond
  {
    var d := FirstNine(digits);
    NanosBelow(d);
    DecimalValue(d) * Pow10(9 - |d|)
  }

  /** `parseNanoseconds` reads at most nine digits. */
  function FirstNine(digits: string): (d: string)
    requires AllDigits(digits)
    ensures |d| <= 9 && AllDigits(d) && d <= digits
  {
    if |digits| > 9 then digits[..9] else digits
  }

  lemma NanosBelow(d: string)
    requires |d| <= 9 && AllDigits(d)
    ensures DecimalValue(d) * Pow10(9 - |d|) < NanosPerSecond
  {
    DecimalBelowPow10(d);
    ScaleBelow(DecimalValue(d), |d|);
  }

  lemma {:induction false} DecimalBelowPow10(ds: string)
    requires AllDigits(ds)
    ensures DecimalValue(ds) < Pow10(|ds|)
  {
    if ds != [] {
      var init := ds[..|ds| - 1];
      DecimalBelowPow10(init);
      var x, d := DecimalValue(init), DigitValue(ds[|ds| - 1]);
      assert x * 10 + d < Pow10(|init|) * 10 by {
        assert x + 1 <= Pow10(|init|);
        assert (x + 1) * 10 <= Pow10(|init|) * 10;
      }
    }
  }

  lemma {:induction false} ScaleBelow(x: nat, n: nat)
    requires n <= 9 && x < Pow10(n)
    ensures x * Pow10(9 - n) < NanosPerSecond
    decreases 9 - n
  {
    if n < 9 {
      assert x * 10 < Pow10(n + 1);
      ScaleBelow(x * 10, n + 1);
      assert Pow10(9 - n) == 10 * Pow10(9 - (n + 1));
      ShiftTen(x, Pow10(9 - (n + 1)));
    } else {
      assert Pow10(9) == NanosPerSecond;
    }
  }

  lemma ShiftTen(x: nat, p: nat)
    ensures x * (10 * p) == (x * 10) * p
  {
  }

  /** The fraction of a second Go's `Parse` takes after the seconds when the layout has none:
      a `.` or `,` and at least one digit; the nanoseconds and the position after it. */
  function Fraction(v: string, i: nat): (r: (nat, nat))
    requires i <= |v|
    ensures r.0 < NanosPerSecond && i <= r.1 <= |v|
  {
    if i + 2 <= |v| && (v[i] == '.' || v[i] == ',') && IsDigit(v[i + 1]) then
      var n := 1 + DigitsFrom(v, i + 1);
      (Nanos(v[i + 1..i + n]), i + n)
    else (0, i)
  }

  /** Length of the run of digits from `i` on. */
  function DigitsFrom(v: string, i: nat): (n: nat)
    requires i <= |v|
    ensures i + n <= |v| && AllDigits(v[i..i + n])
    ensures i + n < |v| ==> !IsDigit(v[i + n])
    decreases |v| - i
  {
    if i < |v| && IsDigit(v[i]) then
      var n := 1 + DigitsFrom(v, i + 1);
      assert v[i..i + n] == [v[i]] + v[i + 1..i + n];
      n
    else 0
  }

  /** The clock after the spaces: an hour of one or two digits, then the minutes, seconds and
      fraction up to the end of the value; the hour, minute, second and nanosecond. */
  function Clock(u: string): (r: Option<(nat, nat, nat, nat)>)
    ensures r.Some? ==> |u| >= 7 && r.value.3 < NanosPerSecond
  {
    match GetNum(u, 0, false)
    case None => None
    case Some((hr, i)) =>
      match ClockRest(u[i..])
      case None => None
      case Some((mi, sec, ns)) => Some((hr, mi, sec, ns))
  }

  /** `:`, two digits of minutes, `:`, two digits of seconds and an optional fraction, and
      nothing after them. */
  function ClockRest(x: string): (r: Option<(nat, nat, nat)>)
    ensures r.Some? ==> |x| >= 6 && r.value.2 < NanosPerSecond
  {
    if |x| < 6 || x[0] != ':' || x[3] != ':' then None
    else
      match (GetNum(x, 1, true), GetNum(x, 4, true))
      case (Some((mi, _)), Some((sec, _))) =>
        var fr := Fraction(x, 6);
        if fr.1 == |x| then Some((mi, sec, fr.0)) else None
      case (_, _) => None
  }

  /** `time.Parse("2006-01-02 15:04:05", v)`: `None` is the error case. The year, month, day,
      minute and second take exactly their digits, the hour one or two, the space a run of
      spaces; a fraction may follow the seconds, and nothing else may. */
  function ParseLayout(v: string): (r: Option<DateTime>)
    ensures r.Some? ==> ValidDateTime(r.value)
    ensures r.Some? ==>
      && |v| >= 18 && v[4] == '-' && v[7] == '-' && v[10] == ' '
      && AllDigits(v[0..4]) && AllDigits(v[5..7]) && AllDigits(v[8..10])
      && r.value.year == DecimalValue(v[0..4]) && r.value.month == DecimalValue(v[5..7])
      && r.value.day == DecimalValue(v[8..10])
  {
    if |v| < 11 then None
    else
      var c := Clock(CutSpace(v[10..]));
      var r := DateWith(v[..11], c);
      if r.None? then None
      else
        DateSlices(v);
        ClockNeedsLength(v);
        r
  }

  lemma DateSlices(v: string)
    requires |v| >= 11
    ensures v[..11][0..4] == v[0..4] && v[..11][5..7] == v[5..7] && v[..11][8..10] == v[8..10]
    ensures v[..11][4] == v[4] && v[..11][7] == v[7] && v[..11][10] == v[10]
  {
  }

  /** After the space a clock takes at least seven characters. */
  lemma ClockNeedsLength(v: string)
    requires |v| >= 11 && v[10] == ' ' && Clock(CutSpace(v[10..])).Some?
    ensures |v| >= 18
  {
    assert v[10..][0] == v[10];
  }

  /** The date `YYYY-MM-DD ` followed by the clock read after the spaces. */
  function DateWith(date: string, c: Option<(nat, nat, nat, nat)>): (r: Option<DateTime>)
    requires |date| == 11
    ensures r.Some? ==> ValidDateTime(r.value) && c.Some?
    ensures r.Some? ==>
      && date[4] == '-' && date[7] == '-' && date[10] == ' '
      && AllDigits(date[0..4]) && AllDigits(date[5..7]) && AllDigits(date[8..10])
      && r.value.year == DecimalValue(date[0..4]) && r.value.month == DecimalValue(date[5..7])
      && r.value.day == DecimalValue(date[8..10])
  {
    if date[4] != '-' || date[7] != '-' || date[10] != ' ' then None
    else
      var y, mo, d := FixedDigits(date, 0, 4), GetNum(date, 5, true), GetNum(date, 8, true);
      if y.None? || mo.None? || d.None? then None
      else WithClock(y.value, mo.value.0, d.value.0, c)
  }

  /** The date with the clock read, when both are there and valid together. */
  function WithClock(y: nat, mo: nat, d: nat, c: Option<(nat, nat, nat, nat)>): (r: Option<DateTime>)
    ensures r.Some? ==> ValidDateTime(r.value) && r.value.year == y && r.value.month == mo && r.value.day == d
  {
    match c
    case None => None
    case Some((hr, mi, sec, ns)) =>
      var t := DateTime(y, mo, d, hr, mi, sec, ns);
      if ValidDateTime(t) then Some(t) else None
  }

  /** A value whose date part is well formed parses as its date with its clock. */
  lemma DateFields(v: string)
    requires |v| >= 11 && v[4] == '-' && v[7] == '-' && v[10] == ' '
    requires AllDigits(v[0..4]) && AllDigits(v[5..7]) && AllDigits(v[8..10])
    ensures ParseLayout(v) ==
      WithClock(DecimalValue(v[0..4]), DecimalValue(v[5..7]), DecimalValue(v[8..10]), Clock(CutSpace(v[10..])))
  {
    DateSlices(v);
    assert ParseLayout(v) == DateWith(v[..11], Clock(CutSpace(v[10..])));
    DateWithFields(v[..11], Clock(CutSpace(v[10..])));
  }

  lemma DateWithFields(date: string, c: Option<(nat, nat, nat, nat)>)
    requires |date| == 11 && date[4] == '-' && date[7] == '-' && date[10] == ' '
    requires AllDigits(date[0..4]) && AllDigits(date[5..7]) && AllDigits(date[8..10])
    ensures DateWith(date, c) ==
      WithClock(DecimalValue(date[0..4]), DecimalValue(date[5..7]), DecimalValue(date[8..10]), c)
  {
    TwoDigits(date, 5);
    TwoDigits(date, 8);
  }

  /** The canonical form: 19 characters with every field two or four digits wide. */
  predicate Canonical(v: string) {
    && |v| == 19 && v[4] == '-' && v[7] == '-' && v[10] == ' ' && v[13] == ':' && v[16] == ':'
    && AllDigits(v[0..4]) && AllDigits(v[5..7]) && AllDigits(v[8..10])
    && AllDigits(v[11..13]) && AllDigits(v[14..16]) && AllDigits(v[17..19])
  }

  /** The fields a canonical value spells. */
  function CanonicalFields(v: string): DateTime
    requires Canonical(v)
  {
    DateTime(DecimalValue(v[0..4]), DecimalValue(v[5..7]), DecimalValue(v[8..10]),
             DecimalValue(v[11..13]), DecimalValue(v[14..16]), DecimalValue(v[17..19]), 0)
  }

  /** A canonical value parses exactly when its fields are valid, to those fields. */
  lemma ParseCanonical(v: string)
    requires Canonical(v)
    ensures ParseLayout(v) == if ValidDateTime(CanonicalFields(v)) then Some(CanonicalFields(v)) else None
  {
    DateFields(v);
    assert CutSpace(v[10..]) == v[11..] by {
      assert v[10..][1..] == v[11..];
      assert v[11..13][0] == v[11];
    }
    ClockCanonical(v[11..], v);
  }

  lemma ClockCanonical(u: string, v: string)
    requires Canonical(v) && u == v[11..]
    ensures Clock(u) == Some((DecimalValue(v[11..13]), DecimalValue(v[14..16]), DecimalValue(v[17..19]), 0))
  {
    assert u[0..2] == v[11..13] && u[2..] == v[13..];
    TwoDigits(u, 0);
    ClockRestCanonical(v[13..], v);
  }

  lemma ClockRestCanonical(x: string, v: string)
    requires Canonical(v) && x == v[13..]
    ensures ClockRest(x) == Some((DecimalValue(v[14..16]), DecimalValue(v[17..19]), 0))
  {
    assert x[1..3] == v[14..16] && x[4..6] == v[17..19];
    TwoDigits(x, 1);
    TwoDigits(x, 4);
  }

  lemma TwoDigits(v: string, i: nat)
    requires i + 2 <= |v| && AllDigits(v[i..i + 2])
    ensures GetNum(v, i, true) == Some((DecimalValue(v[i..i + 2]), i + 2))
    ensures GetNum(v, i, false) == Some((DecimalValue(v[i..i + 2]), i + 2))
  {
    assert v[i..i + 2][0] == v[i] && v[i..i + 2][1] == v[i + 1];
  }

  /** A one-digit hour is read as that hour: "2024-01-02 3:04:05" is 03:04:05. */
  lemma ParseShortHour(v: string)
    requires Canonical(v) && v[11] == '0'
    ensures ParseLayout(v[..11] + v[12..]) == ParseLayout(v)
  {
    var w := v[..11] + v[12..];
    assert w[..11] == v[..11];
    assert CutSpace(v[10..]) == v[11..] by {
      assert v[10..][1..] == v[11..];
      assert v[11..13][0] == v[11];
    }
    assert CutSpace(w[10..]) == v[12..] by {
      assert w[10..][1..] == v[12..];
      assert v[11..13][1] == v[12];
    }
    assert v[11..][1..] == v[12..];
    assert v[11..][0..2] == v[11..13];
    LeadingZeroHour(v[11..]);
    SameDateSameClock(w, v);
  }

  /** A leading zero of a two-digit hour changes nothing. */
  lemma LeadingZeroHour(u: string)
    requires |u| >= 3 && u[0] == '0' && IsDigit(u[1]) && u[2] == ':'
    ensures Clock(u[1..]) == Clock(u)
  {
    TwoDigits(u, 0);
    assert u[1..][0..1] == [u[1]] && u[0..2] == ['0', u[1]];
    assert GetNum(u[1..], 0, false) == Some((DecimalValue([u[1]]), 1));
    assert DecimalValue(['0', u[1]]) == DecimalValue([u[1]]) by {
      assert ['0', u[1]][..1] == ['0'] && ['0'][..0] == [] && [u[1]][..0] == [];
    }
    assert u[1..][1..] == u[2..];
  }

  /** A space between date and time may be doubled. */
  lemma ParseExtraSpace(v: string)
    requires |v| > 10 && v[10] == ' '
    ensures ParseLayout(v[..10] + " " + v[10..]) == ParseLayout(v)
  {
    var w := v[..10] + " " + v[10..];
    assert w[..11] == v[..11];
    assert CutSpace(w[10..]) == CutSpace(v[10..]) by {
      assert w[10] == ' ' && w[10..][1..] == v[10..];
    }
    SameDateSameClock(w, v);
  }

  /** Parsing looks at the first eleven characters and at the clock after the spaces only. */
  lemma SameDateSameClock(v: string, w: string)
    requires |v| >= 11 && |w| >= 11 && v[..11] == w[..11]
    requires Clock(CutSpace(v[10..])) == Clock(CutSpace(w[10..]))
    ensures ParseLayout(v) == ParseLayout(w)
  {
  }

  /** A fraction after the seconds is read into nanoseconds, at most nine digits of it:
      "2024-01-02 03:04:05.5" is half a second past 03:04:05. */
  lemma ParseFraction(v: string, sep: char, digits: string)
    requires Canonical(v) && (sep == '.' || sep == ',') && digits != [] && AllDigits(digits)
    ensures ParseLayout(v + [sep] + digits) ==
      if ValidDateTime(CanonicalFields(v)) then Some(CanonicalFields(v).(nanosecond := Nanos(digits))) else None
  {
    var w := v + [sep] + digits;
    var h, mi, sec := DecimalValue(v[11..13]), DecimalValue(v[14..16]), DecimalValue(v[17..19]);
    assert ParseLayout(w) == DateWith(v[..11], Some((h, mi, sec, Nanos(digits)))) by {
      assert w[..11] == v[..11] && w[11..] == v[11..] + [sep] + digits;
      assert CutSpace(w[10..]) == w[11..] by {
        assert w[10..][1..] == w[11..];
        assert v[11..13][0] == v[11];
      }
      ClockFraction(w[11..], v, sep, digits);
    }
    assert ParseLayout(v) == DateWith(v[..11], Some((h, mi, sec, 0))) by {
      assert CutSpace(v[10..]) == v[11..] by {
        assert v[10..][1..] == v[11..];
        assert v[11..13][0] == v[11];
      }
      ClockCanonical(v[11..], v);
    }
    DateWithNanos(v[..11], h, mi, sec, Nanos(digits));
    ParseCanonical(v);
  }

  /** Whether a date and clock are valid does not depend on the fraction of a second. */
  lemma DateWithNanos(date: string, h: nat, mi: nat, sec: nat, ns: nat)
    requires |date| == 11 && ns < NanosPerSecond
    ensures DateWith(date, Some((h, mi, sec, ns))) ==
      match DateWith(date, Some((h, mi, sec, 0)))
      case Some(t) => Some(t.(nanosecond := ns))
      case None => None
  {
  }

  lemma ClockFraction(u: string, v: string, sep: char, digits: string)
    requires Canonical(v) && u == v[11..] + [sep] + digits
    requires (sep == '.' || sep == ',') && digits != [] && AllDigits(digits)
    ensures Clock(u) == Some((DecimalValue(v[11..13]), DecimalValue(v[14..16]), DecimalValue(v[17..19]), Nanos(digits)))
  {
    assert u[0..2] == v[11..13];
    TwoDigits(u, 0);
    var x := u[2..];
    assert x == v[13..] + [sep] + digits;
    assert x[1..3] == v[14..16] && x[4..6] == v[17..19];
    TwoDigits(x, 1);
    TwoDigits(x, 4);
    FractionOf(x, sep, digits);
  }

  lemma FractionOf(x: string, sep: char, digits: string)
    requires |x| == 6 + 1 + |digits| && x[6..] == [sep] + digits
    requires (sep == '.' || sep == ',') && digits != [] && AllDigits(digits)
    ensures Fraction(x, 6) == (Nanos(digits), |x|)
  {
    assert x[6] == sep && x[7] == digits[0];
    forall k | 7 <= k < |x| ensures IsDigit(x[k]) {
      assert x[6..][k - 6] == digits[k - 7];
    }
    DigitsFromAll(x, 7);
    assert x[7..|x|] == digits;
  }

  lemma {:induction false} DigitsFromAll(v: string, i: nat)
    requires i <= |v| && forall k :: i <= k < |v| ==> IsDigit(v[k])
    ensures DigitsFrom(v, i) == |v| - i
    decreases |v| - i
  {
    if i < |v| {
      DigitsFromAll(v, i + 1);
    }
  }
}

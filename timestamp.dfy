/** The timestamps the synchroniser stores in its indexes: Go's layout
    "2006-01-02 15:04:05" as read by time.ParseInLocation and written by
    time.Time.Format. A timestamp is a calendar tuple; an unparsable string
    reads as Go's zero time, 0001-01-01 00:00:00. */
module Timestamp {
  import opened Wrappers
  import opened GoStrings

  datatype Instant = Instant(year: nat, month: nat, day: nat, hour: nat, minute: nat, second: nat)

  /** time.Time{}: what a failed parse leaves behind. */
  const Zero := Instant(1, 1, 1, 0, 0, 0)

  predicate Leap(y: nat) {
    y % 4 == 0 && (y % 100 != 0 || y % 400 == 0)
  }

  function YearLength(y: nat): nat {
    if Leap(y) then 366 else 365
  }

  function DaysIn(m: nat, y: nat): nat
    requires 1 <= m <= 12
  {
    if m == 2 then (if Leap(y) then 29 else 28)
    else if m == 4 || m == 6 || m == 9 || m == 11 then 30
    else 31
  }

  /** A calendar instant the parser accepts: month, day, hour, minute and
      second all in range, the day within its month. */
  predicate Valid(t: Instant) {
    1 <= t.month <= 12 && 1 <= t.day <= DaysIn(t.month, t.year) &&
    t.hour < 24 && t.minute < 60 && t.second < 60
  }

  // ---------------------------------------------------------------------
  // Parsing, one layout element at a time. Each step returns what it read
  // and the rest of the input.

  /** A fixed-width run of `w` digits ("2006", "01", "02", "04", "05"). */
  function Fixed(s: string, w: nat): Option<(nat, string)> {
    if |s| >= w && AllDigits(s[..w]) then Some((DigitsValue(s[..w]), s[w..])) else None
  }

  /** A literal byte of the layout. */
  function Literal(s: string, c: char): Option<string> {
    if s != [] && s[0] == c then Some(s[1..]) else None
  }

  function DropSpaces(s: string): (r: string)
    ensures |r| <= |s| && (r == [] || r[0] != ' ')
  {
    if s != [] && s[0] == ' ' then DropSpaces(s[1..]) else s
  }

  /** The layout's blank: a run of spaces (the value must not start with
      anything else). */
  function Blank(s: string): Option<string> {
    if s != [] && s[0] != ' ' then None else Some(DropSpaces(s))
  }

  /** The hour ("15"): one digit, or two when a second digit follows. */
  function Hour(s: string): Option<(nat, string)> {
    if s == [] || !IsDigit(s[0]) then None
    else if |s| >= 2 && IsDigit(s[1]) then Some((DigitValue(s[0]) * 10 + DigitValue(s[1]), s[2..]))
    else Some((DigitValue(s[0]), s[1..]))
  }

  function DropDigits(s: string): string {
    if s != [] && IsDigit(s[0]) then DropDigits(s[1..]) else s
  }

  /** A fractional second after the seconds, ".123" or ",123", is accepted and
      ignored. */
  function DropFraction(s: string): string {
    if |s| >= 2 && (s[0] == '.' || s[0] == ',') && IsDigit(s[1]) then DropDigits(s[1..]) else s
  }

  /** "2006-01-02": year, month and day, and what follows. */
  function ParseDate(s: string): Option<(nat, nat, nat, string)> {
    var y :- Fixed(s, 4);
    var s1 :- Literal(y.1, '-');
    var mo :- Fixed(s1, 2);
    var s2 :- Literal(mo.1, '-');
    var d :- Fixed(s2, 2);
    Some((y.0, mo.0, d.0, d.1))
  }

  /** "15:04:05": hour, minute and second, and what follows. */
  function ParseClock(s: string): Option<(nat, nat, nat, string)> {
    var h :- Hour(s);
    var s1 :- Literal(h.1, ':');
    var mi :- Fixed(s1, 2);
    var s2 :- Literal(mi.1, ':');
    var se :- Fixed(s2, 2);
    Some((h.0, mi.0, se.0, se.1))
  }

  /** time.ParseInLocation("2006-01-02 15:04:05", s, loc): the calendar
      fields, or None when the text does not fit the layout, has text left
      over, or a field is out of range. */
  function Parse(s: string): (r: Option<Instant>)
    ensures r.Some? ==> Valid(r.value)
  {
    var d :- ParseDate(s);
    var s1 :- Blank(d.3);
    var c :- ParseClock(s1);
    var t := Instant(d.0, d.1, d.2, c.0, c.1, c.2);
    if DropFraction(c.3) == [] && Valid(t) then Some(t) else None
  }

  /** The instant the source compares: the parse, or the zero time when the
      parse failed (the error is discarded). */
  function TimeOf(s: string): (t: Instant)
    ensures Valid(t)
    ensures Parse(s).None? ==> t == Zero
  {
    Parse(s).GetOr(Zero)
  }

  // ---------------------------------------------------------------------
  // Seconds on a proleptic Gregorian time line. Time.Unix() differs from
  // Seconds by a constant (the epoch and the zone offset), so comparing
  // Seconds compares Unix().

  /** Days in the years 0 .. y-1. */
  function YearDays(y: nat): nat {
    if y == 0 then 0 else YearDays(y - 1) + YearLength(y - 1)
  }

  /** Days in the months before month `m` of year `y`. */
  function MonthDays(m: nat, y: nat): nat
    requires 1 <= m <= 12
  {
    var before := [0, 31, 59, 90, 120, 151, 181, 212, 243, 273, 304, 334][m - 1];
    if m > 2 && Leap(y) then before + 1 else before
  }

  function DayNumber(t: Instant): int
    requires Valid(t)
  {
    YearDays(t.year) + MonthDays(t.month, t.year) + t.day - 1
  }

  function Seconds(t: Instant): int
    requires Valid(t)
  {
    DayNumber(t) * 86400 + t.hour * 3600 + t.minute * 60 + t.second
  }

  /** Field-by-field order, year first. */
  predicate After(a: Instant, b: Instant) {
    a.year > b.year ||
    (a.year == b.year && (a.month > b.month ||
    (a.month == b.month && (a.day > b.day ||
    (a.day == b.day && (a.hour > b.hour ||
    (a.hour == b.hour && (a.minute > b.minute ||
    (a.minute == b.minute && a.second > b.second)))))))))
  }

  lemma MonthDaysBound(m: nat, y: nat)
    requires 1 <= m <= 12
    ensures MonthDays(m, y) + DaysIn(m, y) <= YearLength(y)
    ensures m < 12 ==> MonthDays(m, y) + DaysIn(m, y) == MonthDays(m + 1, y)
  {
  }

  lemma {:induction false} MonthDaysMonotone(m1: nat, m2: nat, y: nat)
    requires 1 <= m1 < m2 <= 12
    ensures MonthDays(m1, y) + DaysIn(m1, y) <= MonthDays(m2, y)
    decreases m2 - m1
  {
    MonthDaysBound(m1, y);
    if m1 + 1 < m2 {
      MonthDaysMonotone(m1 + 1, m2, y);
      MonthDaysBound(m1 + 1, y);
    }
  }

  lemma {:induction false} YearDaysMonotone(y1: nat, y2: nat)
    requires y1 < y2
    ensures YearDays(y1) + YearLength(y1) <= YearDays(y2)
    decreases y2 - y1
  {
    if y1 + 1 < y2 {
      YearDaysMonotone(y1 + 1, y2);
    }
  }

  /** A later calendar day has a larger day number. */
  lemma DayNumberOrder(a: Instant, b: Instant)
    requires Valid(a) && Valid(b)
    ensures a.year > b.year ==> DayNumber(a) > DayNumber(b)
    ensures a.year == b.year && a.month > b.month ==> DayNumber(a) > DayNumber(b)
  {
    MonthDaysBound(b.month, b.year);
    if a.year > b.year {
      YearDaysMonotone(b.year, a.year);
    } else if a.year == b.year && a.month > b.month {
      MonthDaysMonotone(b.month, a.month, a.year);
    }
  }

  /** Comparing seconds is comparing the calendar fields in order: the
      source's Unix() comparison agrees with reading the fields year first. */
  lemma SecondsOrder(a: Instant, b: Instant)
    requires Valid(a) && Valid(b)
    ensures Seconds(a) > Seconds(b) <==> After(a, b)
    ensures Seconds(a) == Seconds(b) <==> a == b
  {
    DayNumberOrder(a, b);
    DayNumberOrder(b, a);
  }

  // ---------------------------------------------------------------------
  // Formatting, as time.Time.Format writes the layout.

  function Pow10(w: nat): nat {
    if w == 0 then 1 else 10 * Pow10(w - 1)
  }

  /** `n` in exactly `w` decimal digits, zero-padded on the left. */
  function Pad(n: nat, w: nat): (r: string)
    ensures |r| == w && AllDigits(r)
  {
    if w == 0 then [] else Pad(n / 10, w - 1) + [DigitChar(n % 10)]
  }

  lemma {:induction false} PadValue(n: nat, w: nat)
    requires n < Pow10(w)
    ensures DigitsValue(Pad(n, w)) == n
  {
    if w > 0 {
      PadValue(n / 10, w - 1);
      var r := Pad(n, w);
      assert r[..|r| - 1] == Pad(n / 10, w - 1);
    }
  }

  function DateText(t: Instant): string
    requires t.year <= 9999
  {
    Pad(t.year, 4) + "-" + Pad(t.month, 2) + "-" + Pad(t.day, 2)
  }

  function ClockText(t: Instant): string {
    Pad(t.hour, 2) + ":" + Pad(t.minute, 2) + ":" + Pad(t.second, 2)
  }

  /** time.Time.Format("2006-01-02 15:04:05") for a four-digit year. */
  function Format(t: Instant): string
    requires t.year <= 9999
  {
    DateText(t) + " " + ClockText(t)
  }

  lemma FixedPrefix(p: string, rest: string, n: nat)
    requires AllDigits(p) && DigitsValue(p) == n
    ensures Fixed(p + rest, |p|) == Some((n, rest))
  {
    assert (p + rest)[..|p|] == p;
    assert (p + rest)[|p|..] == rest;
  }

  lemma TwoDigits(p: string)
    requires |p| == 2 && AllDigits(p)
    ensures DigitsValue(p) == DigitValue(p[0]) * 10 + DigitValue(p[1])
  {
    assert p[..1][..0] == [] && p[..1][0] == p[0];
    assert DigitsValue(p[..1]) == DigitValue(p[0]);
  }

  lemma ParseDateText(t: Instant, rest: string)
    requires Valid(t) && t.year <= 9999
    ensures ParseDate(DateText(t) + rest) == Some((t.year, t.month, t.day, rest))
  {
    var py, pm, pd := Pad(t.year, 4), Pad(t.month, 2), Pad(t.day, 2);
    PadValue(t.year, 4);
    PadValue(t.month, 2);
    PadValue(t.day, 2);
    var r1 := pd + rest;
    var rm := pm + ("-" + r1);
    DateTextParts(t, rest);
    FixedPrefix(py, "-" + rm, t.year);
    LiteralOf('-', rm);
    FixedPrefix(pm, "-" + r1, t.month);
    LiteralOf('-', r1);
    FixedPrefix(pd, rest, t.day);
  }

  lemma DateTextParts(t: Instant, rest: string)
    requires t.year <= 9999
    ensures DateText(t) + rest == Pad(t.year, 4) + ("-" + (Pad(t.month, 2) + ("-" + (Pad(t.day, 2) + rest))))
  {
  }

  lemma LiteralOf(c: char, r: string)
    ensures Literal([c] + r, c) == Some(r)
  {
    assert ([c] + r)[1..] == r;
  }

  lemma ParseClockText(t: Instant)
    requires Valid(t)
    ensures ParseClock(ClockText(t)) == Some((t.hour, t.minute, t.second, []))
  {
    var ph, pi, ps := Pad(t.hour, 2), Pad(t.minute, 2), Pad(t.second, 2);
    PadValue(t.hour, 2);
    PadValue(t.minute, 2);
    PadValue(t.second, 2);
    var r6 := ":" + ps;
    var r5 := pi + r6;
    var r4 := ":" + r5;
    assert ClockText(t) == ph + r4;
    TwoDigits(ph);
    assert (ph + r4)[2..] == r4;
    assert Hour(ph + r4) == Some((t.hour, r4));
    assert Literal(r4, ':') == Some(r5);
    FixedPrefix(pi, r6, t.minute);
    assert Literal(r6, ':') == Some(ps);
    FixedPrefix(ps, [], t.second);
    assert ps + [] == ps;
  }

  /** What Format writes, Parse reads back. */
  lemma ParseFormat(t: Instant)
    requires Valid(t) && t.year <= 9999
    ensures Parse(Format(t)) == Some(t)
  {
    var c := ClockText(t);
    ParseDateText(t, " " + c);
    assert Format(t) == DateText(t) + (" " + c);
    assert c[0] == Pad(t.hour, 2)[0] && IsDigit(c[0]);
    assert DropSpaces(c) == c;
    assert (" " + c)[1..] == c;
    assert Blank(" " + c) == Some(c);
    ParseClockText(t);
  }
}

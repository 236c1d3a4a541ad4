/** UTC calendar arithmetic: libcompat/timegm.c. */
module Timegm {
  import opened Basics

  /** struct tm: years from 1900, months from 0, days from 1. */
  datatype Tm = Tm(year: int, mon: int, mday: int, hour: int, min: int, sec: int)

  // ----- the calendar, year by year

  predicate Leap(y: int) {
    y % 4 == 0 && (y % 100 != 0 || y % 400 == 0)
  }

  function YearLength(y: int): int {
    if Leap(y) then 366 else 365
  }

  /** Days from the start of 1970 to the start of year y. */
  function DaysTo(y: int): int
    decreases if y >= 1970 then y - 1970 else 1970 - y
  {
    if y == 1970 then 0
    else if y > 1970 then DaysTo(y - 1) + YearLength(y - 1)
    else DaysTo(y + 1) - YearLength(y)
  }

  function MonthLength(leap: bool, m: nat): (n: int)
    requires m < 12
    ensures 28 <= n <= 31
  {
    if m == 1 then if leap then 29 else 28
    else if m in {3, 5, 8, 10} then 30 else 31
  }

  /** Days from the start of a year to the start of month m. */
  function DaysToMonth(leap: bool, m: nat): (n: nat)
    requires m <= 12
  {
    if m == 0 then 0 else DaysToMonth(leap, m - 1) + MonthLength(leap, m - 1)
  }

  lemma FirstMonth(leap: bool)
    ensures DaysToMonth(leap, 0) == 0
  {}

  lemma MonthEnds(leap: bool, m: nat)
    requires m < 12
    ensures DaysToMonth(leap, m + 1) == DaysToMonth(leap, m) + MonthLength(leap, m)
  {}

  const MONTH_STARTS := [0, 31, 59, 90, 120, 151, 181, 212, 243, 273, 304, 334, 365]

  lemma {:induction false} MonthStarts(leap: bool, m: nat)
    requires m <= 12
    ensures DaysToMonth(leap, m) == MONTH_STARTS[m] + if leap && m >= 2 then 1 else 0
  {
    if m > 0 { MonthStarts(leap, m - 1); }
  }

  /** A date and time of the calendar, from 1900 on; `sec` may be 60. */
  predicate Valid(t: Tm) {
    && t.year >= 0 && 0 <= t.mon <= 11 && 1 <= t.mday <= MonthLength(Leap(t.year + 1900), t.mon)
    && 0 <= t.hour <= 23 && 0 <= t.min <= 59 && 0 <= t.sec <= 60
  }

  /** Which dates these are: a month has the days between its start and the next one's, and February one more in years
      that 4 divides, but of those that 100 divides only in every fourth. */
  lemma ValidDates(t: Tm)
    ensures Valid(t) <==>
      && t.year >= 0 && 0 <= t.mon < 12
      && 1 <= t.mday <= MONTH_STARTS[t.mon + 1] - MONTH_STARTS[t.mon] +
           (if t.mon == 1 && t.year % 4 == 0 && (t.year % 100 != 0 || t.year % 400 == 100) then 1 else 0)
      && 0 <= t.hour < 24 && 0 <= t.min < 60 && 0 <= t.sec <= 60
  {
    var y := t.year + 1900;
    assert (y % 4 == 0 <==> t.year % 4 == 0) && (y % 100 == 0 <==> t.year % 100 == 0) && (y % 400 == 0 <==> t.year % 400 == 100);
  }

  function DayNumber(t: Tm): int
    requires Valid(t)
  {
    DaysTo(t.year + 1900) + DaysToMonth(Leap(t.year + 1900), t.mon) + t.mday - 1
  }

  function Clock(t: Tm): int {
    (t.hour * 60 + t.min) * 60 + t.sec
  }

  function Seconds(t: Tm): int
    requires Valid(t)
  {
    DayNumber(t) * 86400 + Clock(t)
  }

  // ----- the closed form

  function CalcLeapYears(y: int): int {
    (y - 1) / 4 - (y - 1) / 100 + (y - 1) / 400
  }

  function ClosedForm(y: int): int {
    (y - 1970) * 365 + (CalcLeapYears(y) - CalcLeapYears(1970))
  }

  lemma OneYear(y: int)
    requires y >= 1
    ensures CalcLeapYears(y + 1) - CalcLeapYears(y) == if Leap(y) then 1 else 0
  {
    Quotients(y, 4);
    Quotients(y, 100);
    Quotients(y, 400);
    Multiples(y);
  }

  lemma Quotients(y: int, d: int)
    requires y >= 1 && d in {4, 100, 400}
    ensures y / d - (y - 1) / d == if y % d == 0 then 1 else 0
  {}

  lemma Multiples(y: int)
    ensures y % 400 == 0 ==> y % 100 == 0
    ensures y % 100 == 0 ==> y % 4 == 0
  {}

  /** The formula with leap-year quotients counts the days year by year. */
  lemma {:induction false} ClosedFormCounts(y: int)
    requires y >= 1900
    ensures ClosedForm(y) == DaysTo(y)
    decreases if y >= 1970 then y - 1970 else 1970 - y
  {
    if y > 1970 {
      ClosedFormCounts(y - 1);
      OneYear(y - 1);
    } else if y < 1970 {
      ClosedFormCounts(y + 1);
      OneYear(y);
    }
  }

  predicate IsLeap(year: int) {
    var y := year + 1900;
    y % 4 == 0 && (y % 100 != 0 || y % 400 == 0)
  }

  const NDAYS: seq<seq<int>> := [
    [31, 28, 31, 30, 31, 30, 31, 31, 30, 31, 30, 31],
    [31, 29, 31, 30, 31, 30, 31, 31, 30, 31, 30, 31]]

  lemma TableIsCalendar(leap: bool, m: nat)
    requires m < 12
    ensures NDAYS[if leap then 1 else 0][m] == MonthLength(leap, m)
  {}

  /** timegm: the seconds since 1970, counted by the calendar; -1 for what is not a date. */
  method Timegm(tm: Option<Tm>) returns (res: int)
    ensures res == if tm.Some? && Valid(tm.value) then Seconds(tm.value) else -1
  {
    hide DaysTo, DaysToMonth, MonthLength;
    if tm.None? { return -1; }
    var t := tm.value;
    if t.year < 0 { return -1; }
    var leap := if IsLeap(t.year) then 1 else 0;
    if t.mon < 0 || t.mon > 11 { return -1; }
    TableIsCalendar(leap == 1, t.mon);
    if t.mday < 1 || t.mday > NDAYS[leap][t.mon] { return -1; }
    if t.min < 0 || t.min > 59 || t.sec < 0 || t.sec > 60 || t.hour < 0 || t.hour > 23 { return -1; }
    res := (t.year - 70) * 365 + (CalcLeapYears(t.year + 1900) - CalcLeapYears(1970));
    ClosedFormCounts(t.year + 1900);
    FirstMonth(leap == 1);
    ghost var days := res;
    var i := 0;
    while i < t.mon
      invariant 0 <= i <= t.mon && res == days + DaysToMonth(leap == 1, i)
    {
      TableIsCalendar(leap == 1, i);
      MonthEnds(leap == 1, i);
      res := res + NDAYS[leap][i];
      i := i + 1;
    }
    res := res + t.mday - 1;
    res := res * 24;
    res := res + t.hour;
    res := res * 60;
    res := res + t.min;
    res := res * 60;
    res := res + t.sec;
  }

  /** The calendar repeats every 400 years, which have 146097 days. */
  lemma FourCenturies(y: int)
    requires y >= 1900
    ensures DaysTo(y + 400) == DaysTo(y) + 146097
  {
    ClosedFormCounts(y);
    ClosedFormCounts(y + 400);
    LeapYearsOf(y);
    hide DaysTo, CalcLeapYears;
  }

  lemma LeapYearsOf(y: int)
    ensures CalcLeapYears(y + 400) == CalcLeapYears(y) + 97
  {
    Later(y - 1);
  }

  lemma Later(x: int)
    ensures (x + 400) / 4 == x / 4 + 100 && (x + 400) / 100 == x / 100 + 4 && (x + 400) / 400 == x / 400 + 1
  {}

  // ----- later dates have more seconds

  predicate Earlier(a: Tm, b: Tm) {
    if a.year != b.year then a.year < b.year
    else if a.mon != b.mon then a.mon < b.mon
    else if a.mday != b.mday then a.mday < b.mday
    else if a.hour != b.hour then a.hour < b.hour
    else if a.min != b.min then a.min < b.min
    else a.sec < b.sec
  }

  lemma {:induction false} YearsGrow(y: int, z: int)
    requires y < z
    ensures DaysTo(y) + YearLength(y) <= DaysTo(z)
    decreases z - y
  {
    if y + 1 < z { YearsGrow(y + 1, z); }
  }

  lemma DaysStep(y: int)
    ensures DaysTo(y + 1) == DaysTo(y) + YearLength(y)
  {}

  lemma {:induction false} MonthsGrow(leap: bool, m: nat, n: nat)
    requires m < n <= 12
    ensures DaysToMonth(leap, m) + MonthLength(leap, m) <= DaysToMonth(leap, n)
    decreases n - m
  {
    if m + 1 < n { MonthsGrow(leap, m + 1, n); }
  }

  lemma MonthsMakeAYear(y: int)
    ensures DaysToMonth(Leap(y), 12) == YearLength(y)
  {
    var l := Leap(y);
    assert DaysToMonth(l, 1) == DaysToMonth(l, 0) + 31;
    assert DaysToMonth(l, 2) == 31 + MonthLength(l, 1);
    assert DaysToMonth(l, 4) == DaysToMonth(l, 2) + 61;
    assert DaysToMonth(l, 6) == DaysToMonth(l, 4) + 61;
    assert DaysToMonth(l, 8) == DaysToMonth(l, 6) + 62;
    assert DaysToMonth(l, 10) == DaysToMonth(l, 8) + 61;
    assert DaysToMonth(l, 12) == DaysToMonth(l, 10) + 61;
  }

  lemma DayOfYear(t: Tm)
    requires Valid(t)
    ensures DaysTo(t.year + 1900) <= DayNumber(t) < DaysTo(t.year + 1900) + YearLength(t.year + 1900)
  {
    var y := t.year + 1900;
    MonthsGrow(Leap(y), t.mon, 12);
    MonthsMakeAYear(y);
  }

  lemma DaysGrow(a: Tm, b: Tm)
    requires Valid(a) && Valid(b)
    requires a.year < b.year || (a.year == b.year && (a.mon < b.mon || (a.mon == b.mon && a.mday < b.mday)))
    ensures DayNumber(a) < DayNumber(b)
  {
    if a.year < b.year {
      YearsGrow(a.year + 1900, b.year + 1900);
      DayOfYear(a);
      DayOfYear(b);
    } else if a.mon < b.mon {
      MonthsGrow(Leap(a.year + 1900), a.mon, b.mon);
    }
  }

  /** From a date that is not a leap second on, timegm is strictly increasing. */
  lemma Increasing(a: Tm, b: Tm)
    requires Valid(a) && Valid(b) && a.sec <= 59 && Earlier(a, b)
    ensures Seconds(a) < Seconds(b)
  {
    if a.(hour := 0, min := 0, sec := 0) != b.(hour := 0, min := 0, sec := 0) { DaysGrow(a, b); }
  }

  lemma Injective(a: Tm, b: Tm)
    requires Valid(a) && Valid(b) && a.sec <= 59 && b.sec <= 59 && Seconds(a) == Seconds(b)
    ensures a == b
  {
    if Earlier(a, b) { Increasing(a, b); } else if Earlier(b, a) { Increasing(b, a); }
  }

  function NextDay(a: Tm): Tm
    requires Valid(a)
  {
    if a.mday < MonthLength(Leap(a.year + 1900), a.mon) then Tm(a.year, a.mon, a.mday + 1, 0, 0, 0)
    else if a.mon < 11 then Tm(a.year, a.mon + 1, 1, 0, 0, 0)
    else Tm(a.year + 1, 0, 1, 0, 0, 0)
  }

  lemma DayFollows(a: Tm)
    requires Valid(a)
    ensures var b := NextDay(a); Valid(b) && Clock(b) == 0 && Earlier(a, b) && DayNumber(b) == DayNumber(a) + 1
  {
    hide Leap, DaysTo, DaysToMonth, YearLength;
    var y := a.year + 1900;
    MonthEnds(Leap(y), a.mon);
    if a.mon == 11 {
      MonthsMakeAYear(y);
      DaysStep(y);
      FirstMonth(Leap(y + 1));
    }
  }

  /** The start of the next minute, in whatever hour, day, month or year that is. */
  function NextMinute(a: Tm): (b: Tm)
    requires Valid(a)
  {
    if a.min < 59 then a.(min := a.min + 1, sec := 0)
    else if a.hour < 23 then a.(hour := a.hour + 1, min := 0, sec := 0)
    else NextDay(a)
  }

  lemma MinuteFollows(a: Tm)
    requires Valid(a)
    ensures var b := NextMinute(a); Valid(b) && b.sec == 0 && Earlier(a, b) && Seconds(b) == Seconds(a.(sec := 0)) + 60
  {
    hide Leap, MonthLength, DaysTo, DaysToMonth, NextDay, DayNumber;
    var b := NextMinute(a);
    DayFollows(a);
    SameDay(a, a.(sec := 0));
    if a.min < 59 || a.hour < 23 { SameDay(a, b); }
  }

  lemma SameDay(a: Tm, b: Tm)
    requires Valid(a) && a.year == b.year && a.mon == b.mon && a.mday == b.mday
    requires 0 <= b.hour <= 23 && 0 <= b.min <= 59 && 0 <= b.sec <= 60
    ensures Valid(b) && DayNumber(a) == DayNumber(b)
  {
    hide Leap, MonthLength, DaysTo, DaysToMonth;
  }

  /** A leap second falls on the start of the next minute. */
  lemma LeapSecondCollides(a: Tm)
    requires Valid(a) && a.sec == 60
    ensures Valid(NextMinute(a)) && Earlier(a, NextMinute(a)) && Seconds(a) == Seconds(NextMinute(a))
  {
    hide NextMinute, Leap, MonthLength, DaysTo, DaysToMonth, DayNumber;
    MinuteFollows(a);
    SameDay(a, a.(sec := 0));
  }

  /** A later date never has fewer seconds, and it has the same number only at the start of the minute behind a leap
      second. */
  lemma Ordered(a: Tm, b: Tm)
    requires Valid(a) && Valid(b) && Earlier(a, b)
    ensures Seconds(a) <= Seconds(b)
    ensures Seconds(a) == Seconds(b) <==> a.sec == 60 && b == NextMinute(a)
  {
    hide Leap, MonthLength, DaysTo, DaysToMonth, DayNumber, NextMinute;
    if a.sec <= 59 {
      Increasing(a, b);
    } else {
      SameDay(a, a.(sec := 59));
      SameDay(b, b.(sec := 0));
      LeapSecondCollides(a);
      MinuteFollows(a);
      Increasing(a.(sec := 59), b.(sec := 0));
      if Seconds(a) == Seconds(b) { Injective(b.(sec := 0), NextMinute(a)); }
    }
  }

  /** timegm is strictly increasing from a date on if and only if the date is not a leap second. */
  lemma StrictExactly(a: Tm)
    requires Valid(a)
    ensures a.sec <= 59 <==> forall b :: Valid(b) && Earlier(a, b) ==> Seconds(a) < Seconds(b)
  {
    forall b | Valid(b) && Earlier(a, b)
      ensures a.sec <= 59 ==> Seconds(a) < Seconds(b)
    {
      Ordered(a, b);
    }
    if a.sec == 60 { LeapSecondCollides(a); }
  }

  // ----- the inverse

  /** The year that day number `day` falls into, from year y on, and the day in it. */
  function YearOf(y: int, day: nat): (r: (int, nat))
    ensures r.0 >= y && DaysTo(r.0) + r.1 == DaysTo(y) + day && r.1 < YearLength(r.0)
    decreases day
  {
    DaysStep(y);
    if day < YearLength(y) then (y, day) else YearOf(y + 1, day - YearLength(y))
  }

  /** The month a day of a year falls into, from month m on, and the day in it. */
  function MonthOf(leap: bool, m: nat, day: nat): (r: (nat, nat))
    requires m < 12 && DaysToMonth(leap, m) + day < DaysToMonth(leap, 12)
    ensures r.0 < 12 && DaysToMonth(leap, r.0) + r.1 == DaysToMonth(leap, m) + day && r.1 < MonthLength(leap, r.0)
    decreases 12 - m
  {
    if day < MonthLength(leap, m) then (m, day)
    else
      assert DaysToMonth(leap, m + 1) == DaysToMonth(leap, m) + MonthLength(leap, m);
      MonthOf(leap, m + 1, day - MonthLength(leap, m))
  }

  lemma ClockParts(s: nat)
    requires s < 86400
    ensures s / 3600 <= 23 && (s / 3600 * 60 + s / 60 % 60) * 60 + s % 60 == s
  {}

  /** gmtime from 1970 on. */
  function GmTime(now: nat): (t: Tm)
    ensures Valid(t) && t.sec <= 59 && t.year >= 70 && Seconds(t) == now
  {
    var (y, d) := YearOf(1970, now / 86400);
    MonthsMakeAYear(y);
    var (m, k) := MonthOf(Leap(y), 0, d);
    var s := now % 86400;
    ClockParts(s);
    Tm(y - 1900, m, k + 1, s / 3600, s / 60 % 60, s % 60)
  }

  /** timegm and gmtime undo each other. */
  lemma GmTimeOfSeconds(t: Tm)
    requires Valid(t) && t.sec <= 59 && t.year >= 70
    ensures Seconds(t) >= 0 && GmTime(Seconds(t)) == t
  {
    if t.year > 70 { YearsGrow(1970, t.year + 1900); }
    Injective(GmTime(Seconds(t)), t);
  }
}

/** Log file names with a time stamp: `generate_log_name` and `parse_timestamp` of libService/Logger.cpp. */
module LogName {
  import opened Basics
  import opened Timegm

  const SUFFIX_LENGTH := |"_YYYYMMDD_HHMMSS.log"|

  function DigitChar(d: nat): char
    requires d < 10
  {
    ('0' as int + d) as char
  }

  predicate IsDigit(c: char) { '0' <= c <= '9' }

  /** Decimal digits, with leading zeros up to w of them, and more than w if the number needs them. */
  function Digits(n: nat, w: nat): (s: string)
    ensures |s| >= w && forall i :: 0 <= i < |s| ==> IsDigit(s[i])
    decreases n + w
  {
    if n == 0 && w == 0 then "" else Digits(n / 10, if w == 0 then 0 else w - 1) + [DigitChar(n % 10)]
  }

  lemma NoMoreDigits()
    ensures Digits(0, 0) == ""
  {}

  lemma TwoDigits(n: nat)
    requires n < 100
    ensures Digits(n, 2) == [DigitChar(n / 10), DigitChar(n % 10)]
  {
    NoMoreDigits();
    assert Digits(n / 10, 1) == Digits(0, 0) + [DigitChar(n / 10)];
  }

  lemma FourDigits(n: nat)
    requires n < 10000
    ensures Digits(n, 4) == [DigitChar(n / 1000), DigitChar(n / 100 % 10), DigitChar(n / 10 % 10), DigitChar(n % 10)]
  {
    TwoDigits(n / 100);
    assert n / 10 / 10 == n / 100 && n / 100 / 10 == n / 1000;
    assert Digits(n, 4) == Digits(n / 10, 3) + [DigitChar(n % 10)];
    assert Digits(n / 10, 3) == Digits(n / 100, 2) + [DigitChar(n / 10 % 10)];
  }

  lemma ManyDigits(n: nat)
    requires n >= 10000
    ensures |Digits(n, 4)| >= 5
  {
    assert Digits(n, 4) == Digits(n / 10, 3) + [DigitChar(n % 10)];
    assert Digits(n / 10, 3) == Digits(n / 10 / 10, 2) + [DigitChar(n / 10 % 10)];
    assert Digits(n / 10 / 10, 2) == Digits(n / 10 / 10 / 10, 1) + [DigitChar(n / 10 / 10 % 10)];
    assert Digits(n / 10 / 10 / 10, 1) == Digits(n / 10 / 10 / 10 / 10, 0) + [DigitChar(n / 10 / 10 / 10 % 10)];
    assert n / 10 / 10 / 10 / 10 > 0;
  }

  // ----- the name

  function Lower(c: char): char {
    if 'A' <= c <= 'Z' then (c as int + 32) as char else c
  }

  predicate SameIgnoringCase(a: string, b: string) {
    |a| == |b| && forall i :: 0 <= i < |a| ==> Lower(a[i]) == Lower(b[i])
  }

  /** A name of more than four characters loses a trailing ".log". */
  function Stem(basename: string): string {
    if |basename| > 4 && SameIgnoringCase(basename[|basename| - 4..], ".log") then basename[..|basename| - 4] else basename
  }

  function Stamp(t: Tm): string
    requires Valid(t)
  {
    "_" + Digits(t.year + 1900, 4) + Digits(t.mon + 1, 2) + Digits(t.mday, 2)
    + "_" + Digits(t.hour, 2) + Digits(t.min, 2) + Digits(t.sec, 2) + ".log"
  }

  /** ".log" in any mixture of cases. */
  predicate IsLogSuffix(e: string) {
    |e| == 4 && e[0] == '.' && e[1] in "lL" && e[2] in "oO" && e[3] in "gG"
  }

  /** What is kept of a base name: all of it, unless it is longer than such a suffix and ends in one. */
  function Kept(basename: string): (k: nat)
    ensures k <= |basename|
  {
    if |basename| > 4 && IsLogSuffix(basename[|basename| - 4..]) then |basename| - 4 else |basename|
  }

  lemma StemIsKept(basename: string)
    ensures Stem(basename) == basename[..Kept(basename)]
  {
    assert basename[..|basename|] == basename;
    if |basename| > 4 {
      var e, l := basename[|basename| - 4..], ".log";
      assert l[0] == '.' && l[1] == 'l' && l[2] == 'o' && l[3] == 'g';
      assert SameIgnoringCase(e, l) <==> IsLogSuffix(e);
    }
  }

  lemma StampEnds(t: Tm)
    requires Valid(t)
    ensures |Stamp(t)| >= 4 && Stamp(t)[|Stamp(t)| - 4..] == ".log"
    ensures t.year + 1900 < 10000 ==> |Stamp(t)| == 20
  {
    TwoDigits(t.mon + 1); TwoDigits(t.mday); TwoDigits(t.hour); TwoDigits(t.min); TwoDigits(t.sec);
    if t.year + 1900 < 10000 { FourDigits(t.year + 1900); }
    hide Digits;
  }

  // ----- reading it back

  /** A number of at most `width` digits at p, as sscanf reads it: its value and where it ends. */
  datatype Scanned = NoNumber | Number(value: nat, next: nat)

  function DigitsFrom(s: string, p: nat, width: nat, acc: nat): (nat, nat)
    decreases width
  {
    if width == 0 || p >= |s| || !IsDigit(s[p]) then (acc, p)
    else DigitsFrom(s, p + 1, width - 1, acc * 10 + (s[p] as int - '0' as int))
  }

  function ScanNumber(s: string, p: nat, width: nat): Scanned {
    if p < |s| && IsDigit(s[p]) then var (v, q) := DigitsFrom(s, p, width, 0); Number(v, q) else NoNumber
  }

  predicate Has(s: string, p: nat, c: char) {
    p < |s| && s[p] == c
  }

  /** The six numbers of a time stamp, if they are all there. */
  function ScanStamp(s: string): Option<seq<nat>> {
    if !Has(s, 0, '_') then None
    else match ScanNumber(s, 1, 4) case NoNumber => None case Number(year, p1) =>
    match ScanNumber(s, p1, 2) case NoNumber => None case Number(mon, p2) =>
    match ScanNumber(s, p2, 2) case NoNumber => None case Number(mday, p3) =>
    if !Has(s, p3, '_') then None
    else match ScanNumber(s, p3 + 1, 2) case NoNumber => None case Number(hour, p4) =>
    match ScanNumber(s, p4, 2) case NoNumber => None case Number(min, p5) =>
    match ScanNumber(s, p5, 2) case NoNumber => None case Number(sec, _) =>
    Some([year, mon, mday, hour, min, sec])
  }

  /** What parse_timestamp makes of the numbers. */
  function Instant(f: Option<seq<nat>>): int {
    if f.None? || |f.value| != 6 then -1
    else
      var v := f.value;
      if v[0] < 1900 || v[0] > 2099 || v[1] < 1 || v[1] > 12 || v[2] < 1 || v[2] > 31 then -1
      else
        var t := Tm(v[0] - 1900, v[1] - 1, v[2], v[3], v[4], v[5]);
        if Valid(t) then Seconds(t) else -1
  }

  function Parsed(name: string): int {
    if |name| < SUFFIX_LENGTH then -1 else Instant(ScanStamp(name[|name| - SUFFIX_LENGTH..]))
  }

  lemma TwoScanned(s: string, p: nat, n: nat)
    requires n < 100 && p + 2 <= |s| && s[p..p + 2] == Digits(n, 2)
    ensures ScanNumber(s, p, 2) == Number(n, p + 2)
  {}

  lemma DigitScanned(s: string, p: nat, width: nat, acc: nat, d: nat)
    requires width > 0 && d < 10 && p < |s| && s[p] == DigitChar(d)
    ensures DigitsFrom(s, p, width, acc) == DigitsFrom(s, p + 1, width - 1, acc * 10 + d)
  {}

  lemma Positional(n: nat)
    requires n < 10000
    ensures ((n / 1000 * 10 + n / 100 % 10) * 10 + n / 10 % 10) * 10 + n % 10 == n
  {
    assert n / 10 / 10 == n / 100 && n / 100 / 10 == n / 1000;
  }

  lemma FourScanned(s: string, p: nat, n: nat)
    requires n < 10000 && p + 4 <= |s| && s[p..p + 4] == Digits(n, 4)
    ensures ScanNumber(s, p, 4) == Number(n, p + 4)
  {
    FourDigits(n);
    var d := s[p..p + 4];
    assert s[p] == d[0] && s[p + 1] == d[1] && s[p + 2] == d[2] && s[p + 3] == d[3];
    var a, b, c, e := n / 1000, n / 100 % 10, n / 10 % 10, n % 10;
    DigitScanned(s, p, 4, 0, a);
    DigitScanned(s, p + 1, 3, a, b);
    DigitScanned(s, p + 2, 2, a * 10 + b, c);
    DigitScanned(s, p + 3, 1, (a * 10 + b) * 10 + c, e);
    Positional(n);
  }

  lemma StampParts(y: string, mo: string, d: string, h: string, mi: string, se: string, s: string)
    requires |y| == 4 && |mo| == |d| == |h| == |mi| == |se| == 2
    requires s == "_" + y + mo + d + "_" + h + mi + se + ".log"
    ensures |s| == SUFFIX_LENGTH && s[0] == '_' && s[9] == '_'
    ensures s[1..5] == y && s[5..7] == mo && s[7..9] == d && s[10..12] == h && s[12..14] == mi && s[14..16] == se
  {}

  lemma StampScanned(t: Tm)
    requires Valid(t) && t.year + 1900 < 10000
    ensures |Stamp(t)| == SUFFIX_LENGTH
    ensures ScanStamp(Stamp(t)) == Some([t.year + 1900, t.mon + 1, t.mday, t.hour, t.min, t.sec])
  {
    hide Digits, ScanNumber;
    var s := Stamp(t);
    var y, mo: nat, d: nat, h: nat, mi: nat, se: nat := t.year + 1900, t.mon + 1, t.mday, t.hour, t.min, t.sec;
    FourDigits(y); TwoDigits(mo); TwoDigits(d); TwoDigits(h); TwoDigits(mi); TwoDigits(se);
    StampParts(Digits(y, 4), Digits(mo, 2), Digits(d, 2), Digits(h, 2), Digits(mi, 2), Digits(se, 2), s);
    FourScanned(s, 1, y);
    TwoScanned(s, 5, mo);
    TwoScanned(s, 7, d);
    TwoScanned(s, 10, h);
    TwoScanned(s, 12, mi);
    TwoScanned(s, 14, se);
  }

  /** A place for every digit of a time stamp. What stands where ".log" does is not looked at. */
  predicate Shaped(s: string) {
    |s| == SUFFIX_LENGTH && s[0] == '_' && s[9] == '_' && forall i :: 1 <= i < 16 && i != 9 ==> IsDigit(s[i])
  }

  /** The number in two digits. */
  function Pair(s: string, p: nat): int
    requires p + 2 <= |s|
  {
    (s[p] as int - '0' as int) * 10 + (s[p + 1] as int - '0' as int)
  }

  /** The date that the digits spell. */
  function Spelled(s: string): Tm
    requires Shaped(s)
  {
    Tm(Pair(s, 1) * 100 + Pair(s, 3) - 1900, Pair(s, 5) - 1, Pair(s, 7), Pair(s, 10), Pair(s, 12), Pair(s, 14))
  }

  lemma PairScanned(s: string, p: nat, width: nat, acc: nat)
    requires width >= 2 && p + 2 <= |s| && IsDigit(s[p]) && IsDigit(s[p + 1])
    ensures Pair(s, p) >= 0 && DigitsFrom(s, p, width, acc) == DigitsFrom(s, p + 2, width - 2, acc * 100 + Pair(s, p))
  {}

  /** Every name with digits in their places gives the seconds of the date they spell, and -1 if there is no such date
      from 1900 to 2099. */
  lemma ShapedParsed(name: string)
    requires |name| >= SUFFIX_LENGTH && Shaped(name[|name| - SUFFIX_LENGTH..])
    ensures var t := Spelled(name[|name| - SUFFIX_LENGTH..]);
      Parsed(name) == if 0 <= t.year <= 199 && Valid(t) then Seconds(t) else -1
  {
    var s := name[|name| - SUFFIX_LENGTH..];
    PairScanned(s, 1, 4, 0); PairScanned(s, 3, 2, Pair(s, 1));
    PairScanned(s, 5, 2, 0); PairScanned(s, 7, 2, 0);
    PairScanned(s, 10, 2, 0); PairScanned(s, 12, 2, 0); PairScanned(s, 14, 2, 0);
    hide Pair, IsDigit, Seconds, MonthLength;
  }

  /** With a year of more than four digits, the last characters of the name start with a digit. */
  lemma LongYearNotScanned(stem: string, t: Tm)
    requires Valid(t) && t.year + 1900 >= 10000
    ensures Parsed(stem + Stamp(t)) == -1
  {
    hide Digits, ScanNumber;
    var y, mo: nat, d: nat, h: nat, mi: nat, se: nat := t.year + 1900, t.mon + 1, t.mday, t.hour, t.min, t.sec;
    ManyDigits(y);
    TwoDigits(mo); TwoDigits(d); TwoDigits(h); TwoDigits(mi); TwoDigits(se);
    var rest := Digits(mo, 2) + Digits(d, 2) + "_" + Digits(h, 2) + Digits(mi, 2) + Digits(se, 2) + ".log";
    var name, front := stem + Stamp(t), stem + "_";
    assert name == front + Digits(y, 4) + rest;
    assert |rest| == 15;
    DigitInside(front, Digits(y, 4), rest, name, |name| - SUFFIX_LENGTH);
    assert name[|name| - SUFFIX_LENGTH..][0] == name[|name| - SUFFIX_LENGTH];
  }

  lemma DigitInside(front: string, digits: string, rest: string, s: string, p: nat)
    requires s == front + digits + rest && |front| <= p < |front| + |digits|
    requires forall i :: 0 <= i < |digits| ==> IsDigit(digits[i])
    ensures IsDigit(s[p])
  {}

  /** The name generated for an instant gives the instant back, whatever the base name, exactly up to the year 2099. */
  lemma NameRoundTrip(basename: string, now: nat)
    ensures Parsed(Stem(basename) + Stamp(GmTime(now))) == now <==> GmTime(now).year + 1900 <= 2099
  {
    hide Stem, Stamp, ScanStamp, GmTime, Seconds;
    var t, stem := GmTime(now), Stem(basename);
    if t.year + 1900 >= 10000 {
      LongYearNotScanned(stem, t);
    } else {
      StampScanned(t);
      var name := stem + Stamp(t);
      assert name[|name| - SUFFIX_LENGTH..] == Stamp(t);
    }
  }

  /** The first instant of 2100. */
  const END_OF_RANGE: nat := 4102444800

  const FIRST_OF_2100 := Tm(200, 0, 1, 0, 0, 0)

  lemma RangeIsThirteenDecades()
    ensures Valid(FIRST_OF_2100) && Seconds(FIRST_OF_2100) == END_OF_RANGE
  {
    ClosedFormCounts(2100);
    assert CalcLeapYears(2100) == 509 && CalcLeapYears(1970) == 477;
    hide DaysTo, CalcLeapYears;
    assert DayNumber(FIRST_OF_2100) == 47482;
  }

  lemma RangeEnds(now: nat)
    ensures GmTime(now).year + 1900 <= 2099 <==> now < END_OF_RANGE
  {
    RangeIsThirteenDecades();
    var t, first := GmTime(now), FIRST_OF_2100;
    hide Seconds, GmTime, MonthLength;
    if Earlier(t, first) { Increasing(t, first); } else if Earlier(first, t) { Increasing(first, t); }
  }

  /** Whatever stands before it, a time stamp of the years from 1900 to 2099 is read back. */
  lemma StampRead(name: string, t: Tm)
    requires Valid(t) && t.year <= 199 && |name| >= SUFFIX_LENGTH && name[|name| - SUFFIX_LENGTH..] == Stamp(t)
    ensures Parsed(name) == Seconds(t)
  {
    hide Stamp, ScanStamp, Seconds;
    StampScanned(t);
  }

  /** An instant of the calendar's years from 1900 to 2099. */
  ghost predicate InRange(time: int) {
    exists t :: Valid(t) && t.year <= 199 && time == Seconds(t)
  }

  lemma ParsedIsInRange(name: string)
    ensures Parsed(name) == -1 || InRange(Parsed(name))
  {}

  // ----- the two functions

  /** The two characters at p are this number's digits. */
  predicate TwoAt(s: string, p: nat, n: nat) {
    p + 2 <= |s| && n < 100 && s[p] as int == '0' as int + n / 10 && s[p + 1] as int == '0' as int + n % 10
  }

  /** A time stamp spells year, month, day, hour, minute and second in this order, two digits each, four for the year. */
  lemma StampSpells(t: Tm)
    requires Valid(t) && t.year + 1900 < 10000
    ensures var s := Stamp(t);
      && |s| == 20 && s[0] == '_' && s[9] == '_' && s[16..] == ".log"
      && TwoAt(s, 1, (t.year + 1900) / 100) && TwoAt(s, 3, (t.year + 1900) % 100)
      && TwoAt(s, 5, t.mon + 1) && TwoAt(s, 7, t.mday)
      && TwoAt(s, 10, t.hour) && TwoAt(s, 12, t.min) && TwoAt(s, 14, t.sec)
  {
    var y, s := t.year + 1900, Stamp(t);
    FourDigits(y);
    TwoDigits(t.mon + 1); TwoDigits(t.mday); TwoDigits(t.hour); TwoDigits(t.min); TwoDigits(t.sec);
    hide Digits;
    StampParts(Digits(y, 4), Digits(t.mon + 1, 2), Digits(t.mday, 2), Digits(t.hour, 2), Digits(t.min, 2), Digits(t.sec, 2), s);
    assert s[16..] == ".log" by { StampEnds(t); }
    assert s[1..5][0] == s[1] && s[1..5][1] == s[2] && s[1..5][2] == s[3] && s[1..5][3] == s[4];
    assert s[5..7][0] == s[5] && s[5..7][1] == s[6] && s[7..9][0] == s[7] && s[7..9][1] == s[8];
    assert s[10..12][0] == s[10] && s[10..12][1] == s[11] && s[12..14][0] == s[12] && s[12..14][1] == s[13];
    assert s[14..16][0] == s[14] && s[14..16][1] == s[15];
    YearDigits(y);
  }

  lemma YearDigits(y: nat)
    requires y < 10000
    ensures y / 1000 == y / 100 / 10 && y / 10 % 10 == y % 100 / 10 && y % 10 == y % 100 % 10
  {}

  /** The name keeps the base name without a trailing ".log", ends in ".log", and gives the instant back exactly up to the
      end of 2099. */
  method GenerateLogName(basename: string, now: nat) returns (name: string)
    ensures name == Stem(basename) + Stamp(GmTime(now))
    ensures Parsed(name) == now <==> now < END_OF_RANGE
    ensures |name| >= Kept(basename) && name[..Kept(basename)] == basename[..Kept(basename)]
    ensures GmTime(now).year + 1900 < 10000 ==> |name| == Kept(basename) + 20
    ensures |name| >= 4 && name[|name| - 4..] == ".log"
  {
    hide Stamp, GmTime, Kept, Parsed;
    NameRoundTrip(basename, now);
    RangeEnds(now);
    StemIsKept(basename);
    StampEnds(GmTime(now));
    name := basename;
    var timestamp := Stamp(GmTime(now));
    if |name| > 4 && SameIgnoringCase(name[|name| - 4..], ".log") {
      name := name[..|name| - 4];
    }
    LastFour(name, timestamp);
    name := name + timestamp;
  }

  lemma LastFour(a: string, b: string)
    requires |b| >= 4
    ensures (a + b)[|a + b| - 4..] == b[|b| - 4..]
  {}

  lemma ParsedMeans(name: string)
    ensures forall t :: Valid(t) && t.year <= 199 && |name| >= SUFFIX_LENGTH && name[|name| - SUFFIX_LENGTH..] == Stamp(t) ==>
      Parsed(name) == Seconds(t)
    ensures |name| >= SUFFIX_LENGTH && Shaped(name[|name| - SUFFIX_LENGTH..]) ==>
      var t := Spelled(name[|name| - SUFFIX_LENGTH..]);
      Parsed(name) == if 0 <= t.year <= 199 && Valid(t) then Seconds(t) else -1
    ensures Parsed(name) == -1 || InRange(Parsed(name))
    ensures |name| < SUFFIX_LENGTH || name[|name| - SUFFIX_LENGTH] != '_' ==> Parsed(name) == -1
  {
    forall t | Valid(t) && t.year <= 199 && |name| >= SUFFIX_LENGTH && name[|name| - SUFFIX_LENGTH..] == Stamp(t)
      ensures Parsed(name) == Seconds(t)
    {
      StampRead(name, t);
    }
    ParsedIsInRange(name);
    if |name| >= SUFFIX_LENGTH && Shaped(name[|name| - SUFFIX_LENGTH..]) { ShapedParsed(name); }
    hide Stamp, InRange, Seconds, Shaped, Spelled;
  }

  /** A name that ends in the time stamp of a date from 1900 to 2099 gives the date's seconds; any other result is -1 or
      an instant of these years as well. */
  method ParseTimestamp(name: string) returns (time: int)
    ensures time == Parsed(name)
    ensures forall t :: Valid(t) && t.year <= 199 && |name| >= SUFFIX_LENGTH && name[|name| - SUFFIX_LENGTH..] == Stamp(t) ==>
      time == Seconds(t)
    ensures |name| >= SUFFIX_LENGTH && Shaped(name[|name| - SUFFIX_LENGTH..]) ==>
      var t := Spelled(name[|name| - SUFFIX_LENGTH..]);
      time == if 0 <= t.year <= 199 && Valid(t) then Seconds(t) else -1
    ensures time == -1 || InRange(time)
    ensures |name| < SUFFIX_LENGTH || name[|name| - SUFFIX_LENGTH] != '_' ==> time == -1
  {
    hide Stamp, InRange, Seconds, Shaped, Spelled, ScanStamp, Valid;
    ParsedMeans(name);
    if |name| < SUFFIX_LENGTH { return -1; }
    var f := ScanStamp(name[|name| - SUFFIX_LENGTH..]);
    if f.None? { return -1; }
    var v := f.value;
    if |v| != 6 || v[0] < 1900 || v[0] > 2099 || v[1] < 1 || v[1] > 12 || v[2] < 1 || v[2] > 31 { return -1; }
    time := Timegm.Timegm(Some(Tm(v[0] - 1900, v[1] - 1, v[2], v[3], v[4], v[5])));
  }
}

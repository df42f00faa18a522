/**
 * The proleptic Gregorian calendar in UTC: Unix seconds to calendar dates,
 * and the ISO 8601 complete calendar date in extended format, YYYY-MM-DD
 * (section 4.1.2.2 of ISO 8601:2004), that the event store uses as its
 * partition key `CreatedAtDate`.
 */
module Calendar {
  import opened Wrappers
  import opened Decimal

  const SecondsPerDay: int := 86400

  datatype Date = Date(year: int, month: int, day: int)

  predicate IsLeapYear(y: int) {
    y % 4 == 0 && (y % 100 != 0 || y % 400 == 0)
  }

  function DaysInYear(y: int): int {
    if IsLeapYear(y) then 366 else 365
  }

  function DaysInMonth(y: int, m: int): (n: int)
    requires 1 <= m <= 12
    ensures 28 <= n <= 31
  {
    if m == 2 then (if IsLeapYear(y) then 29 else 28)
    else if m == 4 || m == 6 || m == 9 || m == 11 then 30
    else 31
  }

  predicate ValidDate(d: Date) {
    1 <= d.month <= 12 && 1 <= d.day <= DaysInMonth(d.year, d.month)
  }

  /** Days of year `y` before the first of month `m`; month 13 stands for the next new year. */
  function MonthStart(y: int, m: int): int
    requires 1 <= m <= 13
  {
    [0, 31, 59, 90, 120, 151, 181, 212, 243, 273, 304, 334, 365][m - 1]
      + (if m > 2 && IsLeapYear(y) then 1 else 0)
  }

  /** Leap years among 1 .. n (for n <= 0, minus those among n + 1 .. 0). */
  function LeapYearsThrough(n: int): int {
    n / 4 - n / 100 + n / 400
  }

  /** Days from 1970-01-01 to January 1st of year `y`. */
  function YearStart(y: int): int {
    365 * (y - 1970) + LeapYearsThrough(y - 1) - LeapYearsThrough(1969)
  }

  /** Days from 1970-01-01 to `d` (negative before the epoch). */
  function DaysFromCivil(d: Date): int
    requires ValidDate(d)
  {
    YearStart(d.year) + MonthStart(d.year, d.month) + d.day - 1
  }

  /** The day after `d`: next day of month, else first of next month, else new year. */
  function NextDate(d: Date): (n: Date)
    requires ValidDate(d)
    ensures ValidDate(n)
  {
    if d.day < DaysInMonth(d.year, d.month) then Date(d.year, d.month, d.day + 1)
    else if d.month < 12 then Date(d.year, d.month + 1, 1)
    else Date(d.year + 1, 1, 1)
  }

  /** Chronological order of dates. */
  predicate DateLess(a: Date, b: Date) {
    a.year < b.year
    || (a.year == b.year && a.month < b.month)
    || (a.year == b.year && a.month == b.month && a.day < b.day)
  }

  /** The date `r` days into year `y`, counted from the first of month `m`. */
  function InYear(y: int, m: int, r: int): (d: Date)
    requires 1 <= m <= 12 && 0 <= r && MonthStart(y, m) + r < DaysInYear(y)
    ensures ValidDate(d) && d.year == y
    decreases 12 - m
  {
    if r < DaysInMonth(y, m) then Date(y, m, r + 1)
    else InYear(y, m + 1, r - DaysInMonth(y, m))
  }

  /** The date `r` days after January 1st of year `y`, walking whole years either way. */
  function Locate(y: int, r: int): (d: Date)
    ensures ValidDate(d)
    decreases if r < 0 then -r else 0, if r < 0 then 0 else r
  {
    if r < 0 then Locate(y - 1, r + DaysInYear(y - 1))
    else if r < DaysInYear(y) then InYear(y, 1, r)
    else Locate(y + 1, r - DaysInYear(y))
  }

  /** The calendar date of day number `z`, day 0 being 1970-01-01. */
  function CivilFromDays(z: int): (d: Date)
    ensures ValidDate(d)
  {
    Locate(1970, z)
  }

  /** Day number of the UTC day holding Unix second `t` (division rounds down). */
  function DayNumber(t: int): int {
    t / SecondsPerDay
  }

  /** The UTC calendar date of Unix second `t`. */
  function DateOf(t: int): Date {
    CivilFromDays(DayNumber(t))
  }

  /** The Unix second of `hh:mm:ss` UTC on date `d`, as `time.Date(...).Unix()` gives it. */
  function UnixTime(d: Date, hh: int, mm: int, ss: int): int
    requires ValidDate(d)
  {
    DaysFromCivil(d) * SecondsPerDay + hh * 3600 + mm * 60 + ss
  }

  // ----- Proofs about the day count -----

  lemma DivStep(y: int)
    ensures y / 4 - (y - 1) / 4 == if y % 4 == 0 then 1 else 0
    ensures y / 100 - (y - 1) / 100 == if y % 100 == 0 then 1 else 0
    ensures y / 400 - (y - 1) / 400 == if y % 400 == 0 then 1 else 0
  {
  }

  /** Consecutive new years are one year length apart. */
  lemma YearStartStep(y: int)
    ensures YearStart(y + 1) == YearStart(y) + DaysInYear(y)
  {
    DivStep(y);
    assert LeapYearsThrough(y) - LeapYearsThrough(y - 1) == if IsLeapYear(y) then 1 else 0;
  }

  lemma {:induction false} YearStartMonotone(a: int, b: int)
    requires a <= b
    ensures YearStart(a) <= YearStart(b)
    decreases b - a
  {
    if a < b {
      YearStartMonotone(a, b - 1);
      YearStartStep(b - 1);
    }
  }

  lemma MonthStartStep(y: int, m: int)
    requires 1 <= m <= 12
    ensures MonthStart(y, m + 1) == MonthStart(y, m) + DaysInMonth(y, m)
  {
  }

  lemma MonthStartMonotone(y: int, a: int, b: int)
    requires 1 <= a <= b <= 13
    ensures MonthStart(y, a) <= MonthStart(y, b)
  {
  }

  lemma {:induction false} InYearSpec(y: int, m: int, r: int)
    requires 1 <= m <= 12 && 0 <= r && MonthStart(y, m) + r < DaysInYear(y)
    ensures MonthStart(y, InYear(y, m, r).month) + InYear(y, m, r).day - 1 == MonthStart(y, m) + r
    decreases 12 - m
  {
    if r >= DaysInMonth(y, m) {
      MonthStartStep(y, m);
      InYearSpec(y, m + 1, r - DaysInMonth(y, m));
    }
  }

  lemma {:induction false} LocateSpec(y: int, r: int)
    ensures ValidDate(Locate(y, r))
    ensures DaysFromCivil(Locate(y, r)) == YearStart(y) + r
    decreases if r < 0 then -r else 0, if r < 0 then 0 else r
  {
    if r < 0 {
      LocateSpec(y - 1, r + DaysInYear(y - 1));
      YearStartStep(y - 1);
    } else if r < DaysInYear(y) {
      InYearSpec(y, 1, r);
    } else {
      LocateSpec(y + 1, r - DaysInYear(y));
      YearStartStep(y);
    }
  }

  /** Every day number names a real date, and counting that date's days gives the number back. */
  lemma CivilFromDaysSpec(z: int)
    ensures ValidDate(CivilFromDays(z))
    ensures DaysFromCivil(CivilFromDays(z)) == z
  {
    LocateSpec(1970, z);
  }

  /** A valid date's day number lies within its own year. */
  lemma DaysFromCivilInYear(d: Date)
    requires ValidDate(d)
    ensures YearStart(d.year) <= DaysFromCivil(d) < YearStart(d.year + 1)
  {
    MonthStartStep(d.year, d.month);
    MonthStartMonotone(d.year, d.month + 1, 13);
    YearStartStep(d.year);
  }

  /** An earlier date has a smaller day number. */
  lemma DaysFromCivilLess(a: Date, b: Date)
    requires ValidDate(a) && ValidDate(b) && DateLess(a, b)
    ensures DaysFromCivil(a) < DaysFromCivil(b)
  {
    if a.year < b.year {
      DaysFromCivilInYear(a);
      DaysFromCivilInYear(b);
      YearStartMonotone(a.year + 1, b.year);
    } else if a.month < b.month {
      MonthStartStep(a.year, a.month);
      MonthStartMonotone(a.year, a.month + 1, b.month);
    }
  }

  /** Chronological order is the order of day numbers. */
  lemma DaysFromCivilOrder(a: Date, b: Date)
    requires ValidDate(a) && ValidDate(b)
    ensures DateLess(a, b) <==> DaysFromCivil(a) < DaysFromCivil(b)
    ensures a == b <==> DaysFromCivil(a) == DaysFromCivil(b)
  {
    if DateLess(a, b) {
      DaysFromCivilLess(a, b);
    } else if DateLess(b, a) {
      DaysFromCivilLess(b, a);
    } else {
      assert a == b;
    }
  }

  /** Larger day numbers name later dates. */
  lemma CivilFromDaysLess(x: int, y: int)
    requires x < y
    ensures DateLess(CivilFromDays(x), CivilFromDays(y))
  {
    CivilFromDaysSpec(x);
    CivilFromDaysSpec(y);
    DaysFromCivilOrder(CivilFromDays(x), CivilFromDays(y));
  }

  /** Counting days and naming the day are inverse: valid dates survive the round trip. */
  lemma CivilRoundTrip(d: Date)
    requires ValidDate(d)
    ensures CivilFromDays(DaysFromCivil(d)) == d
  {
    var z := DaysFromCivil(d);
    CivilFromDaysSpec(z);
    DaysFromCivilOrder(CivilFromDays(z), d);
  }

  lemma NextDateDays(d: Date)
    requires ValidDate(d)
    ensures DaysFromCivil(NextDate(d)) == DaysFromCivil(d) + 1
    ensures DateLess(d, NextDate(d))
  {
    if d.day == DaysInMonth(d.year, d.month) {
      MonthStartStep(d.year, d.month);
      if d.month == 12 {
        YearStartStep(d.year);
      }
    }
  }

  /** The day after day `z` is the calendar successor: month and year roll over. */
  lemma CivilFromDaysNext(z: int)
    ensures CivilFromDays(z + 1) == NextDate(CivilFromDays(z))
  {
    var d := CivilFromDays(z);
    CivilFromDaysSpec(z);
    NextDateDays(d);
    CivilRoundTrip(NextDate(d));
  }

  /** The day number of an instant is the day whose 86400 seconds contain it. */
  lemma DayNumberBounds(t: int)
    ensures DayNumber(t) * SecondsPerDay <= t < (DayNumber(t) + 1) * SecondsPerDay
  {
  }

  /** Whole days added to an instant move its day number by as many days. */
  lemma DayNumberShift(t: int, k: int)
    ensures DayNumber(t + k * SecondsPerDay) == DayNumber(t) + k
  {
    assert t + k * SecondsPerDay == (DayNumber(t) + k) * SecondsPerDay + t % SecondsPerDay;
  }

  /** An instant built from a date and a time of day falls on that date. */
  lemma UnixTimeDate(d: Date, hh: int, mm: int, ss: int)
    requires ValidDate(d) && 0 <= hh < 24 && 0 <= mm < 60 && 0 <= ss < 60
    ensures DayNumber(UnixTime(d, hh, mm, ss)) == DaysFromCivil(d)
    ensures DateOf(UnixTime(d, hh, mm, ss)) == d
  {
    var s := hh * 3600 + mm * 60 + ss;
    assert 0 <= s < SecondsPerDay;
    CivilRoundTrip(d);
  }

  /** Walking `k` days forward inside one month only moves the day of the month. */
  lemma {:induction false} CivilFromDaysSameMonth(z: int, k: nat)
    requires CivilFromDays(z).day + k <= DaysInMonth(CivilFromDays(z).year, CivilFromDays(z).month)
    ensures CivilFromDays(z + k).year == CivilFromDays(z).year
    ensures CivilFromDays(z + k).month == CivilFromDays(z).month
    ensures CivilFromDays(z + k).day == CivilFromDays(z).day + k
  {
    if k > 0 {
      CivilFromDaysSameMonth(z, k - 1);
      CivilFromDaysNext(z + k - 1);
    }
  }

  // ----- YYYY-MM-DD -----

  /** The four decimal digits of a year 0 .. 9999, leading zeros kept. */
  function FourDigits(y: nat): string
    requires y < 10000
  {
    [DigitChar(y / 1000), DigitChar(y / 100 % 10), DigitChar(y / 10 % 10), DigitChar(y % 10)]
  }

  /** Digits of a year's magnitude: at least four, zero-padded. */
  function YearDigits(n: nat): string {
    if n < 10000 then FourDigits(n) else NatToString(n)
  }

  /**
   * Year field as Go's layout "2006" writes it: the magnitude zero-padded to
   * four digits, preceded by '-' for a negative year.
   */
  function YearString(y: int): string {
    if y < 0 then "-" + YearDigits(-y) else YearDigits(y)
  }

  /** Month or day field as the layouts "01" and "02" write it: two digits. */
  function TwoDigits(n: nat): string
    requires n < 100
  {
    [DigitChar(n / 10), DigitChar(n % 10)]
  }

  /** `d` in the layout "2006-01-02". */
  function FormatDate(d: Date): (s: string)
    requires ValidDate(d)
  {
    YearString(d.year) + "-" + TwoDigits(d.month) + "-" + TwoDigits(d.day)
  }

  /** The UTC date string of Unix second `t`. */
  function DateString(t: int): string {
    FormatDate(DateOf(t))
  }

  function ParseYear(s: string): (r: Option<int>)
    ensures r.Some? ==> |s| >= 4
  {
    if |s| >= 5 && s[0] == '-' && AllDigits(s[1..]) then Some(-(DigitsValue(s[1..]) as int))
    else if |s| >= 4 && AllDigits(s) then Some(DigitsValue(s))
    else None
  }

  /** The date named by a year field and two-digit month and day fields. */
  function DateFromFields(ys: string, ms: string, ds: string): (r: Option<Date>)
    ensures r.Some? ==> ValidDate(r.value)
  {
    if !AllDigits(ms) || !AllDigits(ds) then None
    else match ParseYear(ys)
      case None => None
      case Some(y) =>
        var d := Date(y, DigitsValue(ms), DigitsValue(ds));
        if ValidDate(d) then Some(d) else None
  }

  /** Reads a "2006-01-02" date string back; None unless it names a valid date. */
  function ParseDate(s: string): (r: Option<Date>)
    ensures r.Some? ==> ValidDate(r.value)
  {
    var n := |s|;
    if n < 10 || s[n - 6] != '-' || s[n - 3] != '-' then None
    else DateFromFields(s[..n - 6], s[n - 5..n - 3], s[n - 2..])
  }

  lemma ParseYearDigits(p: string)
    requires |p| >= 4 && AllDigits(p)
    ensures ParseYear(p) == Some(DigitsValue(p) as int)
    ensures ParseYear("-" + p) == Some(-(DigitsValue(p) as int))
  {
    assert IsDigit(p[0]);
    assert ("-" + p)[1..] == p;
  }

  lemma DigitsValueFour(a: nat, b: nat, c: nat, d: nat)
    requires a < 10 && b < 10 && c < 10 && d < 10
    ensures AllDigits([DigitChar(a), DigitChar(b), DigitChar(c), DigitChar(d)])
    ensures DigitsValue([DigitChar(a), DigitChar(b), DigitChar(c), DigitChar(d)]) == ((a * 10 + b) * 10 + c) * 10 + d
  {
    var c0, c1, c2, c3 := DigitChar(a), DigitChar(b), DigitChar(c), DigitChar(d);
    DigitsValueSnoc([], c0);
    assert [] + [c0] == [c0];
    DigitsValueSnoc([c0], c1);
    assert [c0] + [c1] == [c0, c1];
    DigitsValueSnoc([c0, c1], c2);
    assert [c0, c1] + [c2] == [c0, c1, c2];
    DigitsValueSnoc([c0, c1, c2], c3);
    assert [c0, c1, c2] + [c3] == [c0, c1, c2, c3];
  }

  lemma FourDigitsValue(y: nat)
    requires y < 10000
    ensures AllDigits(FourDigits(y)) && DigitsValue(FourDigits(y)) == y
  {
    DigitsValueFour(y / 1000, y / 100 % 10, y / 10 % 10, y % 10);
    DecimalPlaces(y);
  }

  lemma DecimalPlaces(y: nat)
    requires y < 10000
    ensures ((y / 1000 * 10 + y / 100 % 10) * 10 + y / 10 % 10) * 10 + y % 10 == y
  {
    assert y / 100 == (y / 1000) * 10 + y / 100 % 10;
    assert y / 10 == (y / 100) * 10 + y / 10 % 10;
  }

  lemma NatToStringLong(n: nat)
    requires n >= 1000
    ensures |NatToString(n)| >= 4
  {
    assert |NatToString(n)| == |NatToString(n / 10)| + 1;
    assert |NatToString(n / 10)| == |NatToString(n / 100)| + 1;
  }

  lemma YearDigitsValue(n: nat)
    ensures |YearDigits(n)| >= 4 && AllDigits(YearDigits(n))
    ensures DigitsValue(YearDigits(n)) == n
  {
    if n < 10000 {
      FourDigitsValue(n);
    } else {
      NatToStringLong(n);
      DigitsValueOfNatToString(n);
    }
  }

  /** The year field reads back as the year. */
  lemma YearStringParses(y: int)
    ensures |YearString(y)| >= 4
    ensures ParseYear(YearString(y)) == Some(y)
  {
    var n: nat := if y < 0 then -y else y;
    YearDigitsValue(n);
    ParseYearDigits(YearDigits(n));
  }

  lemma TwoDigitsSpec(n: nat)
    requires n < 100
    ensures |TwoDigits(n)| == 2 && AllDigits(TwoDigits(n))
    ensures DigitsValue(TwoDigits(n)) == n
  {
    var c0, c1 := DigitChar(n / 10), DigitChar(n % 10);
    DigitsValueSnoc([], c0);
    assert [] + [c0] == [c0];
    DigitsValueSnoc([c0], c1);
    assert [c0] + [c1] == TwoDigits(n);
  }

  /** A date of a year 0 .. 9999 is written as the ten characters YYYY-MM-DD. */
  lemma FormatDateChars(d: Date)
    requires ValidDate(d) && 0 <= d.year <= 9999
    ensures FormatDate(d) ==
      [DigitChar(d.year / 1000), DigitChar(d.year / 100 % 10), DigitChar(d.year / 10 % 10), DigitChar(d.year % 10),
       '-', DigitChar(d.month / 10), DigitChar(d.month % 10), '-', DigitChar(d.day / 10), DigitChar(d.day % 10)]
  {
  }

  /** A ten-character string with the digits of `d` in place is the key of `d`. */
  lemma FormatDateIs(d: Date, s: string)
    requires ValidDate(d) && 0 <= d.year <= 9999 && |s| == 10
    requires s[0] == DigitChar(d.year / 1000) && s[1] == DigitChar(d.year / 100 % 10)
    requires s[2] == DigitChar(d.year / 10 % 10) && s[3] == DigitChar(d.year % 10) && s[4] == '-'
    requires s[5] == DigitChar(d.month / 10) && s[6] == DigitChar(d.month % 10) && s[7] == '-'
    requires s[8] == DigitChar(d.day / 10) && s[9] == DigitChar(d.day % 10)
    ensures FormatDate(d) == s
  {
    assert s == [s[0], s[1], s[2], s[3], s[4], s[5], s[6], s[7], s[8], s[9]];
    FormatDateChars(d);
  }

  lemma ParseDateSplits(ys: string, ms: string, ds: string)
    requires |ys| >= 4 && |ms| == 2 && |ds| == 2
    ensures ParseDate(ys + "-" + ms + "-" + ds) == DateFromFields(ys, ms, ds)
  {
    var s := ys + "-" + ms + "-" + ds;
    var n := |s|;
    assert s[n - 6] == '-' && s[n - 3] == '-';
    assert s[..n - 6] == ys;
    assert s[n - 5..n - 3] == ms;
    assert s[n - 2..] == ds;
  }

  /** The date string determines the date: parsing the formatted date gives it back. */
  lemma FormatDateRoundTrip(d: Date)
    requires ValidDate(d)
    ensures ParseDate(FormatDate(d)) == Some(d)
  {
    YearStringParses(d.year);
    TwoDigitsSpec(d.month);
    TwoDigitsSpec(d.day);
    ParseDateSplits(YearString(d.year), TwoDigits(d.month), TwoDigits(d.day));
  }

  lemma FormatDateInjective(a: Date, b: Date)
    requires ValidDate(a) && ValidDate(b)
    ensures FormatDate(a) == FormatDate(b) <==> a == b
  {
    FormatDateRoundTrip(a);
    FormatDateRoundTrip(b);
  }
}

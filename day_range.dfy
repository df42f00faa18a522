/**
 * The day-range planner `daysBetween`: the UTC calendar dates, as
 * "YYYY-MM-DD" partition keys, of every day from the day of `start`
 * to the day of `end`, both included.
 */
module DayRange {
  import opened Wrappers
  import opened Seqs
  import opened Calendar

  /** Dates of day numbers `first` .. `last`, ascending. */
  function DatesFrom(first: int, last: int): (dates: seq<Date>)
    ensures |dates| == if first <= last then last - first + 1 else 0
    ensures forall i :: 0 <= i < |dates| ==> ValidDate(dates[i])
    decreases last - first
  {
    if first > last then [] else [CivilFromDays(first)] + DatesFrom(first + 1, last)
  }

  /** The calendar dates the instants `start` .. `end` (Unix seconds, UTC) fall on. */
  function DatesBetween(start: int, end: int): seq<Date> {
    DatesFrom(DayNumber(start), DayNumber(end))
  }

  /** `daysBetween(start, end)`: the partition keys of the range. */
  function DaysBetween(start: int, end: int): (days: seq<string>) {
    var dates := DatesBetween(start, end);
    seq(|dates|, i requires 0 <= i < |dates| => FormatDate(dates[i]))
  }

  lemma {:induction false} DatesFromAt(first: int, last: int, i: int)
    requires 0 <= i <= last - first
    ensures DatesFrom(first, last)[i] == CivilFromDays(first + i)
    decreases i
  {
    if i > 0 {
      DatesFromAt(first + 1, last, i - 1);
    }
  }

  /** The i-th key is the date i days after the start day; there is one key per day touched. */
  lemma DaysBetweenSpec(start: int, end: int)
    ensures |DaysBetween(start, end)| ==
      if DayNumber(start) <= DayNumber(end) then DayNumber(end) - DayNumber(start) + 1 else 0
    ensures forall i :: 0 <= i < |DaysBetween(start, end)| ==>
      DaysBetween(start, end)[i] == FormatDate(CivilFromDays(DayNumber(start) + i))
  {
    forall i | 0 <= i < |DaysBetween(start, end)|
      ensures DaysBetween(start, end)[i] == FormatDate(CivilFromDays(DayNumber(start) + i))
    {
      DatesFromAt(DayNumber(start), DayNumber(end), i);
    }
  }

  lemma DayNumberMonotone(a: int, b: int)
    requires a <= b
    ensures DayNumber(a) <= DayNumber(b)
  {
    DayNumberBounds(a);
    DayNumberBounds(b);
  }

  /** For `start <= end` the list begins with the start's date and ends with the end's date. */
  lemma DaysBetweenEnds(start: int, end: int)
    requires start <= end
    ensures |DaysBetween(start, end)| >= 1
    ensures DaysBetween(start, end)[0] == DateString(start)
    ensures DaysBetween(start, end)[|DaysBetween(start, end)| - 1] == DateString(end)
  {
    var first, last := DayNumber(start), DayNumber(end);
    DayNumberMonotone(start, end);
    DaysBetweenSpec(start, end);
    var days := DaysBetween(start, end);
    assert days[0] == FormatDate(CivilFromDays(first + 0));
    assert first + 0 == first;
    assert days[0] == FormatDate(DateOf(start));
    assert |days| - 1 == last - first;
    assert days[last - first] == FormatDate(CivilFromDays(first + (last - first)));
    assert first + (last - first) == last;
    assert days[last - first] == FormatDate(DateOf(end));
  }

  /** Gap-free: each date is the calendar successor of the one before (month and year roll over). */
  lemma DatesBetweenGapFree(start: int, end: int)
    ensures forall i :: 0 <= i < |DatesBetween(start, end)| - 1 ==>
      DatesBetween(start, end)[i + 1] == NextDate(DatesBetween(start, end)[i])
  {
    var first, last := DayNumber(start), DayNumber(end);
    forall i | 0 <= i < |DatesBetween(start, end)| - 1
      ensures DatesBetween(start, end)[i + 1] == NextDate(DatesBetween(start, end)[i])
    {
      DatesFromAt(first, last, i);
      DatesFromAt(first, last, i + 1);
      CivilFromDaysNext(first + i);
    }
  }

  /** Ascending: the dates are in strictly increasing chronological order. */
  lemma DatesBetweenAscending(start: int, end: int)
    ensures forall i, j :: 0 <= i < j < |DatesBetween(start, end)| ==>
      DateLess(DatesBetween(start, end)[i], DatesBetween(start, end)[j])
  {
    var first, last := DayNumber(start), DayNumber(end);
    var dates := DatesBetween(start, end);
    forall i, j | 0 <= i < j < |dates| ensures DateLess(dates[i], dates[j]) {
      DatesFromAt(first, last, i);
      DatesFromAt(first, last, j);
      CivilFromDaysLess(first + i, first + j);
    }
  }

  /** Every key reads back as its date, so no key occurs twice. */
  lemma DaysBetweenDistinct(start: int, end: int)
    ensures forall i :: 0 <= i < |DaysBetween(start, end)| ==>
      ParseDate(DaysBetween(start, end)[i]) == Some(DatesBetween(start, end)[i])
    ensures NoDuplicates(DaysBetween(start, end))
  {
    var dates := DatesBetween(start, end);
    var days := DaysBetween(start, end);
    forall i | 0 <= i < |days| ensures ParseDate(days[i]) == Some(dates[i]) {
      FormatDateRoundTrip(dates[i]);
    }
    DatesBetweenAscending(start, end);
    forall i, j | 0 <= i < j < |days| ensures days[i] != days[j] {
      FormatDateInjective(dates[i], dates[j]);
    }
  }

  /** Complete: the date of every instant in `start .. end` is among the keys. */
  lemma DaysBetweenCovers(start: int, end: int, t: int)
    requires start <= t <= end
    ensures DateString(t) in DaysBetween(start, end)
  {
    var first, last := DayNumber(start), DayNumber(end);
    DayNumberMonotone(start, t);
    DayNumberMonotone(t, end);
    DaysBetweenSpec(start, end);
    var k := DayNumber(t) - first;
    var days := DaysBetween(start, end);
    assert 0 <= k < |days|;
    assert first + k == DayNumber(t);
    assert days[k] == DateString(t);
  }

  /** Sound: every key is the date of some instant in `start .. end`. */
  lemma DaysBetweenSound(start: int, end: int, i: int) returns (t: int)
    requires start <= end && 0 <= i < |DaysBetween(start, end)|
    ensures start <= t <= end && DateString(t) == DaysBetween(start, end)[i]
  {
    var first, last := DayNumber(start), DayNumber(end);
    DaysBetweenSpec(start, end);
    var days := DaysBetween(start, end);
    assert days[i] == FormatDate(CivilFromDays(first + i));
    if i == 0 {
      assert first + i == first;
      assert DateOf(start) == CivilFromDays(first + i);
      assert DateString(start) == days[i];
      t := start;
    } else {
      t := (first + i) * SecondsPerDay;
      DayMidnight(first + i);
      DayNumberBounds(start);
      DayNumberBounds(end);
      assert start <= t <= end;
      assert DayNumber(t) == first + i;
      assert DateOf(t) == CivilFromDays(first + i);
      assert DateString(t) == days[i];
    }
  }

  lemma DayMidnight(day: int)
    ensures DayNumber(day * SecondsPerDay) == day
  {
  }
}

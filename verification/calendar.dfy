/** The proleptic Gregorian calendar, by the leap rule and the month lengths of RFC 3339,
    section 5.7 and Appendix C. Months are zero-based: 0 is January. */
module Calendar {
  import opened RustInt

  datatype Date = Date(year: int, month: int, mday: int) {
    predicate Valid() {
      0 <= month < 12 && 1 <= mday <= DaysInMonth(year, month)
    }
  }

  predicate IsLeap(year: int) {
    year % 4 == 0 && (year % 100 != 0 || year % 400 == 0)
  }

  function LeapDay(year: int): int {
    if IsLeap(year) then 1 else 0
  }

  function DaysInMonth(year: int, month: int): int
    requires 0 <= month < 12
  {
    if month == 1 then 28 + LeapDay(year)
    else if month == 3 || month == 5 || month == 8 || month == 10 then 30
    else 31
  }

  /** Days from 1970-01-01 to the first day of `year`, counted one year at a time. */
  function DaysToYear(year: int): int
    decreases if year >= 1970 then year - 1970 else 1970 - year
  {
    if year == 1970 then 0
    else if year > 1970 then DaysToYear(year - 1) + 365 + LeapDay(year - 1)
    else DaysToYear(year + 1) - 365 - LeapDay(year)
  }

  /** Days from the first day of `year` to the first day of `month`, counted one month at a time. */
  function DaysToMonth(year: int, month: nat): int
    requires month <= 12
  {
    if month == 0 then 0 else DaysToMonth(year, month - 1) + DaysInMonth(year, month - 1)
  }

  /** Days from 1970-01-01 to `d`. */
  function DayNumber(d: Date): int
    requires d.Valid()
  {
    DaysToYear(d.year) + DaysToMonth(d.year, d.month) + d.mday - 1
  }

  /** The day after `d` on the calendar. */
  function NextDay(d: Date): Date
    requires d.Valid()
  {
    if d.mday < DaysInMonth(d.year, d.month) then d.(mday := d.mday + 1)
    else if d.month < 11 then Date(d.year, d.month + 1, 1)
    else Date(d.year + 1, 0, 1)
  }

  predicate Earlier(a: Date, b: Date) {
    || a.year < b.year
    || (a.year == b.year && a.month < b.month)
    || (a.year == b.year && a.month == b.month && a.mday < b.mday)
  }

  /** Leap years among the years up to and including `year`, up to a constant. */
  function LeapsThrough(year: int): int {
    year / 4 - year / 100 + year / 400
  }

  lemma MultipleStep(year: int, d: int)
    requires d == 4 || d == 100 || d == 400
    ensures year / d - (year - 1) / d == if year % d == 0 then 1 else 0
  {
  }

  lemma MultiplesNest(year: int)
    ensures year % 400 == 0 ==> year % 100 == 0
    ensures year % 100 == 0 ==> year % 4 == 0
  {
    if year % 400 == 0 {
      QuotientIsUnique(year, 100, 4 * (year / 400), 0);
    }
    if year % 100 == 0 {
      QuotientIsUnique(year, 4, 25 * (year / 100), 0);
    }
  }

  lemma LeapStep(year: int)
    ensures LeapsThrough(year) == LeapsThrough(year - 1) + LeapDay(year)
  {
    MultipleStep(year, 4);
    MultipleStep(year, 100);
    MultipleStep(year, 400);
    MultiplesNest(year);
  }

  lemma {:induction false} DaysToYearClosedForm(year: int)
    ensures DaysToYear(year) == 365 * (year - 1970) + LeapsThrough(year - 1) - LeapsThrough(1969)
    decreases if year >= 1970 then year - 1970 else 1970 - year
  {
    if year > 1970 {
      DaysToYearClosedForm(year - 1);
      LeapStep(year - 1);
    } else if year < 1970 {
      DaysToYearClosedForm(year + 1);
      LeapStep(year);
    }
  }

  /** A year is as long as its months, before 1970 as after. */
  lemma NextYear(year: int)
    ensures DaysToYear(year + 1) == DaysToYear(year) + 365 + LeapDay(year)
  {
  }

  lemma MonthStarts(year: int)
    ensures DaysToMonth(year, 0) == 0 && DaysToMonth(year, 1) == 31
    ensures DaysToMonth(year, 2) == 59 + LeapDay(year)
    ensures DaysToMonth(year, 3) == 90 + LeapDay(year)
    ensures DaysToMonth(year, 4) == 120 + LeapDay(year)
    ensures DaysToMonth(year, 5) == 151 + LeapDay(year)
    ensures DaysToMonth(year, 6) == 181 + LeapDay(year)
    ensures DaysToMonth(year, 7) == 212 + LeapDay(year)
    ensures DaysToMonth(year, 8) == 243 + LeapDay(year)
    ensures DaysToMonth(year, 9) == 273 + LeapDay(year)
    ensures DaysToMonth(year, 10) == 304 + LeapDay(year)
    ensures DaysToMonth(year, 11) == 334 + LeapDay(year)
    ensures DaysToMonth(year, 12) == 365 + LeapDay(year)
  {
    assert DaysToMonth(year, 1) == 31;
    assert DaysToMonth(year, 3) == 90 + LeapDay(year);
    assert DaysToMonth(year, 5) == 151 + LeapDay(year);
    assert DaysToMonth(year, 7) == 212 + LeapDay(year);
    assert DaysToMonth(year, 9) == 273 + LeapDay(year);
    assert DaysToMonth(year, 11) == 334 + LeapDay(year);
  }

  /** Every date of a year falls between that year's first day and the next year's. */
  lemma DayNumberWithinYear(d: Date)
    requires d.Valid()
    ensures DaysToYear(d.year) <= DayNumber(d) < DaysToYear(d.year + 1)
  {
    MonthStarts(d.year);
    NextYear(d.year);
  }

  lemma {:induction false} DaysToYearIncreases(a: int, b: int)
    requires a <= b
    ensures DaysToYear(a) <= DaysToYear(b)
    decreases b - a
  {
    if a < b {
      NextYear(a);
      DaysToYearIncreases(a + 1, b);
    }
  }

  /** Counting days orders dates exactly as (year, month, day) does. */
  lemma DayNumberOrdersDates(a: Date, b: Date)
    requires a.Valid() && b.Valid()
    ensures DayNumber(a) < DayNumber(b) <==> Earlier(a, b)
  {
    DayNumberWithinYear(a);
    DayNumberWithinYear(b);
    if a.year < b.year {
      DaysToYearIncreases(a.year + 1, b.year);
    } else if b.year < a.year {
      DaysToYearIncreases(b.year + 1, a.year);
    } else {
      MonthStarts(a.year);
    }
  }

  /** A day count names one date only. */
  lemma DayNumberIsInjective(a: Date, b: Date)
    requires a.Valid() && b.Valid() && DayNumber(a) == DayNumber(b)
    ensures a == b
  {
    DayNumberOrdersDates(a, b);
    DayNumberOrdersDates(b, a);
  }

  /** The calendar's successor is the next day count. */
  lemma NextDayCountsOne(d: Date)
    requires d.Valid()
    ensures NextDay(d).Valid() && DayNumber(NextDay(d)) == DayNumber(d) + 1
  {
    MonthStarts(d.year);
    NextYear(d.year);
  }

  lemma LeapsPerCycle(year: int)
    ensures LeapsThrough(year + 400) == LeapsThrough(year) + 97
    ensures IsLeap(year + 400) == IsLeap(year)
  {
    QuotientIsUnique(year + 400, 4, year / 4 + 100, year % 4);
    QuotientIsUnique(year + 400, 100, year / 100 + 4, year % 100);
    QuotientIsUnique(year + 400, 400, year / 400 + 1, year % 400);
  }

  /** The calendar repeats every 400 years, which are 146097 days. */
  lemma FourCenturiesLater(d: Date)
    requires d.Valid()
    ensures var e := d.(year := d.year + 400); e.Valid() && DayNumber(e) == DayNumber(d) + 146097
  {
    LeapsPerCycle(d.year);
    LeapsPerCycle(d.year - 1);
    MonthStarts(d.year);
    MonthStarts(d.year + 400);
    DaysToYearClosedForm(d.year);
    DaysToYearClosedForm(d.year + 400);
  }
}

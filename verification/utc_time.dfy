/** `Time::from`: a signed second count turned into calendar fields by nested 400-, 100-, 4- and
    1-year cycles that start on 1 March 2000.
    LEAPOCH is 1 March 2000, which is day 11017 from the epoch. */
module UtcTime {
  import opened RustInt
  import opened Calendar

  const SECS_PER_DAY := 86400
  const LEAPOCH := 951868800
  const DAYS_PER_400Y := 146097
  const DAYS_PER_100Y := 36524
  const DAYS_PER_4Y := 1461
  const DAYS_IN_MONTH: seq<int> := [31, 30, 31, 30, 31, 31, 30, 31, 30, 31, 31, 29]

  /** The reading of the clock: `duration_since(UNIX_EPOCH)` is `Ok` of a duration after the epoch
      or `Err` of a duration before it. */
  datatype SystemTime = Since(secs: int, nanos: int) | Before(secs: int, nanos: int) {
    /** The subsecond part is proper, and no i64 step of the conversion overflows. */
    predicate Valid() {
      && 0 <= nanos < 1_000_000_000
      && 0 <= secs < 0x8000_0000_0000_0000 - if Since? then 0 else LEAPOCH
    }

    /** Signed nanoseconds from the epoch. */
    function Nanoseconds(): int {
      if Since? then secs * 1_000_000_000 + nanos else -(secs * 1_000_000_000 + nanos)
    }
  }

  datatype Time = Time(year: int, month: u8, mday: u8, hour: u8, minute: u8, second: u8, nanos: int) {
    function Date(): Date { Calendar.Date(year, month, mday) }

    predicate Valid() {
      Date().Valid() && hour < 24 && minute < 60 && second < 60 && 0 <= nanos < 1_000_000_000
    }

    function SecondOfDay(): int { hour * 3600 + minute * 60 + second }
  }

  /** Seconds from the epoch, counting days by the calendar. */
  function Seconds(t: Time): int
    requires t.Valid()
  {
    DayNumber(t.Date()) * SECS_PER_DAY + t.SecondOfDay()
  }

  /** Nanoseconds from the epoch, counting days by the calendar. */
  function Nanoseconds(t: Time): int
    requires t.Valid()
  {
    Seconds(t) * 1_000_000_000 + t.nanos
  }

  /** Days from 1 March to the first day of the `k`-th month of the March-based year. */
  function MarchDays(k: nat): int
    requires k <= 12
  {
    if k == 0 then 0 else MarchDays(k - 1) + DAYS_IN_MONTH[k - 1]
  }

  lemma MarchMonths()
    ensures MarchDays(0) == 0 && MarchDays(1) == 31 && MarchDays(2) == 61 && MarchDays(3) == 92 && MarchDays(4) == 122
    ensures MarchDays(5) == 153 && MarchDays(6) == 184 && MarchDays(7) == 214 && MarchDays(8) == 245
    ensures MarchDays(9) == 275 && MarchDays(10) == 306 && MarchDays(11) == 337 && MarchDays(12) == 366
  {
    assert MarchDays(2) == 61;
    assert MarchDays(4) == 122;
    assert MarchDays(6) == 184;
    assert MarchDays(8) == 245;
    assert MarchDays(10) == 306;
    assert MarchDays(12) == 366;
  }

  /** 1 March of the year `n` years after 2000, in days from 1 March 2000. */
  lemma FirstOfMarch(n: int)
    ensures DayNumber(Calendar.Date(2000 + n, 2, 1))
         == 11017 + 365 * n + n / 4 - n / 100 + n / 400
  {
    MonthStarts(2000 + n);
    DaysToYearClosedForm(2000 + n);
    LeapStep(2000 + n);
    assert LeapsThrough(2000 + n) == 485 + n / 4 - n / 100 + n / 400 by {
      assert (2000 + n) / 4 == 500 + n / 4;
      assert (2000 + n) / 100 == 20 + n / 100;
      assert (2000 + n) / 400 == 5 + n / 400;
    }
  }

  /** The cycle counts are the digits of the year count. */
  lemma CycleDigits(qc: int, c: int, q: int, y: int)
    requires 0 <= c <= 3 && 0 <= q <= 24 && 0 <= y <= 3
    ensures var n := y + 4 * q + 100 * c + 400 * qc;
      n / 4 - n / 100 + n / 400 == 97 * qc + 24 * c + q
  {
    var n := y + 4 * q + 100 * c + 400 * qc;
    QuotientIsUnique(n, 4, q + 25 * c + 100 * qc, y);
    QuotientIsUnique(n, 100, c + 4 * qc, y + 4 * q);
    QuotientIsUnique(n, 400, qc, y + 4 * q + 100 * c);
  }

  /** The year of a full set of cycles ends in a leap day unless it closes a century that does not
      close 400 years. */
  lemma EndsInLeapDay(qc: int, c: int, q: int)
    requires 0 <= c <= 3 && 0 <= q <= 24
    ensures IsLeap(2004 + 4 * q + 100 * c + 400 * qc) <==> q != 24 || c == 3
  {
    var n := 2004 + 4 * q + 100 * c + 400 * qc;
    QuotientIsUnique(n, 4, 501 + q + 25 * c + 100 * qc, 0);
    if q == 24 {
      QuotientIsUnique(n, 100, 21 + c + 4 * qc, 0);
      if c == 3 {
        QuotientIsUnique(n, 400, 6 + qc, 0);
      } else {
        QuotientIsUnique(n, 400, 5 + qc, 100 * (c + 1));
      }
    } else {
      QuotientIsUnique(n, 100, 20 + c + 4 * qc, 4 * (q + 1));
    }
  }

  /** The day of the March-based year reaches 365 only in a year that ends in 29 February. */
  lemma CyclesNameTheYear(qc: int, c: int, q: int, y: int, rem: int)
    requires 0 <= c <= 3 && 0 <= q <= 24 && 0 <= y <= 3 && 0 <= rem <= 365
    requires rem == 365 ==> y == 3 && (q != 24 || c == 3)
    ensures var year := 2000 + y + 4 * q + 100 * c + 400 * qc;
      && DayNumber(Calendar.Date(year, 2, 1)) + rem == 11017
           + qc * DAYS_PER_400Y + c * DAYS_PER_100Y + q * DAYS_PER_4Y + y * 365 + rem
      && rem < 365 + LeapDay(year + 1)
  {
    FirstOfMarch(y + 4 * q + 100 * c + 400 * qc);
    CycleDigits(qc, c, q, y);
    if rem == 365 {
      EndsInLeapDay(qc, c, q);
    }
  }

  /** The truncated division and sign fix-up that `From` performs twice. */
  method FloorSplit(n: int, size: int) returns (whole: int, rest: int)
    requires size > 0
    ensures n == whole * size + rest && 0 <= rest < size
  {
    whole := Div(n, size);
    rest := Rem(n, size);
    FixUpIsFloor(n, size);
    if rest < 0 {
      rest := rest + size;
      whole := whole - 1;
    }
  }

  /** Which of the three clamps can fire, for the days left over in a 400-year cycle: the century
      clamp on its last day only, the four-year clamp never, the year clamp on day 1460 only. */
  lemma ClampsAreForLeapDays(remdays: int)
    requires 0 <= remdays < DAYS_PER_400Y
    ensures var c := if remdays / DAYS_PER_100Y == 4 then 3 else remdays / DAYS_PER_100Y;
      var inCentury := remdays - c * DAYS_PER_100Y;
      var inFour := inCentury - inCentury / DAYS_PER_4Y * DAYS_PER_4Y;
      && (remdays / DAYS_PER_100Y == 4 <==> remdays == 146096)
      && inCentury / DAYS_PER_4Y <= 24
      && (inFour / 365 == 4 <==> inFour == 1460)
  {
  }

  /** Splits days from 1 March 2000 into whole cycles and a day of the March-based year. */
  method SplitCycles(days: int) returns (qcCycles: int, cCycles: int, qCycles: int, remyears: int, remdays: int)
    ensures 0 <= cCycles <= 3 && 0 <= qCycles <= 24 && 0 <= remyears <= 3
    ensures var year := 2000 + remyears + 4 * qCycles + 100 * cCycles + 400 * qcCycles;
      && DayNumber(Calendar.Date(year, 2, 1)) + remdays == 11017 + days
      && 0 <= remdays < 365 + LeapDay(year + 1)
  {
    qcCycles, remdays := FloorSplit(days, DAYS_PER_400Y);

    cCycles := Div(remdays, DAYS_PER_100Y);
    if cCycles == 4 {
      cCycles := cCycles - 1;
    }
    remdays := remdays - cCycles * DAYS_PER_100Y;
    assert 0 <= remdays < DAYS_PER_100Y + if cCycles == 3 then 1 else 0;

    qCycles := Div(remdays, DAYS_PER_4Y);
    if qCycles == 25 {
      qCycles := qCycles - 1;
    }
    remdays := remdays - qCycles * DAYS_PER_4Y;

    remyears := Div(remdays, 365);
    if remyears == 4 {
      remyears := remyears - 1;
    }
    remdays := remdays - remyears * 365;

    CyclesNameTheYear(qcCycles, cCycles, qCycles, remyears, remdays);
  }

  /** A day of the year behind the `m`-th month lies behind its days, so the last month is not left. */
  lemma MonthStep(m: nat, dayOfYear: int, remdays: int)
    requires m < 12 && dayOfYear <= 365
    requires dayOfYear == MarchDays(m) + remdays && DAYS_IN_MONTH[m] <= remdays
    ensures m < 11 && dayOfYear == MarchDays(m + 1) + (remdays - DAYS_IN_MONTH[m])
  {
    MarchMonths();
  }

  /** Walks the March-based month table. The last clause says that the loop leaves by its break. */
  method FindMonth(dayOfYear: int) returns (months: i8, remdays: int)
    requires 0 <= dayOfYear <= 365
    ensures 0 <= months < 12
    ensures dayOfYear == MarchDays(months) + remdays
    ensures 0 <= remdays < DAYS_IN_MONTH[months]
  {
    months, remdays := 0, dayOfYear;
    for m := 0 to 12
      invariant m < 12 && 0 <= months < 12 && 0 <= remdays
      invariant dayOfYear == MarchDays(m) + remdays
    {
      months := AsI8(m);
      assert months == m;
      if DAYS_IN_MONTH[m] > remdays {
        break;
      }
      MonthStep(m, dayOfYear, remdays);
      remdays := remdays - DAYS_IN_MONTH[m];
    }
  }

  /** January and February of the March-based year belong to the next calendar year. */
  lemma MarchDate(year: int, months: int, remdays: int)
    requires 0 <= months < 12 && 0 <= remdays < DAYS_IN_MONTH[months]
    requires MarchDays(months) + remdays < 365 + LeapDay(year + 1)
    ensures var d := if months < 10 then Calendar.Date(year, months + 2, remdays + 1)
                     else Calendar.Date(year + 1, months - 10, remdays + 1);
      d.Valid() && DayNumber(d) == DayNumber(Calendar.Date(year, 2, 1)) + MarchDays(months) + remdays
  {
    MarchMonths();
    MonthStarts(year);
    MonthStarts(year + 1);
    NextYear(year);
  }

  lemma TimeOfDay(remsecs: int)
    requires 0 <= remsecs < SECS_PER_DAY
    ensures var h, m, s := AsU8(Div(remsecs, 3600)), AsU8(Rem(Div(remsecs, 60), 60)), AsU8(Rem(remsecs, 60));
      h < 24 && m < 60 && s < 60 && h * 3600 + m * 60 + s == remsecs
  {
    var h, m, s := remsecs / 60 / 60, remsecs / 60 % 60, remsecs % 60;
    assert remsecs == 3600 * h + (60 * m + s);
    QuotientIsUnique(remsecs, 3600, h, 60 * m + s);
    CastKeeps(h);
    CastKeeps(m);
    CastKeeps(s);
  }

  /** The casts to u8 lose nothing, and the fields count back to the seconds. */
  lemma FieldsCountBack(d: Date, remsecs: int, nanos: int)
    requires d.Valid() && 0 <= remsecs < SECS_PER_DAY && 0 <= nanos < 1_000_000_000
    ensures var r := Time(d.year, AsU8(d.month), AsU8(d.mday),
                          AsU8(Div(remsecs, 3600)), AsU8(Rem(Div(remsecs, 60), 60)), AsU8(Rem(remsecs, 60)), nanos);
      r.Valid() && r.Date() == d && Seconds(r) == DayNumber(d) * SECS_PER_DAY + remsecs
  {
    TimeOfDay(remsecs);
    CastKeeps(d.month);
    CastKeeps(d.mday);
  }

  /** Days from 1 March 2000 to a year from 2000, a month from March, and a zero-based day. */
  method CountDate(days: int) returns (years: int, months: i8, remdays: int)
    ensures var d := Calendar.Date(years + 2000, months + 2, remdays + 1);
      d.Valid() && DayNumber(d) == 11017 + days
  {
    var qcCycles, cCycles, qCycles, remyears, dayOfYear := SplitCycles(days);
    years := remyears + 4 * qCycles + 100 * cCycles + 400 * qcCycles;
    months, remdays := FindMonth(dayOfYear);
    MarchDate(2000 + years, months, remdays);
    if months >= 10 {
      months := months - 12;
      years := years + 1;
    }
  }

  method From(now: SystemTime) returns (r: Time)
    requires now.Valid()
    ensures r.Valid() && Nanoseconds(r) == now.Nanoseconds()
  {
    var t, nanos;
    match now {
      case Since(s, n) => t, nanos := s, n;
      case Before(s, n) =>
        if n > 0 {
          t, nanos := -s - 1, 1_000_000_000 - n;
        } else {
          t, nanos := -s, 0;
        }
    }
    assert t * 1_000_000_000 + nanos == now.Nanoseconds();

    var secs := t - LEAPOCH;
    var days, remsecs := FloorSplit(secs, SECS_PER_DAY);
    var years, months, remdays := CountDate(days);
    FieldsCountBack(Calendar.Date(years + 2000, months + 2, remdays + 1), remsecs, nanos);
    r := Time(years + 2000, AsU8(months + 2), AsU8(remdays + 1),
              AsU8(Div(remsecs, 3600)), AsU8(Rem(Div(remsecs, 60), 60)), AsU8(Rem(remsecs, 60)), nanos);
  }

  predicate EarlierTime(a: Time, b: Time) {
    || Earlier(a.Date(), b.Date())
    || (a.Date() == b.Date()
        && (a.hour < b.hour || (a.hour == b.hour
        && (a.minute < b.minute || (a.minute == b.minute
        && (a.second < b.second || (a.second == b.second && a.nanos < b.nanos)))))))
  }

  /** Later instants have lexicographically larger fields, and conversely. */
  lemma FieldsOrderInstants(a: Time, b: Time)
    requires a.Valid() && b.Valid()
    ensures EarlierTime(a, b) <==> Nanoseconds(a) < Nanoseconds(b)
  {
    DayNumberOrdersDates(a.Date(), b.Date());
    DayNumberOrdersDates(b.Date(), a.Date());
    SecondOfDayOrders(a, b);
    SecondOfDayOrders(b, a);
    if DayNumber(a.Date()) == DayNumber(b.Date()) {
      DayNumberIsInjective(a.Date(), b.Date());
    }
    CountsOrderLexically(DayNumber(a.Date()), a.SecondOfDay(), a.nanos, DayNumber(b.Date()), b.SecondOfDay(), b.nanos);
  }

  lemma CountsOrderLexically(d: int, s: int, n: int, d': int, s': int, n': int)
    requires 0 <= s < SECS_PER_DAY && 0 <= s' < SECS_PER_DAY
    requires 0 <= n < 1_000_000_000 && 0 <= n' < 1_000_000_000
    ensures (d * SECS_PER_DAY + s) * 1_000_000_000 + n < (d' * SECS_PER_DAY + s') * 1_000_000_000 + n'
       <==> d < d' || (d == d' && (s < s' || (s == s' && n < n')))
  {
  }

  lemma SecondOfDayOrders(a: Time, b: Time)
    requires a.Valid() && b.Valid()
    ensures 0 <= a.SecondOfDay() < SECS_PER_DAY
    ensures a.SecondOfDay() < b.SecondOfDay() <==>
      || a.hour < b.hour
      || (a.hour == b.hour && (a.minute < b.minute || (a.minute == b.minute && a.second < b.second)))
  {
  }

  lemma SecondsSplit(t: Time)
    requires t.Valid()
    ensures 0 <= t.SecondOfDay() < SECS_PER_DAY
    ensures Nanoseconds(t) / 1_000_000_000 == Seconds(t) && Nanoseconds(t) % 1_000_000_000 == t.nanos
    ensures Seconds(t) / SECS_PER_DAY == DayNumber(t.Date())
    ensures Seconds(t) % SECS_PER_DAY == t.SecondOfDay()
  {
  }

  /** An instant determines its fields, so the contract of `From` determines its result. */
  lemma FieldsAreDetermined(a: Time, b: Time)
    requires a.Valid() && b.Valid() && Nanoseconds(a) == Nanoseconds(b)
    ensures a == b
  {
    SecondsSplit(a);
    SecondsSplit(b);
    DayNumberIsInjective(a.Date(), b.Date());
  }

  /** A day later is the calendar's next day at the same time of day. */
  lemma OneDayLater(a: Time, b: Time)
    requires a.Valid() && b.Valid()
    ensures Nanoseconds(b) == Nanoseconds(a) + SECS_PER_DAY * 1_000_000_000 <==>
      (b.Date() == NextDay(a.Date()) && b == a.(year := b.year, month := b.month, mday := b.mday))
  {
    var d := NextDay(a.Date());
    NextDayCountsOne(a.Date());
    var c := a.(year := d.year, month := d.month, mday := d.mday);
    assert c.Date() == d && c.SecondOfDay() == a.SecondOfDay();
    assert Nanoseconds(c) == Nanoseconds(a) + SECS_PER_DAY * 1_000_000_000;
    if Nanoseconds(b) == Nanoseconds(c) {
      FieldsAreDetermined(b, c);
    }
  }

  /** 146097 days later only the year differs, by exactly 400. */
  lemma FourHundredYearsLater(a: Time, b: Time)
    requires a.Valid() && b.Valid()
    ensures Nanoseconds(b) == Nanoseconds(a) + DAYS_PER_400Y * SECS_PER_DAY * 1_000_000_000
       <==> b == a.(year := a.year + 400)
  {
    FourCenturiesLater(a.Date());
    var c := a.(year := a.year + 400);
    assert c.Date() == a.Date().(year := a.year + 400) && c.SecondOfDay() == a.SecondOfDay();
    assert Nanoseconds(c) == Nanoseconds(a) + DAYS_PER_400Y * SECS_PER_DAY * 1_000_000_000;
    if Nanoseconds(b) == Nanoseconds(c) {
      FieldsAreDetermined(b, c);
    }
  }
}

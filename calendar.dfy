/**
 * Proleptic Gregorian dates and the ISO 8601 week date (ISO 8601:2004 section 4.1.4): week 1 of
 * a week-numbering year is the Monday-to-Sunday week that holds the year's first Thursday.
 * `IsoCalendar` follows the integer algorithm of Python's `date.isocalendar()`, which is what
 * `Series.dt.isocalendar()` computes per timestamp, and is proved against that definition.
 */
module Calendar {
  import Strings

  predicate IsLeapYear(y: int) {
    y % 4 == 0 && (y % 100 != 0 || y % 400 == 0)
  }

  function DaysInYear(y: int): int {
    if IsLeapYear(y) then 366 else 365
  }

  function DaysInMonth(y: int, m: int): int
    requires 1 <= m <= 12
  {
    if m == 2 then (if IsLeapYear(y) then 29 else 28)
    else if m == 4 || m == 6 || m == 9 || m == 11 then 30
    else 31
  }

  /** Days in the months of `y` before month `m`. */
  function DaysBeforeMonth(y: int, m: int): int
    requires 1 <= m <= 12
  {
    [0, 31, 59, 90, 120, 151, 181, 212, 243, 273, 304, 334][m - 1] + (if m > 2 && IsLeapYear(y) then 1 else 0)
  }

  datatype CivilDate = CivilDate(year: int, month: int, day: int)

  /** A calendar date from year 1 on, the range of Python's `datetime`. */
  predicate ValidDate(d: CivilDate) {
    1 <= d.year && 1 <= d.month <= 12 && 1 <= d.day <= DaysInMonth(d.year, d.month)
  }

  type Date = d: CivilDate | ValidDate(d) witness CivilDate(1970, 1, 1)

  /** Days from 0001-01-01 to January 1st of `y` in closed form (CPython's `_days_before_year`). */
  function DaysBeforeYear(y: int): int {
    var k := y - 1;
    365 * k + k / 4 - k / 100 + k / 400
  }

  /**
   * The day number of January 1st of `y`, counting year lengths from day 1, 0001-01-01 (a
   * Monday). `FirstDayClosedForm` proves it equal to `DaysBeforeYear(y) + 1`.
   */
  function FirstDay(y: int): int
    decreases if y >= 1 then y - 1 else 1 - y
  {
    if y == 1 then 1
    else if y > 1 then FirstDay(y - 1) + DaysInYear(y - 1)
    else FirstDay(y + 1) - DaysInYear(y)
  }

  /** Python's `date.toordinal()`: days before the year, before the month, and the day. */
  function Ordinal(d: Date): int {
    FirstDay(d.year) - 1 + DaysBeforeMonth(d.year, d.month) + d.day
  }

  /** Day of the week of a day number, Monday = 0 to Sunday = 6 (Python's `weekday()`). */
  function Weekday(n: int): int {
    (n + 6) % 7
  }

  /** Day number of the Monday of ISO week 1 of `y` (CPython's `_isoweek1monday`). */
  function Week1Monday(y: int): int {
    var first := FirstDay(y);
    var firstWeekday := Weekday(first);
    if firstWeekday > 3 then first - firstWeekday + 7 else first - firstWeekday
  }

  datatype IsoDate = IsoDate(year: int, week: int, weekday: int)

  /**
   * The branches of `date.isocalendar()` on day numbers: `today` counted from the week-1 Mondays
   * `previous`, `monday` and `next` of the years before, of and after `year`.
   */
  function IsoWeekDate(year: int, today: int, previous: int, monday: int, next: int): IsoDate {
    if today < monday then
      IsoDate(year - 1, (today - previous) / 7 + 1, (today - previous) % 7 + 1)
    else if (today - monday) / 7 >= 52 && today >= next then
      IsoDate(year + 1, 1, (today - monday) % 7 + 1)
    else
      IsoDate(year, (today - monday) / 7 + 1, (today - monday) % 7 + 1)
  }

  /** `date.isocalendar()`: ISO week-numbering year, week (1..53) and weekday (Monday = 1). */
  function IsoCalendar(d: Date): IsoDate {
    IsoWeekDate(d.year, Ordinal(d), Week1Monday(d.year - 1), Week1Monday(d.year), Week1Monday(d.year + 1))
  }

  /** A year is 365 days long, or 366 in a leap year. */
  lemma YearLength(y: int)
    ensures FirstDay(y + 1) - FirstDay(y) == DaysInYear(y)
  {
  }

  /** The closed form grows by one year's length from each year to the next. */
  lemma DaysBeforeYearStep(y: int)
    ensures DaysBeforeYear(y + 1) - DaysBeforeYear(y) == DaysInYear(y)
  {
    var k := y - 1;
    var c4, c100, c400 := (k + 1) / 4 - k / 4, (k + 1) / 100 - k / 100, (k + 1) / 400 - k / 400;
    assert DaysBeforeYear(y + 1) - DaysBeforeYear(y) == 365 + c4 - c100 + c400;
    DivStep(k, 4);
    DivStep(k, 100);
    DivStep(k, 400);
    LeapCycles(y);
  }

  /** Counting year lengths gives CPython's closed form, in either direction from year 1. */
  lemma {:induction false} FirstDayClosedForm(y: int)
    ensures FirstDay(y) == DaysBeforeYear(y) + 1
    decreases if y >= 1 then y - 1 else 1 - y
  {
    if y > 1 {
      FirstDayClosedForm(y - 1);
      DaysBeforeYearStep(y - 1);
    } else if y < 1 {
      FirstDayClosedForm(y + 1);
      DaysBeforeYearStep(y);
    }
  }

  /** `Ordinal` is `toordinal()`'s closed form `_days_before_year + _days_before_month + day`. */
  lemma OrdinalClosedForm(d: Date)
    ensures Ordinal(d) == DaysBeforeYear(d.year) + DaysBeforeMonth(d.year, d.month) + d.day
  {
    FirstDayClosedForm(d.year);
  }

  /** A multiple of 400 is a multiple of 100, and a multiple of 100 one of 4. */
  lemma LeapCycles(y: int)
    ensures y % 400 == 0 ==> y % 100 == 0
    ensures y % 100 == 0 ==> y % 4 == 0
  {
    if y % 400 == 0 {
      MultipleMod(y, 4 * (y / 400), 100);
    }
    if y % 100 == 0 {
      MultipleMod(y, 25 * (y / 100), 4);
    }
  }

  /** A literal multiple leaves no remainder. */
  lemma MultipleMod(y: int, q: int, n: int)
    requires n == 4 || n == 100
    requires y == n * q
    ensures y % n == 0
  {
    if n == 4 {
      assert (4 * q) % 4 == 0;
    } else {
      assert (100 * q) % 100 == 0;
    }
  }

  /** Going one year up, a leap-cycle count grows by one exactly when the new year count is a multiple of the cycle. */
  lemma DivStep(k: int, n: int)
    requires n == 4 || n == 100 || n == 400
    ensures (k + 1) / n - k / n == (if (k + 1) % n == 0 then 1 else 0)
  {
    if n == 4 {
      assert (k + 1) / 4 - k / 4 == (if (k + 1) % 4 == 0 then 1 else 0);
    } else if n == 100 {
      assert (k + 1) / 100 - k / 100 == (if (k + 1) % 100 == 0 then 1 else 0);
    } else {
      assert (k + 1) / 400 - k / 400 == (if (k + 1) % 400 == 0 then 1 else 0);
    }
  }

  /** A date's day number falls inside its own year. */
  lemma OrdinalInYear(d: Date)
    ensures FirstDay(d.year) <= Ordinal(d) < FirstDay(d.year + 1)
  {
    YearLength(d.year);
  }

  /**
   * Week 1 as ISO 8601 defines it: `Week1Monday(y)` is a Monday, and the Thursday of its week is
   * among the first seven days of `y`, so it is the year's first Thursday.
   */
  lemma Week1HoldsFirstThursday(y: int)
    ensures Weekday(Week1Monday(y)) == 0
    ensures FirstDay(y) <= Week1Monday(y) + 3 < FirstDay(y) + 7
  {
    NearestMonday(FirstDay(y));
  }

  /** Moving a day back to its Monday, or on to the next Monday when it is past Thursday, lands on a Monday at most three days away. */
  lemma NearestMonday(first: int)
    ensures var w := Weekday(first);
      var monday := if w > 3 then first - w + 7 else first - w;
      Weekday(monday) == 0 && first <= monday + 3 < first + 7
  {
    var w := Weekday(first);
    var q := (first + 6) / 7;
    assert first + 6 == 7 * q + w;
    assert (7 * q) % 7 == 0;
    assert (7 * q + 7) % 7 == 0;
  }

  /** Consecutive week-numbering years are 52 or 53 whole weeks apart. */
  lemma WeeksInIsoYear(y: int)
    ensures Week1Monday(y + 1) - Week1Monday(y) == 364 || Week1Monday(y + 1) - Week1Monday(y) == 371
  {
    YearLength(y);
    Week1HoldsFirstThursday(y);
    Week1HoldsFirstThursday(y + 1);
    var a, b := Week1Monday(y), Week1Monday(y + 1);
    assert (a + 6) % 7 == 0 && (b + 6) % 7 == 0;
    var qa, qb := (a + 6) / 7, (b + 6) / 7;
    assert b - a == 7 * (qb - qa);
  }

  /** `today` lies in the ISO year whose week 1 starts at `start` and whose successor's starts at `end`, on the week and weekday of `r`. */
  predicate InIsoYear(r: IsoDate, today: int, start: int, end: int) {
    && start <= today < end
    && today == start + 7 * (r.week - 1) + (r.weekday - 1)
    && 1 <= r.week <= 53 && 1 <= r.weekday <= 7
    && r.weekday == Weekday(today) + 1
  }

  /** Whole weeks and the remaining days since the Monday of week 1 place a day in its ISO year. */
  lemma WeeksSince(today: int, monday: int, next: int)
    requires monday <= today < next && Weekday(monday) == 0
    requires next - monday == 364 || next - monday == 371
    ensures InIsoYear(IsoDate(0, (today - monday) / 7 + 1, (today - monday) % 7 + 1), today, monday, next)
  {
    var q := (monday + 6) / 7;
    assert monday + 6 == 7 * q;
    var w, r := (today - monday) / 7, (today - monday) % 7;
    assert today - monday == 7 * w + r && 0 <= r < 7;
    assert today + 6 == 7 * (q + w) + r;
  }

  /**
   * The branches of `IsoWeekDate` pick the right ISO year: given three consecutive week-1
   * Mondays, each 52 or 53 weeks apart, and a day no more than three days before the middle one
   * and less than a week after the last, the result's year holds the day.
   */
  lemma IsoWeekDateCorrect(year: int, today: int, previous: int, monday: int, next: int, after: int)
    requires Weekday(previous) == 0 && Weekday(monday) == 0 && Weekday(next) == 0
    requires monday - previous == 364 || monday - previous == 371
    requires next - monday == 364 || next - monday == 371
    requires after - next == 364 || after - next == 371
    requires monday - 3 <= today < next + 7
    ensures var r := IsoWeekDate(year, today, previous, monday, next);
      && year - 1 <= r.year <= year + 1
      && (r.year == year - 1 ==> InIsoYear(r, today, previous, monday))
      && (r.year == year ==> InIsoYear(r, today, monday, next))
      && (r.year == year + 1 ==> InIsoYear(r, today, next, after) && today >= monday)
  {
    if today < monday {
      WeeksSince(today, previous, monday);
    } else if today >= next {
      WeeksSince(today, next, after);
      assert (today - monday) / 7 >= 52;
    } else {
      WeeksSince(today, monday, next);
    }
  }

  /** The conclusion of `IsoCalendarCorrect`, for one ISO date `r` of date `d`. */
  predicate IsIsoDateOf(r: IsoDate, d: Date) {
    && InIsoYear(r, Ordinal(d), Week1Monday(r.year), Week1Monday(r.year + 1))
    && d.year - 1 <= r.year <= d.year + 1 && 1 <= r.year
  }

  /** The week-1 Mondays around `y` are Mondays, 52 or 53 weeks apart. */
  lemma Week1Mondays(y: int)
    ensures Weekday(Week1Monday(y - 1)) == 0 && Weekday(Week1Monday(y)) == 0 && Weekday(Week1Monday(y + 1)) == 0
    ensures Week1Monday(y) - Week1Monday(y - 1) == 364 || Week1Monday(y) - Week1Monday(y - 1) == 371
    ensures Week1Monday(y + 1) - Week1Monday(y) == 364 || Week1Monday(y + 1) - Week1Monday(y) == 371
    ensures Week1Monday(y + 2) - Week1Monday(y + 1) == 364 || Week1Monday(y + 2) - Week1Monday(y + 1) == 371
  {
    Week1HoldsFirstThursday(y - 1);
    Week1HoldsFirstThursday(y);
    Week1HoldsFirstThursday(y + 1);
    WeeksInIsoYear(y - 1);
    WeeksInIsoYear(y);
    WeeksInIsoYear(y + 1);
  }

  /** A date lies at most three days before week 1 of its year and before the week after week 1 of the next; in year 1 not before it at all. */
  lemma OrdinalNearWeek1(d: Date)
    ensures Week1Monday(d.year) - 3 <= Ordinal(d) < Week1Monday(d.year + 1) + 7
    ensures d.year == 1 ==> Week1Monday(d.year) <= Ordinal(d)
  {
    OrdinalInYear(d);
    Week1HoldsFirstThursday(d.year);
    Week1HoldsFirstThursday(d.year + 1);
    assert Week1Monday(1) == 1 == FirstDay(1);
  }

  /**
   * `IsoCalendar` agrees with ISO 8601: the date lies in the week-numbering year whose week 1
   * starts at `Week1Monday(year)` and ends before the next one's, `week - 1` whole weeks after
   * that Monday, on the given weekday; the week is between 1 and 53.
   */
  lemma IsoCalendarCorrect(d: Date)
    ensures IsIsoDateOf(IsoCalendar(d), d)
  {
    OrdinalNearWeek1(d);
    IsoCalendarAt(d.year, Ordinal(d));
  }

  /** `IsoCalendarCorrect` for the day number `today` of a date in year `y`. */
  lemma IsoCalendarAt(y: int, today: int)
    requires 1 <= y && Week1Monday(y) - 3 <= today < Week1Monday(y + 1) + 7
    requires y == 1 ==> Week1Monday(y) <= today
    ensures var r := IsoWeekDate(y, today, Week1Monday(y - 1), Week1Monday(y), Week1Monday(y + 1));
      && InIsoYear(r, today, Week1Monday(r.year), Week1Monday(r.year + 1))
      && y - 1 <= r.year <= y + 1 && 1 <= r.year
  {
    Week1Mondays(y);
    var previous, monday, next, after := Week1Monday(y - 1), Week1Monday(y), Week1Monday(y + 1), Week1Monday(y + 2);
    IsoWeekDateCorrect(y, today, previous, monday, next, after);
    var r := IsoWeekDate(y, today, previous, monday, next);
    if r.year == y - 1 {
      assert Week1Monday(r.year) == previous && Week1Monday(r.year + 1) == monday;
    } else if r.year == y {
      assert Week1Monday(r.year) == monday && Week1Monday(r.year + 1) == next;
    } else {
      assert Week1Monday(r.year) == next && Week1Monday(r.year + 1) == after;
    }
  }

  /**
   * The week key `str(year) + str(week).zfill(2)`: the decimal ISO year followed by the ISO week
   * padded to two digits.
   */
  function WeekKey(year: nat, week: nat): (k: string)
    ensures Strings.IsDigits(k)
  {
    Strings.Decimal(year) + Strings.ZeroFill2(Strings.Decimal(week))
  }

  /** The year a week key was built from: the digits before the last two. */
  function KeyYear(k: string): nat
    requires |k| >= 2 && Strings.IsDigits(k)
  {
    Strings.DecimalValue(k[..|k| - 2])
  }

  /** The week a week key was built from: its last two digits. */
  function KeyWeek(k: string): nat
    requires |k| >= 2 && Strings.IsDigits(k)
  {
    Strings.DecimalValue(k[|k| - 2..])
  }

  /** A week key of a week below 100 ends in exactly two week digits, and reading it back gives its year and week. */
  lemma WeekKeyRoundTrip(year: nat, week: nat)
    requires week < 100
    ensures var k := WeekKey(year, week);
      && |k| == |Strings.Decimal(year)| + 2
      && KeyYear(k) == year && KeyWeek(k) == week
  {
    var k := WeekKey(year, week);
    Strings.ZeroFill2Value(week);
    Strings.DecimalRoundTrip(year);
    assert k[..|k| - 2] == Strings.Decimal(year);
    assert k[|k| - 2..] == Strings.ZeroFill2(Strings.Decimal(week));
  }

  /** Distinct ISO weeks get distinct keys, so grouping by the key is grouping by (year, week). */
  lemma WeekKeyInjective(y1: nat, w1: nat, y2: nat, w2: nat)
    requires w1 < 100 && w2 < 100 && WeekKey(y1, w1) == WeekKey(y2, w2)
    ensures y1 == y2 && w1 == w2
  {
    WeekKeyRoundTrip(y1, w1);
    WeekKeyRoundTrip(y2, w2);
  }

  /** A four-digit ISO year gives a six-character key. */
  lemma WeekKeyLength(year: nat, week: nat)
    requires 1000 <= year <= 9999 && week < 100
    ensures |WeekKey(year, week)| == 6
  {
    WeekKeyRoundTrip(year, week);
    assert |Strings.Decimal(year / 10)| == 3 by {
      assert |Strings.Decimal(year / 100)| == 2 by {
        assert |Strings.Decimal(year / 1000)| == 1;
      }
    }
  }

  /** 2025-01-15 is the Wednesday of ISO week 3 of 2025, whose key is "202503". */
  lemma WeekKeyExample()
    ensures IsoCalendar(CivilDate(2025, 1, 15)) == IsoDate(2025, 3, 3)
    ensures WeekKey(2025, 3) == "202503"
  {
    assert FirstDay(2025) == 739252 by {
      FirstDayClosedForm(2025);
    }
    assert Weekday(739252) == 2;
    assert Week1Monday(2025) == 739250;
    assert Ordinal(CivilDate(2025, 1, 15)) == 739266;
    assert Strings.Decimal(2025) == "2025";
  }
}

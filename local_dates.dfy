/**
 * The part of `java.time.LocalDate` the address book uses: the proleptic
 * Gregorian calendar of ISO 8601 (every year divisible by 4 is a leap year,
 * except centuries not divisible by 400), `LocalDate.of`'s validity check,
 * `isBefore`, `toEpochDay` as Java computes it, and
 * `ChronoUnit.DAYS.between`.
 */
module LocalDates {

  datatype Date = Date(year: int, month: int, day: int)

  /** `Year.MIN_VALUE` and `Year.MAX_VALUE`. */
  const MinYear := -999_999_999
  const MaxYear := 999_999_999

  /** Days from 0000-01-01 to 1970-01-01. */
  const DaysFrom0000To1970 := 719_528

  predicate IsLeapYear(y: int) {
    y % 4 == 0 && (y % 100 != 0 || y % 400 == 0)
  }

  function YearLength(y: int): int {
    if IsLeapYear(y) then 366 else 365
  }

  /** `Month.length(leapYear)`. */
  function MonthLength(y: int, m: int): int {
    if m == 2 then (if IsLeapYear(y) then 29 else 28)
    else if m == 4 || m == 6 || m == 9 || m == 11 then 30
    else 31
  }

  /** What `LocalDate.of(year, month, day)` accepts without `DateTimeException`. */
  predicate IsValid(d: Date) {
    && MinYear <= d.year <= MaxYear
    && 1 <= d.month <= 12
    && 1 <= d.day <= MonthLength(d.year, d.month)
  }

  /** A `LocalDate` always holds a valid date. */
  type LocalDate = d: Date | IsValid(d) witness Date(1970, 1, 1)

  /** `LocalDate.isBefore`: year first, then month, then day. */
  predicate IsBefore(a: Date, b: Date) {
    || a.year < b.year
    || (a.year == b.year && a.month < b.month)
    || (a.year == b.year && a.month == b.month && a.day < b.day)
  }

  /**
   * The leap days in the years from 0 up to `y` (for negative `y`, minus
   * those from `y` up to 0), as `toEpochDay` computes them. Java's
   * `y / -4` truncates; for negative `y` it equals `(-y) / 4` here.
   */
  function LeapDaysBefore(y: int): int {
    if y >= 0 then (y + 3) / 4 - (y + 99) / 100 + (y + 399) / 400
    else -((-y) / 4 - (-y) / 100 + (-y) / 400)
  }

  /** Days from 0000-01-01 to the first day of year `y`. */
  function YearStart(y: int): int {
    365 * y + LeapDaysBefore(y)
  }

  /**
   * Days from the first of the year to the first of month `m`; Java writes
   * it `(367 * m - 362) / 12` corrected by one or two days after February.
   * For 1 <= m the dividend is positive, where Java's and Dafny's `/` agree.
   */
  function MonthStart(y: int, m: int): int {
    (367 * m - 362) / 12 - (if m > 2 then (if IsLeapYear(y) then 1 else 2) else 0)
  }

  /** `LocalDate.toEpochDay`: days since 1970-01-01. */
  function EpochDay(d: Date): int {
    YearStart(d.year) + MonthStart(d.year, d.month) + d.day - 1 - DaysFrom0000To1970
  }

  /** `plusDays(1)` on a valid date. */
  function NextDay(d: Date): Date {
    if d.day < MonthLength(d.year, d.month) then Date(d.year, d.month, d.day + 1)
    else if d.month < 12 then Date(d.year, d.month + 1, 1)
    else Date(d.year + 1, 1, 1)
  }

  /** `ChronoUnit.DAYS.between(from, to)`. */
  function DaysBetween(from: LocalDate, to: LocalDate): int {
    EpochDay(to) - EpochDay(from)
  }

  // ------------------------------------------------------------ lemmas

  /** Counting up to `x` passes one more multiple of `k` exactly when `k` divides `x`. */
  lemma Crossing(x: int, k: int)
    requires x >= 1 && (k == 4 || k == 100 || k == 400)
    ensures x / k - (x - 1) / k == (if x % k == 0 then 1 else 0)
  {
  }

  lemma LeapDaysStepNonNegative(y: int)
    requires y >= 0
    ensures LeapDaysBefore(y + 1) == LeapDaysBefore(y) + (if IsLeapYear(y) then 1 else 0)
  {
    Crossing(y + 4, 4);
    Crossing(y + 100, 100);
    Crossing(y + 400, 400);
    assert (y + 4) % 4 == y % 4 && (y + 100) % 100 == y % 100 && (y + 400) % 400 == y % 400;
  }

  lemma LeapDaysStepNegative(y: int)
    requires y < -1
    ensures LeapDaysBefore(y + 1) == LeapDaysBefore(y) + (if IsLeapYear(y) then 1 else 0)
  {
    Crossing(-y, 4);
    Crossing(-y, 100);
    Crossing(-y, 400);
    assert (-y) % 4 == 0 <==> y % 4 == 0;
    assert (-y) % 100 == 0 <==> y % 100 == 0;
    assert (-y) % 400 == 0 <==> y % 400 == 0;
  }

  /** Each year adds one leap day exactly when it is a leap year. */
  lemma LeapDaysStep(y: int)
    ensures LeapDaysBefore(y + 1) == LeapDaysBefore(y) + (if IsLeapYear(y) then 1 else 0)
  {
    if y >= 0 {
      LeapDaysStepNonNegative(y);
    } else if y < -1 {
      LeapDaysStepNegative(y);
    }
  }

  /** A year is as long as the gap to the next year's start. */
  lemma YearStartStep(y: int)
    ensures YearStart(y + 1) == YearStart(y) + YearLength(y)
  {
    LeapDaysStep(y);
  }

  /** Years start at least 365 days apart. */
  lemma {:induction false} YearStartGap(y1: int, y2: int)
    requires y1 <= y2
    ensures YearStart(y1) + 365 * (y2 - y1) <= YearStart(y2)
    decreases y2 - y1
  {
    if y1 < y2 {
      YearStartGap(y1, y2 - 1);
      YearStartStep(y2 - 1);
    }
  }

  /** A month is as long as the gap to the next month's start. */
  lemma MonthStartStep(y: int, m: int)
    requires 1 <= m < 12
    ensures MonthStart(y, m + 1) == MonthStart(y, m) + MonthLength(y, m)
  {
  }

  /** Months start later the later they come. */
  lemma {:induction false} MonthStartGap(y: int, m1: int, m2: int)
    requires 1 <= m1 <= m2 <= 12
    ensures MonthStart(y, m1) + 28 * (m2 - m1) <= MonthStart(y, m2)
    decreases m2 - m1
  {
    if m1 < m2 {
      MonthStartGap(y, m1, m2 - 1);
      MonthStartStep(y, m2 - 1);
    }
  }

  /** The days of a valid date's year before it lie within the year. */
  lemma DayOfYearBounds(d: Date)
    requires IsValid(d)
    ensures 0 <= MonthStart(d.year, d.month) + d.day - 1
    ensures MonthStart(d.year, d.month) + d.day - 1 < YearLength(d.year)
  {
    MonthStartGap(d.year, 1, d.month);
    if d.month < 12 {
      MonthStartStep(d.year, d.month);
      MonthStartGap(d.year, d.month + 1, 12);
    }
  }

  /** `plusDays(1)` moves the epoch day forward by exactly one. */
  lemma EpochDayNext(d: Date)
    requires IsValid(d)
    ensures EpochDay(NextDay(d)) == EpochDay(d) + 1
  {
    if d.day < MonthLength(d.year, d.month) {
    } else if d.month < 12 {
      MonthStartStep(d.year, d.month);
    } else {
      YearStartStep(d.year);
    }
  }

  /** The day after a valid date is valid unless it leaves the supported years. */
  lemma NextDayValid(d: Date)
    requires IsValid(d) && d.year < MaxYear
    ensures IsValid(NextDay(d)) && IsBefore(d, NextDay(d))
  {
  }

  lemma BeforeMeansEarlier(a: Date, b: Date)
    requires IsValid(a) && IsValid(b) && IsBefore(a, b)
    ensures EpochDay(a) < EpochDay(b)
  {
    DayOfYearBounds(a);
    DayOfYearBounds(b);
    if a.year < b.year {
      YearStartStep(a.year);
      YearStartGap(a.year + 1, b.year);
    } else if a.month < b.month {
      MonthStartStep(a.year, a.month);
      MonthStartGap(a.year, a.month + 1, b.month);
    }
  }

  /**
   * The epoch day orders valid dates as `isBefore` does, and tells them
   * apart: it is a faithful numbering of the calendar.
   */
  lemma EpochDayOrder(a: LocalDate, b: LocalDate)
    ensures IsBefore(a, b) <==> EpochDay(a) < EpochDay(b)
    ensures a == b <==> EpochDay(a) == EpochDay(b)
  {
    if IsBefore(a, b) {
      BeforeMeansEarlier(a, b);
    } else if a != b {
      assert IsBefore(b, a);
      BeforeMeansEarlier(b, a);
    }
  }

  /** `DAYS.between` is positive exactly when the first date comes first. */
  lemma DaysBetweenSign(from: LocalDate, to: LocalDate)
    ensures DaysBetween(from, to) > 0 <==> IsBefore(from, to)
    ensures DaysBetween(from, to) == 0 <==> from == to
    ensures DaysBetween(to, from) == -DaysBetween(from, to)
  {
    EpochDayOrder(from, to);
  }

  /** From a date to the next is one day, across month, year and leap-day ends. */
  lemma DaysBetweenNext(d: LocalDate)
    requires d.year < MaxYear
    ensures IsValid(NextDay(d)) && DaysBetween(d, NextDay(d)) == 1
  {
    NextDayValid(d);
    EpochDayNext(d);
  }

  /** The epoch is day zero. */
  lemma EpochIsDayZero()
    ensures EpochDay(Date(1970, 1, 1)) == 0
  {
  }
}

/**
 * Proleptic Gregorian calendar arithmetic used by the date picker: leap years,
 * month and year lengths, the ordinal day of the year, and the ISO 8601 day of
 * the week (Monday = 1 ... Sunday = 7).
 */
module Calendar {

  /** A calendar date: year, month of the year 1..12, day of the month. */
  datatype Date = Date(year: int, month: int, day: int)

  /** The Gregorian leap-year rule: every fourth year, but of the century years only every fourth. */
  predicate IsLeapYear(year: int): (leap: bool)
    ensures year % 4 != 0 ==> !leap
    ensures year % 4 == 0 && year % 100 != 0 ==> leap
    ensures year % 100 == 0 ==> (leap <==> (year / 100) % 4 == 0)
  {
    year % 4 == 0 && (year % 100 != 0 || year % 400 == 0)
  }

  /** Number of days in `year`: one more than 365 exactly in leap years. */
  function LengthOfYear(year: int): (n: int)
    ensures n == 365 || n == 366
    ensures n == 366 <==> IsLeapYear(year)
  {
    if IsLeapYear(year) then 366 else 365
  }

  /** Number of days in `month` of `year`. */
  function LengthOfMonth(year: int, month: int): (n: int)
    requires 1 <= month <= 12
    ensures 28 <= n <= 31
    ensures month == 2 ==> (n == 29 <==> IsLeapYear(year)) && (n == 28 <==> !IsLeapYear(year))
    ensures month != 2 ==> n != 28 && n != 29
  {
    if month == 2 then (if IsLeapYear(year) then 29 else 28)
    else if month == 4 || month == 6 || month == 9 || month == 11 then 30
    else 31
  }

  predicate ValidDate(d: Date) {
    1 <= d.month <= 12 && 1 <= d.day <= LengthOfMonth(d.year, d.month)
  }

  /** Days of `year` that come before the first of `month`. */
  function DaysBeforeMonth(year: int, month: int): int
    requires 1 <= month <= 12
  {
    var common :=
      if month == 1 then 0 else if month == 2 then 31 else if month == 3 then 59
      else if month == 4 then 90 else if month == 5 then 120 else if month == 6 then 151
      else if month == 7 then 181 else if month == 8 then 212 else if month == 9 then 243
      else if month == 10 then 273 else if month == 11 then 304 else 334;
    common + (if month > 2 && IsLeapYear(year) then 1 else 0)
  }

  /** The months, laid end to end, fill the year exactly. */
  lemma {:induction false} MonthsTileYear(year: int, month: int)
    requires 1 <= month <= 12
    ensures month < 12 ==> DaysBeforeMonth(year, month + 1) == DaysBeforeMonth(year, month) + LengthOfMonth(year, month)
    ensures month == 12 ==> DaysBeforeMonth(year, month) + LengthOfMonth(year, month) == LengthOfYear(year)
    ensures 31 * (month - 1) - 3 * (month - 1) <= DaysBeforeMonth(year, month) <= 31 * (month - 1)
  {
  }

  /** Ordinal day of the year, 1 for the first of January. */
  function DayOfYear(d: Date): (n: int)
    requires ValidDate(d)
    ensures 1 <= n <= LengthOfYear(d.year)
  {
    MonthsTileYear(d.year, 12);
    DaysBeforeMonth(d.year, d.month) + d.day
  }

  /**
   * The date with ordinal day `n` in `year`: the month is first guessed
   * from `(n - 1) / 31` and moved on by one when `n` lies past its end.
   */
  function DateOfYearDay(year: int, n: int): (d: Date)
    requires 1 <= n <= LengthOfYear(year)
    ensures ValidDate(d) && d.year == year && DayOfYear(d) == n
  {
    var guess := (n - 1) / 31 + 1;
    MonthsTileYear(year, guess);
    var month := if n > DaysBeforeMonth(year, guess) + LengthOfMonth(year, guess) then guess + 1 else guess;
    assert month <= 12;
    MonthsTileYear(year, month);
    Date(year, month, n - DaysBeforeMonth(year, month))
  }

  /** Within one year, two valid dates with the same ordinal day are the same date. */
  lemma {:induction false} DayOfYearInjective(a: Date, b: Date)
    requires ValidDate(a) && ValidDate(b) && a.year == b.year
    requires DayOfYear(a) == DayOfYear(b)
    ensures a == b
  {
    if a.month < b.month {
      DaysBeforeMonthGrows(a.year, a.month, b.month);
      assert false;
    } else if b.month < a.month {
      DaysBeforeMonthGrows(a.year, b.month, a.month);
      assert false;
    }
  }

  /** A later month starts after the whole of an earlier month has passed. */
  lemma {:induction false} DaysBeforeMonthGrows(year: int, m1: int, m2: int)
    requires 1 <= m1 < m2 <= 12
    ensures DaysBeforeMonth(year, m1) + LengthOfMonth(year, m1) <= DaysBeforeMonth(year, m2)
    decreases m2 - m1
  {
    MonthsTileYear(year, m1);
    if m1 + 1 < m2 {
      DaysBeforeMonthGrows(year, m1 + 1, m2);
    }
  }

  /** Going from a date to its ordinal day and back gives the same date. */
  lemma {:induction false} DateOfYearDayRoundTrip(d: Date)
    requires ValidDate(d)
    ensures DateOfYearDay(d.year, DayOfYear(d)) == d
  {
    DayOfYearInjective(DateOfYearDay(d.year, DayOfYear(d)), d);
  }

  /** Days from the first of January of year 1 to the first of January of `year`. */
  function DaysBeforeYear(year: int): int {
    var y := year - 1;
    365 * y + y / 4 - y / 100 + y / 400
  }

  /** Days elapsed since 0001-01-01, which was a Monday. */
  function DayNumber(d: Date): int
    requires ValidDate(d)
  {
    DaysBeforeYear(d.year) + DayOfYear(d) - 1
  }

  /** ISO 8601 day of the week: Monday = 1, ..., Sunday = 7. */
  function IsoWeekday(d: Date): (w: int)
    requires ValidDate(d)
    ensures 1 <= w <= 7
  {
    DayNumber(d) % 7 + 1
  }

  /** The day after `d`. */
  function NextDay(d: Date): (e: Date)
    requires ValidDate(d)
    ensures ValidDate(e)
  {
    if d.day < LengthOfMonth(d.year, d.month) then Date(d.year, d.month, d.day + 1)
    else if d.month < 12 then Date(d.year, d.month + 1, 1)
    else Date(d.year + 1, 1, 1)
  }

  /** One step of a floor division by a positive constant, for the year-length sum. */
  lemma {:induction false} DivStep(z: int)
    ensures (z + 1) / 4 - z / 4 == if (z + 1) % 4 == 0 then 1 else 0
    ensures (z + 1) / 100 - z / 100 == if (z + 1) % 100 == 0 then 1 else 0
    ensures (z + 1) / 400 - z / 400 == if (z + 1) % 400 == 0 then 1 else 0
  {
  }

  /** The year's days follow each other: a year is LengthOfYear days long. */
  lemma {:induction false} YearsFollowEachOther(year: int)
    ensures DaysBeforeYear(year + 1) == DaysBeforeYear(year) + LengthOfYear(year)
  {
    DivStep(year - 1);
    DivisorsNest(year);
    var y := year - 1;
    assert DaysBeforeYear(year + 1) - DaysBeforeYear(year) == 365 + ((y + 1) / 4 - y / 4) - ((y + 1) / 100 - y / 100) + ((y + 1) / 400 - y / 400);
  }

  /** A multiple of 400 is a multiple of 100, and a multiple of 100 one of 4. */
  lemma {:induction false} DivisorsNest(n: int)
    ensures n % 400 == 0 ==> n % 100 == 0
    ensures n % 100 == 0 ==> n % 4 == 0
  {
    if n % 400 == 0 {
      var q := n / 400;
      assert n == 400 * q;
      assert n == 100 * (4 * q) + 0;
    }
    if n % 100 == 0 {
      var q := n / 100;
      assert n == 100 * q;
      assert n == 4 * (25 * q) + 0;
    }
  }

  /** The day number counts days: the next day's number is one more. */
  lemma {:induction false} NextDayNumber(d: Date)
    requires ValidDate(d)
    ensures DayNumber(NextDay(d)) == DayNumber(d) + 1
  {
    MonthsTileYear(d.year, d.month);
    if d.day == LengthOfMonth(d.year, d.month) && d.month == 12 {
      YearsFollowEachOther(d.year);
    }
  }

  /** The weekday cycles Monday, ..., Sunday, Monday across every day boundary. */
  lemma {:induction false} WeekdayAdvances(d: Date)
    requires ValidDate(d)
    ensures IsoWeekday(NextDay(d)) == IsoWeekday(d) % 7 + 1
  {
    NextDayNumber(d);
    ShiftMod7(DayNumber(d), 1);
  }

  /** Shifting a number by `k` shifts its remainder modulo 7 by `k`. */
  lemma {:induction false} ShiftMod7(n: int, k: int)
    ensures (n + k) % 7 == (n % 7 + k) % 7
  {
    var q := n / 7;
    assert n == 7 * q + n % 7;
    assert n + k == 7 * q + (n % 7 + k);
  }

  /** Within a month the weekday of day `day` is that of the first shifted by `day - 1`. */
  lemma {:induction false} WeekdayInMonth(year: int, month: int, day: int)
    requires 1 <= month <= 12 && 1 <= day <= LengthOfMonth(year, month)
    ensures IsoWeekday(Date(year, month, day)) - 1 == (IsoWeekday(Date(year, month, 1)) - 1 + day - 1) % 7
  {
    ShiftMod7(DayNumber(Date(year, month, 1)), day - 1);
  }

  /** The numbering matches the calendar: 1970-01-01 was a Thursday, 2000-01-01 a Saturday, 2024-09-01 a Sunday and 2024-07-01 a Monday. */
  lemma {:induction false} WeekdayAnchors()
    ensures IsoWeekday(Date(1970, 1, 1)) == 4
    ensures IsoWeekday(Date(2000, 1, 1)) == 6
    ensures IsoWeekday(Date(2024, 9, 1)) == 7
    ensures IsoWeekday(Date(2024, 7, 1)) == 1
  {
  }
}

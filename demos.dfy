/**
 * The validators of the demo application, and what the picker does with
 * them; plus a validator that shows the arrow search reading the wrong year.
 * Validators only ever receive valid dates, so each one also checks
 * `ValidDate` to stay a total predicate.
 */
module Demos {
  import opened Calendar
  import opened Validation
  import opened YearRanges
  import opened Paging

  /** Accepts Monday to Friday. */
  predicate Weekdays(d: Date) {
    ValidDate(d) && IsoWeekday(d) != 6 && IsoWeekday(d) != 7
  }

  /** One of the first three days of every month is a weekday. */
  lemma {:induction false} WeekdayEveryMonth(year: int, month: int)
    requires 1 <= month <= 12
    ensures MonthHasAcceptedDay(Weekdays, year, month)
  {
    WeekdayInMonth(year, month, 2);
    WeekdayInMonth(year, month, 3);
    var w := IsoWeekday(Date(year, month, 1));
    var day := if w == 6 then 3 else if w == 7 then 2 else 1;
    assert Weekdays(Date(year, month, day));
  }

  /** With the weekday validator every year has an accepted date, so the range stays 1900..2100. */
  lemma {:induction false} WeekdaysKeepDefaultRange(todayYear: int)
    ensures ResolveYearRange(Some(Weekdays), todayYear) == YearRange(DefaultFirst, DefaultLast)
  {
    forall year | DefaultFirst <= year <= DefaultLast
      ensures YearHasAcceptedDate(Weekdays, year)
    {
      WeekdayEveryMonth(year, 1);
      var day :| 1 <= day <= LengthOfMonth(year, 1) && Weekdays(Date(year, 1, day));
      assert ValidDate(Date(year, 1, day));
    }
    EveryYearAccepted(Weekdays, DefaultFirst, DefaultLast, todayYear);
  }

  /** With the weekday validator an arrow is enabled exactly when its target page exists. */
  lemma {:induction false} WeekdayArrows(pageCount: int, currentPage: int, delta: int)
    requires 0 <= currentPage < pageCount && (delta == 1 || delta == -1)
    ensures CanGoNextPage(Some(Weekdays), DefaultFirst, pageCount, currentPage, delta)
      <==> 0 <= currentPage + delta < pageCount
  {
    var target := currentPage + delta;
    CanGoNextPageMeaning(Weekdays, DefaultFirst, pageCount, currentPage, delta);
    if 0 <= target < pageCount {
      WeekdayEveryMonth(PageYear(DefaultFirst, target), target % 12 + 1);
      assert Scanned(pageCount, target, delta, target);
    }
  }

  /** `a` is on or before `b`: LocalDate's order, by year, then month, then day. */
  predicate OnOrBefore(a: Date, b: Date) {
    a.year < b.year || (a.year == b.year && (a.month < b.month || (a.month == b.month && a.day <= b.day)))
  }

  /** Accepts February 10 to April 20 of `todayYear`. */
  predicate SpringWindow(todayYear: int, d: Date) {
    ValidDate(d) && OnOrBefore(Date(todayYear, 2, 10), d) && OnOrBefore(d, Date(todayYear, 4, 20))
  }

  /** The months of the window: February, March and April of the current year. */
  lemma {:induction false} SpringWindowMonths(todayYear: int, year: int, month: int)
    requires 1 <= month <= 12
    ensures MonthHasAcceptedDay(d => SpringWindow(todayYear, d), year, month) <==> year == todayYear && 2 <= month <= 4
  {
    var f := d => SpringWindow(todayYear, d);
    if year == todayYear && 2 <= month <= 4 {
      var day := if month == 2 then 10 else 1;
      assert f(Date(year, month, day));
    }
  }

  /** The window's range is the current year alone, whether or not that year lies in 1900..2100. */
  lemma {:induction false} SpringWindowRange(todayYear: int)
    ensures ResolveYearRange(Some(d => SpringWindow(todayYear, d)), todayYear) == YearRange(todayYear, todayYear)
  {
    var f := d => SpringWindow(todayYear, d);
    var r := ResolveYearRange(Some(f), todayYear);
    if SomeYearAccepted(f, DefaultFirst, DefaultLast) {
      forall year | YearHasAcceptedDate(f, year) ensures year == todayYear {
        var d :| ValidDate(d) && d.year == year && f(d);
      }
    }
  }

  /** With the window in a one-year range, the next arrow is enabled on January to March. */
  lemma {:induction false} SpringWindowForward(todayYear: int, currentPage: int)
    requires 0 <= currentPage < 12
    ensures CanGoNextPage(Some(d => SpringWindow(todayYear, d)), todayYear, 12, currentPage, 1) <==> currentPage <= 2
  {
    var f := d => SpringWindow(todayYear, d);
    var target := currentPage + 1;
    CanGoNextPageMeaning(f, todayYear, 12, currentPage, 1);
    if target < 12 {
      assert PageYear(todayYear, target) == todayYear;
      if currentPage <= 2 {
        SpringWindowMonths(todayYear, todayYear, 4);
        assert Scanned(12, target, 1, 3);
      }
      if k :| Scanned(12, target, 1, k) && MonthHasAcceptedDay(f, todayYear, k % 12 + 1) {
        SpringWindowMonths(todayYear, todayYear, k % 12 + 1);
      }
    }
  }

  /** With the window in a one-year range, the previous arrow is enabled on March to December. */
  lemma {:induction false} SpringWindowBackward(todayYear: int, currentPage: int)
    requires 0 <= currentPage < 12
    ensures CanGoNextPage(Some(d => SpringWindow(todayYear, d)), todayYear, 12, currentPage, -1) <==> currentPage >= 2
  {
    var f := d => SpringWindow(todayYear, d);
    var target := currentPage - 1;
    CanGoNextPageMeaning(f, todayYear, 12, currentPage, -1);
    if target >= 0 {
      assert PageYear(todayYear, target) == todayYear;
      if currentPage >= 2 {
        SpringWindowMonths(todayYear, todayYear, 2);
        assert Scanned(12, target, -1, 1);
      }
      if k :| Scanned(12, target, -1, k) && MonthHasAcceptedDay(f, todayYear, k % 12 + 1) {
        SpringWindowMonths(todayYear, todayYear, k % 12 + 1);
      }
    }
  }

  /** Accepts only January of `first` and January of `first + 2`. */
  predicate TwoJanuaries(first: int, d: Date) {
    ValidDate(d) && (d.year == first || d.year == first + 2) && d.month == 1
  }

  /** The range of `TwoJanuaries` with `first` in 1900..2098 is `first..first + 2`, 36 pages. */
  lemma {:induction false} TwoJanuariesRange(first: int, todayYear: int)
    requires DefaultFirst <= first <= DefaultLast - 2
    ensures ResolveYearRange(Some(d => TwoJanuaries(first, d)), todayYear) == YearRange(first, first + 2)
    ensures PageCount(first, first + 2) == 36
  {
    var f := d => TwoJanuaries(first, d);
    assert YearHasAcceptedDate(f, first) by {
      assert f(Date(first, 1, 1));
    }
    assert YearHasAcceptedDate(f, first + 2) by {
      assert f(Date(first + 2, 1, 1));
    }
    assert SomeYearAccepted(f, DefaultFirst, DefaultLast);
  }

  /**
   * On page 13 (February of the middle year) both searches read every page
   * as a month of the middle year, which has no accepted date, so both arrows
   * are disabled; the intended rule finds the January behind and the one ahead.
   */
  lemma {:induction false} MiddleYearDisablesArrows(first: int)
    ensures !CanGoNextPage(Some(d => TwoJanuaries(first, d)), first, 36, 13, -1)
    ensures !CanGoNextPage(Some(d => TwoJanuaries(first, d)), first, 36, 13, 1)
    ensures IntendedCanGoNextPage(Some(d => TwoJanuaries(first, d)), first, 36, 13, -1)
    ensures IntendedCanGoNextPage(Some(d => TwoJanuaries(first, d)), first, 36, 13, 1)
  {
    var f := d => TwoJanuaries(first, d);
    MiddleYearSearch(first, 12, -1);
    MiddleYearSearch(first, 14, 1);
    JanuaryPage(first, 0);
    assert Scanned(36, 12, -1, 0);
    JanuaryPage(first, 24);
    assert Scanned(36, 14, 1, 24);
  }

  /** A search from `target` in the middle year finds nothing. */
  lemma {:induction false} MiddleYearSearch(first: int, target: int, delta: int)
    requires 12 <= target < 24 && (delta == 1 || delta == -1)
    ensures !CanGoNextPage(Some(d => TwoJanuaries(first, d)), first, 36, target - delta, delta)
  {
    var f := d => TwoJanuaries(first, d);
    CanGoNextPageMeaning(f, first, 36, target - delta, delta);
    assert PageYear(first, target) == first + 1;
  }

  /** Pages 0 and 24 show the two accepted Januaries. */
  lemma {:induction false} JanuaryPage(first: int, k: int)
    requires k == 0 || k == 24
    ensures PageHasEnabledDay(Some(d => TwoJanuaries(first, d)), first, k)
  {
    var ym := PageToYearMonth(first, k);
    assert ym == (first + k / 12, 1);
    assert IsEnabled(Some(d => TwoJanuaries(first, d)), Date(ym.0, ym.1, 1));
  }
}

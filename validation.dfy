/**
 * The caller-supplied date validator and the scans the picker runs over it.
 * A validator is an optional pure predicate on dates; when it is absent every
 * date is enabled.
 */
module Validation {
  import opened Calendar
  import opened Ranges

  datatype Option<T> = None | Some(value: T)

  /** `allowedDateValidator: ((LocalDate) -> Boolean)?` */
  type Validator = Option<Date -> bool>

  /** A day cell is enabled when there is no validator or the validator accepts its date. */
  predicate IsEnabled(v: Validator, d: Date): (enabled: bool)
    ensures v.None? ==> enabled
    ensures v.Some? ==> (enabled <==> v.value(d))
  {
    match v
    case None => true
    case Some(f) => f(d)
  }

  /** Some day of `month` in `year` is accepted by `f`. */
  ghost predicate MonthHasAcceptedDay(f: Date -> bool, year: int, month: int)
    requires 1 <= month <= 12
  {
    exists day :: 1 <= day <= LengthOfMonth(year, month) && f(Date(year, month, day))
  }

  /** Some valid date of `year` is accepted by `f`. */
  ghost predicate YearHasAcceptedDate(f: Date -> bool, year: int) {
    exists d :: ValidDate(d) && d.year == year && f(d)
  }

  /** `days.map { Date(year, month, it) }.any(f)`. */
  function AnyDay(f: Date -> bool, year: int, month: int, days: seq<int>): (r: bool)
    ensures r <==> exists i :: 0 <= i < |days| && f(Date(year, month, days[i]))
  {
    if days == [] then false
    else f(Date(year, month, days[0])) || AnyDay(f, year, month, days[1..])
  }

  /**
   * The dates that `days.map { Date(year, month, it) }.any(f)` hands to `f`,
   * in order: `any` stops at the first accepted one.
   */
  function DayQueries(f: Date -> bool, year: int, month: int, days: seq<int>): (q: seq<Date>)
    ensures |q| <= |days|
    ensures forall i :: 0 <= i < |q| ==> q[i] == Date(year, month, days[i])
    ensures forall i :: 0 <= i < |q| - 1 ==> !f(q[i])
    ensures AnyDay(f, year, month, days) <==> exists i :: 0 <= i < |q| && f(q[i])
    ensures !AnyDay(f, year, month, days) ==> |q| == |days|
  {
    if days == [] then []
    else
      var d := Date(year, month, days[0]);
      if f(d) then [d] else [d] + DayQueries(f, year, month, days[1..])
  }

  /** Scanning a month's days in either order finds an accepted day exactly when the month has one. */
  lemma {:induction false} MonthScanMeaning(f: Date -> bool, year: int, month: int)
    requires 1 <= month <= 12
    ensures AnyDay(f, year, month, Span(1, LengthOfMonth(year, month))) <==> MonthHasAcceptedDay(f, year, month)
    ensures AnyDay(f, year, month, DownTo(LengthOfMonth(year, month), 1)) <==> MonthHasAcceptedDay(f, year, month)
  {
    var n := LengthOfMonth(year, month);
    if MonthHasAcceptedDay(f, year, month) {
      var day :| 1 <= day <= n && f(Date(year, month, day));
      assert Span(1, n)[day - 1] == day;
      assert DownTo(n, 1)[n - day] == day;
    }
  }

  /** `(1..lengthOfYear).map { firstOfYear.withDayOfYear(it) }.any(f)`. */
  function AnyDayOfYear(f: Date -> bool, year: int, ordinals: seq<int>): (r: bool)
    requires forall i :: 0 <= i < |ordinals| ==> 1 <= ordinals[i] <= LengthOfYear(year)
    ensures r <==> exists i :: 0 <= i < |ordinals| && f(DateOfYearDay(year, ordinals[i]))
  {
    if ordinals == [] then false
    else f(DateOfYearDay(year, ordinals[0])) || AnyDayOfYear(f, year, ordinals[1..])
  }

  /** Whether some day of `year`, visited by its ordinal, is accepted: the filter test of one year. */
  function YearHasAccepted(f: Date -> bool, year: int): (r: bool)
    ensures r <==> exists n :: 1 <= n <= LengthOfYear(year) && f(DateOfYearDay(year, n))
  {
    var ordinals := Span(1, LengthOfYear(year));
    assert AnyDayOfYear(f, year, ordinals) <==> exists n :: 1 <= n <= LengthOfYear(year) && f(DateOfYearDay(year, n)) by {
      if n :| 1 <= n <= LengthOfYear(year) && f(DateOfYearDay(year, n)) {
        assert ordinals[n - 1] == n;
      }
      if i :| 0 <= i < |ordinals| && f(DateOfYearDay(year, ordinals[i])) {
        assert 1 <= ordinals[i] <= LengthOfYear(year);
      }
    }
    AnyDayOfYear(f, year, ordinals)
  }

  /** Visiting the year by ordinal day reaches every valid date of the year and nothing else. */
  lemma {:induction false} YearScanMeaning(f: Date -> bool, year: int)
    ensures YearHasAccepted(f, year) <==> YearHasAcceptedDate(f, year)
  {
    var ordinals := Span(1, LengthOfYear(year));
    if YearHasAccepted(f, year) {
      var i :| 0 <= i < |ordinals| && f(DateOfYearDay(year, ordinals[i]));
      var d := DateOfYearDay(year, ordinals[i]);
      assert ValidDate(d) && d.year == year && f(d);
    }
    if YearHasAcceptedDate(f, year) {
      var d :| ValidDate(d) && d.year == year && f(d);
      DateOfYearDayRoundTrip(d);
      var n := DayOfYear(d);
      assert ordinals[n - 1] == n;
      assert f(DateOfYearDay(year, ordinals[n - 1]));
    }
  }

  /** A year has an accepted date exactly when one of its months has an accepted day. */
  lemma {:induction false} YearHasAcceptedMonth(f: Date -> bool, year: int)
    ensures YearHasAcceptedDate(f, year) <==> exists month :: 1 <= month <= 12 && MonthHasAcceptedDay(f, year, month)
  {
    if YearHasAcceptedDate(f, year) {
      var d :| ValidDate(d) && d.year == year && f(d);
      assert MonthHasAcceptedDay(f, year, d.month);
    }
    if exists month :: 1 <= month <= 12 && MonthHasAcceptedDay(f, year, month) {
      var month :| 1 <= month <= 12 && MonthHasAcceptedDay(f, year, month);
      var day :| 1 <= day <= LengthOfMonth(year, month) && f(Date(year, month, day));
      assert ValidDate(Date(year, month, day));
    }
  }
}

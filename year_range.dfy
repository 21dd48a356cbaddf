/**
 * The navigable year range of a picker session: 1900..2100 by default,
 * narrowed by a validator to the years that hold at least one accepted date.
 */
module YearRanges {
  import opened Calendar
  import opened Ranges
  import opened Validation

  /** An inclusive range of years, Kotlin's `IntRange(first, last)`. */
  datatype YearRange = YearRange(first: int, last: int)

  const DefaultFirst: int := 1900
  const DefaultLast: int := 2100

  /** Some year in `lo..hi` has a date that `f` accepts. */
  ghost predicate SomeYearAccepted(f: Date -> bool, lo: int, hi: int) {
    exists year :: lo <= year <= hi && YearHasAcceptedDate(f, year)
  }

  /** `r` is the smallest range holding every year of `lo..hi` that has an accepted date. */
  ghost predicate IsAcceptedHull(f: Date -> bool, lo: int, hi: int, r: YearRange) {
    && lo <= r.first <= r.last <= hi
    && YearHasAcceptedDate(f, r.first)
    && YearHasAcceptedDate(f, r.last)
    && forall year :: lo <= year <= hi && YearHasAcceptedDate(f, year) ==> r.first <= year <= r.last
  }

  /** `years.filter { year -> <some day of year is accepted> }`, keeping the order. */
  function AcceptingYears(f: Date -> bool, years: seq<int>): (r: seq<int>)
    ensures forall year :: year in r <==> year in years && YearHasAcceptedDate(f, year)
  {
    if years == [] then []
    else
      var rest := AcceptingYears(f, years[1..]);
      YearScanMeaning(f, years[0]);
      if YearHasAccepted(f, years[0]) then [years[0]] + rest else rest
  }

  /** `list.min()` of a non-empty list. */
  function Min(s: seq<int>): (m: int)
    requires s != []
    ensures m in s && forall x :: x in s ==> m <= x
  {
    if |s| == 1 then s[0]
    else
      var m := Min(s[1..]);
      assert s == [s[0]] + s[1..];
      if s[0] <= m then s[0] else m
  }

  /** `list.max()` of a non-empty list. */
  function Max(s: seq<int>): (m: int)
    requires s != []
    ensures m in s && forall x :: x in s ==> x <= m
  {
    if |s| == 1 then s[0]
    else
      var m := Max(s[1..]);
      assert s == [s[0]] + s[1..];
      if s[0] >= m then s[0] else m
  }

  /**
   * Narrow `lo..hi` to the years with an accepted date; when there is none,
   * fall back to the current year alone.
   */
  function ResolveOver(f: Date -> bool, lo: int, hi: int, todayYear: int): (r: YearRange)
    ensures r.first <= r.last
    ensures SomeYearAccepted(f, lo, hi) ==> IsAcceptedHull(f, lo, hi, r)
    ensures !SomeYearAccepted(f, lo, hi) ==> r == YearRange(todayYear, todayYear)
  {
    var years := AcceptingYears(f, Span(lo, hi));
    var candidates := if years == [] then [todayYear] else years;
    YearRange(Min(candidates), Max(candidates))
  }

  /** The year range of a session, computed once when the picker opens. */
  function ResolveYearRange(v: Validator, todayYear: int): (r: YearRange)
    ensures r.first <= r.last
    ensures v.None? ==> r == YearRange(DefaultFirst, DefaultLast)
    ensures v.Some? && SomeYearAccepted(v.value, DefaultFirst, DefaultLast) ==>
      IsAcceptedHull(v.value, DefaultFirst, DefaultLast, r)
    ensures v.Some? && !SomeYearAccepted(v.value, DefaultFirst, DefaultLast) ==>
      r == YearRange(todayYear, todayYear)
  {
    match v
    case None => YearRange(DefaultFirst, DefaultLast)
    case Some(f) => ResolveOver(f, DefaultFirst, DefaultLast, todayYear)
  }

  /** Resolving the resolved range again changes nothing: narrowing is a fixpoint. */
  lemma {:induction false} ResolveOverIdempotent(f: Date -> bool, lo: int, hi: int, todayYear: int)
    ensures var r := ResolveOver(f, lo, hi, todayYear);
            ResolveOver(f, r.first, r.last, todayYear) == r
  {
    var r := ResolveOver(f, lo, hi, todayYear);
    var r' := ResolveOver(f, r.first, r.last, todayYear);
    if SomeYearAccepted(f, lo, hi) {
      assert SomeYearAccepted(f, r.first, r.last) by {
        assert r.first <= r.first <= r.last && YearHasAcceptedDate(f, r.first);
      }
      assert r'.first <= r.first && r.last <= r'.last;
    } else if YearHasAcceptedDate(f, todayYear) {
      assert SomeYearAccepted(f, todayYear, todayYear);
    }
  }

  /** When every year of `lo..hi` has an accepted date, narrowing keeps the whole range. */
  lemma {:induction false} EveryYearAccepted(f: Date -> bool, lo: int, hi: int, todayYear: int)
    requires lo <= hi
    requires forall year :: lo <= year <= hi ==> YearHasAcceptedDate(f, year)
    ensures ResolveOver(f, lo, hi, todayYear) == YearRange(lo, hi)
  {
    assert lo <= lo <= hi && YearHasAcceptedDate(f, lo);
    assert YearHasAcceptedDate(f, hi);
  }
}

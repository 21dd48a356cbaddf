/**
 * The month pager: page numbers encode (year, month) pairs of the year range,
 * and `canGoNextPage` decides whether the previous/next arrows are enabled.
 */
module Paging {
  import opened Calendar
  import opened Ranges
  import opened Validation

  /** The page showing the month of `d`: `(year - first) * 12 + month - 1`. */
  function InitialPage(first: int, d: Date): (page: int)
    ensures 1 <= d.month <= 12 ==> page / 12 == d.year - first && page % 12 == d.month - 1
    ensures 1 <= d.month <= 12 ==> (page >= 0 <==> first <= d.year)
  {
    (d.year - first) * 12 + d.month - 1
  }

  /** Number of pages of the range `first..last`: twelve per year. */
  function PageCount(first: int, last: int): (n: int)
    ensures n % 12 == 0
    ensures n > 0 <==> first <= last
  {
    (last - first + 1) * 12
  }

  /**
   * The year of `page`: `first + page / 12`. Dafny's `/` rounds down and
   * Kotlin's truncates; the two agree on every page >= 0, and only such
   * pages are ever read.
   */
  function PageYear(first: int, page: int): (year: int)
    ensures (year - first) * 12 <= page < (year - first) * 12 + 12
  {
    first + page / 12
  }

  /** The (year, month) shown on `page`: `(first + page / 12, page % 12 + 1)`. */
  function PageToYearMonth(first: int, page: int): (ym: (int, int))
    requires page >= 0
    ensures 1 <= ym.1 <= 12 && first <= ym.0
    ensures (ym.0 - first) * 12 + ym.1 - 1 == page
  {
    (PageYear(first, page), page % 12 + 1)
  }

  /** Encoding a month of the range as a page and decoding it gives the month back. */
  lemma {:induction false} PageRoundTrip(first: int, d: Date)
    requires first <= d.year && 1 <= d.month <= 12
    ensures InitialPage(first, d) >= 0
    ensures PageToYearMonth(first, InitialPage(first, d)) == (d.year, d.month)
  {
    var p := InitialPage(first, d);
    assert p == 12 * (d.year - first) + (d.month - 1);
    assert p / 12 == d.year - first && p % 12 == d.month - 1;
  }

  /** The initial page is a page of the pager exactly when the initial year lies in the range. */
  lemma {:induction false} InitialPageInRange(first: int, last: int, d: Date)
    requires first <= last && 1 <= d.month <= 12
    ensures 0 <= InitialPage(first, d) < PageCount(first, last) <==> first <= d.year <= last
  {
  }

  /** Every page of the pager shows a month of the range. */
  lemma {:induction false} PageInRange(first: int, last: int, page: int)
    requires 0 <= page < PageCount(first, last)
    ensures first <= PageToYearMonth(first, page).0 <= last
  {
    var ym := PageToYearMonth(first, page);
    assert (ym.0 - first) * 12 <= page < (last - first + 1) * 12;
  }

  /**
   * The year picker's jump from `page` to year `year`: twelve pages per year
   * of difference, which keeps the month and lands on `year`.
   */
  function YearJumpPage(first: int, page: int, year: int): (p: int)
    requires page >= 0 && first <= year
    ensures 0 <= p < PageCount(first, year)
    ensures PageToYearMonth(first, p) == (year, PageToYearMonth(first, page).1)
  {
    var p := page + (year - PageYear(first, page)) * 12;
    assert p == (year - first) * 12 + page % 12;
    PageRoundTrip(first, Date(year, page % 12 + 1, 1));
    p
  }

  /** The order in which one month's days are tried: downward for a backward search. */
  function MonthDays(year: int, month: int, backward: bool): (days: seq<int>)
    requires 1 <= month <= 12
    ensures forall i :: 0 <= i < |days| ==> 1 <= days[i] <= LengthOfMonth(year, month)
  {
    if backward then DownTo(LengthOfMonth(year, month), 1) else Span(1, LengthOfMonth(year, month))
  }

  /**
   * `pages.any { k -> <some day of month k % 12 + 1 of year is accepted> }`: every
   * page scanned is read as a month of the one fixed `year`.
   */
  function AnyPage(f: Date -> bool, year: int, pages: seq<int>, backward: bool): (r: bool)
    requires forall i :: 0 <= i < |pages| ==> pages[i] >= 0
    ensures r <==> exists i :: 0 <= i < |pages| && MonthHasAcceptedDay(f, year, pages[i] % 12 + 1)
  {
    if pages == [] then false
    else
      var month := pages[0] % 12 + 1;
      MonthScanMeaning(f, year, month);
      AnyDay(f, year, month, MonthDays(year, month, backward)) || AnyPage(f, year, pages[1..], backward)
  }

  /** The dates the scan of `AnyPage` hands to `f`, in order, up to the first accepted one. */
  function PageQueries(f: Date -> bool, year: int, pages: seq<int>, backward: bool): (q: seq<Date>)
    requires forall i :: 0 <= i < |pages| ==> pages[i] >= 0
    ensures forall i :: 0 <= i < |q| ==> q[i].year == year
    ensures |q| <= 31 * |pages|
  {
    if pages == [] then []
    else
      var month := pages[0] % 12 + 1;
      var days := MonthDays(year, month, backward);
      if AnyDay(f, year, month, days) then DayQueries(f, year, month, days)
      else DayQueries(f, year, month, days) + PageQueries(f, year, pages[1..], backward)
  }

  /**
   * The scan decides from what it consults: it answers true exactly when one
   * of the consulted dates is accepted, and only the last one can be.
   */
  lemma {:induction false} PageQueriesDecide(f: Date -> bool, year: int, pages: seq<int>, backward: bool)
    requires forall i :: 0 <= i < |pages| ==> pages[i] >= 0
    ensures var q := PageQueries(f, year, pages, backward);
      && (forall i :: 0 <= i < |q| - 1 ==> !f(q[i]))
      && (AnyPage(f, year, pages, backward) <==> exists i :: 0 <= i < |q| && f(q[i]))
  {
    if pages != [] {
      var month := pages[0] % 12 + 1;
      var days := MonthDays(year, month, backward);
      MonthScanMeaning(f, year, month);
      if !AnyDay(f, year, month, days) {
        PageQueriesDecide(f, year, pages[1..], backward);
        RejectedPrefix(f, DayQueries(f, year, month, days), PageQueries(f, year, pages[1..], backward));
      }
    }
  }

  /** Putting dates that are all rejected in front of a trace keeps what it decides. */
  lemma {:induction false} RejectedPrefix(f: Date -> bool, here: seq<Date>, rest: seq<Date>)
    requires forall i :: 0 <= i < |here| ==> !f(here[i])
    requires forall i :: 0 <= i < |rest| - 1 ==> !f(rest[i])
    ensures forall i :: 0 <= i < |here + rest| - 1 ==> !f((here + rest)[i])
    ensures (exists i :: 0 <= i < |here + rest| && f((here + rest)[i])) <==> exists i :: 0 <= i < |rest| && f(rest[i])
  {
    var q := here + rest;
    assert forall i :: 0 <= i < |rest| ==> q[|here| + i] == rest[i];
    if exists i :: 0 <= i < |q| && f(q[i]) {
      var i :| 0 <= i < |q| && f(q[i]);
      assert f(rest[i - |here|]);
    }
  }

  /** `d` is a valid date of `year` in a month `k % 12 + 1` for some page `k` of `pages`. */
  ghost predicate FromScannedMonth(d: Date, year: int, pages: seq<int>) {
    && d.year == year
    && ValidDate(d)
    && exists k :: k in pages && d.month == k % 12 + 1
  }

  /** Every date of `q` is a valid date of `year` in a month named by a page of `pages`. */
  ghost predicate AllFromScannedMonths(q: seq<Date>, year: int, pages: seq<int>) {
    forall i :: 0 <= i < |q| ==> FromScannedMonth(q[i], year, pages)
  }

  /** Every date the scan consults lies in the fixed year, in a month named by a scanned page. */
  lemma {:induction false} PageQueriesFromScannedMonths(f: Date -> bool, year: int, pages: seq<int>, backward: bool)
    requires forall i :: 0 <= i < |pages| ==> pages[i] >= 0
    ensures AllFromScannedMonths(PageQueries(f, year, pages, backward), year, pages)
  {
    if pages != [] {
      var month := pages[0] % 12 + 1;
      var days := MonthDays(year, month, backward);
      var here := DayQueries(f, year, month, days);
      assert pages[0] in pages;
      assert AllFromScannedMonths(here, year, pages);
      if !AnyDay(f, year, month, days) {
        PageQueriesFromScannedMonths(f, year, pages[1..], backward);
        var rest := PageQueries(f, year, pages[1..], backward);
        FromFewerPages(rest, year, pages[1..], pages);
        assert PageQueries(f, year, pages, backward) == here + rest;
      }
    }
  }

  /** Dates from the months of some pages, followed by more such dates, are still from those months. */
  lemma {:induction false} FromFewerPages(q: seq<Date>, year: int, fewer: seq<int>, pages: seq<int>)
    requires AllFromScannedMonths(q, year, fewer)
    requires forall k :: k in fewer ==> k in pages
    ensures AllFromScannedMonths(q, year, pages)
    ensures forall here :: AllFromScannedMonths(here, year, pages) ==> AllFromScannedMonths(here + q, year, pages)
  {
    forall i | 0 <= i < |q| ensures FromScannedMonth(q[i], year, pages) {
      assert FromScannedMonth(q[i], year, fewer);
      var k :| k in fewer && q[i].month == k % 12 + 1;
      assert k in pages;
    }
    forall here | AllFromScannedMonths(here, year, pages)
      ensures AllFromScannedMonths(here + q, year, pages)
    {
      forall i | 0 <= i < |here + q| ensures FromScannedMonth((here + q)[i], year, pages) {
        if i >= |here| {
          assert (here + q)[i] == q[i - |here|];
        }
      }
    }
  }

  /** Page `k` is examined when searching from `target` in the direction of `delta`. */
  ghost predicate Scanned(pageCount: int, target: int, delta: int, k: int) {
    if delta < 0 then 0 <= k <= target else target <= k < pageCount
  }

  /** `target downTo 0` for a backward search, `target until pageCount` otherwise. */
  function SearchedPages(pageCount: int, target: int, delta: int): (pages: seq<int>)
    ensures forall k :: k in pages <==> Scanned(pageCount, target, delta, k)
    ensures delta < 0 || target >= 0 ==> forall i :: 0 <= i < |pages| ==> pages[i] >= 0
  {
    if delta < 0 then DownTo(target, 0) else Until(target, pageCount)
  }

  /**
   * Whether the arrow for `delta` should be enabled. Without a validator it
   * always is. With one, the pages from `target = currentPage + delta` down to
   * 0 (or up to the last page) are searched, but every page k is read as month
   * `k % 12 + 1` of the year of `target`.
   */
  function CanGoNextPage(v: Validator, first: int, pageCount: int, currentPage: int, delta: int): (r: bool)
    requires currentPage >= 0
    ensures v.None? ==> r
    ensures v.Some? && currentPage + delta < 0 ==> !r
    ensures v.Some? && currentPage + delta >= pageCount && delta >= 0 ==> !r
  {
    var target := currentPage + delta;
    match v
    case None => true
    // when target < 0 the search is empty and the year is never used
    case Some(f) => Search(f, PageYear(first, target), pageCount, target, delta)
  }

  /** The search of `canGoNextPage` from `target`, reading every page as a month of `year`. */
  function Search(f: Date -> bool, year: int, pageCount: int, target: int, delta: int): (r: bool)
    requires delta < 0 || target >= 0
    ensures delta < 0 && target < 0 ==> !r
    ensures delta >= 0 && target >= pageCount ==> !r
  {
    AnyPage(f, year, SearchedPages(pageCount, target, delta), delta < 0)
  }

  /**
   * With a validator, the arrow is enabled exactly when some scanned page k has
   * an accepted day in month `k % 12 + 1` of the year of the target page.
   */
  lemma {:induction false} CanGoNextPageMeaning(f: Date -> bool, first: int, pageCount: int, currentPage: int, delta: int)
    requires currentPage >= 0
    ensures var target := currentPage + delta;
      CanGoNextPage(Some(f), first, pageCount, currentPage, delta) <==>
      exists k :: Scanned(pageCount, target, delta, k) && MonthHasAcceptedDay(f, PageYear(first, target), k % 12 + 1)
  {
    var target := currentPage + delta;
    assert CanGoNextPage(Some(f), first, pageCount, currentPage, delta) == Search(f, PageYear(first, target), pageCount, target, delta);
    SearchMeaning(f, PageYear(first, target), pageCount, target, delta);
  }

  /** The search over the scanned pages, for a fixed year. */
  lemma {:induction false} SearchMeaning(f: Date -> bool, year: int, pageCount: int, target: int, delta: int)
    requires delta < 0 || target >= 0
    ensures Search(f, year, pageCount, target, delta) <==>
      exists k :: Scanned(pageCount, target, delta, k) && MonthHasAcceptedDay(f, year, k % 12 + 1)
  {
    var pages := SearchedPages(pageCount, target, delta);
    if Search(f, year, pageCount, target, delta) {
      var i :| 0 <= i < |pages| && MonthHasAcceptedDay(f, year, pages[i] % 12 + 1);
      assert Scanned(pageCount, target, delta, pages[i]);
    }
    if exists k :: Scanned(pageCount, target, delta, k) && MonthHasAcceptedDay(f, year, k % 12 + 1) {
      var k :| Scanned(pageCount, target, delta, k) && MonthHasAcceptedDay(f, year, k % 12 + 1);
      assert k in pages;
      var i :| 0 <= i < |pages| && pages[i] == k;
    }
  }

  /** Without a validator the arrows are always enabled; with one, the end pages disable theirs. */
  lemma {:induction false} CanGoNextPageAtEnds(v: Validator, first: int, pageCount: int, currentPage: int, delta: int)
    requires currentPage >= 0
    ensures v.None? ==> CanGoNextPage(v, first, pageCount, currentPage, delta)
    ensures v.Some? && currentPage == 0 && delta == -1 ==> !CanGoNextPage(v, first, pageCount, currentPage, delta)
    ensures v.Some? && currentPage == pageCount - 1 && delta == 1 ==> !CanGoNextPage(v, first, pageCount, currentPage, delta)
  {
  }

  /** The dates `canGoNextPage(delta)` hands to the validator `f`, in order. */
  function ConsultedDates(f: Date -> bool, first: int, pageCount: int, currentPage: int, delta: int): (q: seq<Date>)
    requires currentPage >= 0
    ensures CanGoNextPage(Some(f), first, pageCount, currentPage, delta) <==> exists i :: 0 <= i < |q| && f(q[i])
    ensures forall i :: 0 <= i < |q| - 1 ==> !f(q[i])
  {
    var target := currentPage + delta;
    var year := PageYear(first, target);
    assert CanGoNextPage(Some(f), first, pageCount, currentPage, delta) == Search(f, year, pageCount, target, delta);
    SearchQueries(f, year, pageCount, target, delta)
  }

  /** The dates the search from `target` consults, for a fixed year. */
  function SearchQueries(f: Date -> bool, year: int, pageCount: int, target: int, delta: int): (q: seq<Date>)
    requires delta < 0 || target >= 0
    ensures Search(f, year, pageCount, target, delta) <==> exists i :: 0 <= i < |q| && f(q[i])
    ensures forall i :: 0 <= i < |q| - 1 ==> !f(q[i])
  {
    var pages := SearchedPages(pageCount, target, delta);
    PageQueriesDecide(f, year, pages, delta < 0);
    PageQueries(f, year, pages, delta < 0)
  }

  /**
   * Every date `canGoNextPage(delta)` consults is a valid date of the target
   * page's year, in month `k % 12 + 1` for some scanned page `k`; no other year
   * is ever asked about.
   */
  lemma {:induction false} ConsultedDatesInTargetYear(f: Date -> bool, first: int, pageCount: int, currentPage: int, delta: int)
    requires currentPage >= 0
    ensures var target := currentPage + delta;
      var q := ConsultedDates(f, first, pageCount, currentPage, delta);
      forall i :: 0 <= i < |q| ==>
        && ValidDate(q[i])
        && q[i].year == PageYear(first, target)
        && exists k :: Scanned(pageCount, target, delta, k) && q[i].month == k % 12 + 1
  {
    var target := currentPage + delta;
    var year := PageYear(first, target);
    ScannedQueries(f, year, pageCount, target, delta);
    var q := SearchQueries(f, year, pageCount, target, delta);
    assert ConsultedDates(f, first, pageCount, currentPage, delta) == q;
    forall i | 0 <= i < |q|
      ensures ValidDate(q[i]) && q[i].year == year
      ensures exists k :: Scanned(pageCount, target, delta, k) && q[i].month == k % 12 + 1
    {
    }
  }

  /** The consulted dates of a search, for a fixed year. */
  lemma {:induction false} ScannedQueries(f: Date -> bool, year: int, pageCount: int, target: int, delta: int)
    requires delta < 0 || target >= 0
    ensures var q := SearchQueries(f, year, pageCount, target, delta);
      forall i :: 0 <= i < |q| ==>
        && ValidDate(q[i])
        && q[i].year == year
        && exists k :: Scanned(pageCount, target, delta, k) && q[i].month == k % 12 + 1
  {
    var pages := SearchedPages(pageCount, target, delta);
    var q := PageQueries(f, year, pages, delta < 0);
    PageQueriesFromScannedMonths(f, year, pages, delta < 0);
    forall i | 0 <= i < |q|
      ensures exists k :: Scanned(pageCount, target, delta, k) && q[i].month == k % 12 + 1
    {
      assert FromScannedMonth(q[i], year, pages);
      var k :| k in pages && q[i].month == k % 12 + 1;
      assert Scanned(pageCount, target, delta, k);
    }
  }

  /** The month shown on page `k` has a day that `v` enables. */
  ghost predicate PageHasEnabledDay(v: Validator, first: int, k: int)
    requires k >= 0
  {
    var ym := PageToYearMonth(first, k);
    exists day :: 1 <= day <= LengthOfMonth(ym.0, ym.1) && IsEnabled(v, Date(ym.0, ym.1, day))
  }

  /** `pages.any { k -> <some day of the month page k shows is enabled> }`. */
  function AnyEnabledPage(v: Validator, first: int, pages: seq<int>): (r: bool)
    requires forall i :: 0 <= i < |pages| ==> pages[i] >= 0
    ensures r <==> exists i :: 0 <= i < |pages| && PageHasEnabledDay(v, first, pages[i])
  {
    if pages == [] then false
    else
      var ym := PageToYearMonth(first, pages[0]);
      var enabled := d => IsEnabled(v, d);
      MonthScanMeaning(enabled, ym.0, ym.1);
      AnyDay(enabled, ym.0, ym.1, Span(1, LengthOfMonth(ym.0, ym.1))) || AnyEnabledPage(v, first, pages[1..])
  }

  /**
   * The arrow rule as the search evidently means it: each scanned page k is
   * read as the month it shows, `(first + k / 12, k % 12 + 1)`, and a page
   * outside the pager is never a destination.
   */
  function IntendedCanGoNextPage(v: Validator, first: int, pageCount: int, currentPage: int, delta: int): (r: bool)
    requires currentPage >= 0
    ensures r <==> exists k :: k >= 0 && Scanned(pageCount, currentPage + delta, delta, k) && PageHasEnabledDay(v, first, k)
  {
    var target := currentPage + delta;
    var pages := SearchedPages(pageCount, target, delta);
    EnabledPagesMeaning(v, first, pageCount, target, delta, pages);
    AnyEnabledPage(v, first, pages)
  }

  /** The pages searched from `target` are exactly the scanned pages of the pager. */
  lemma {:induction false} EnabledPagesMeaning(v: Validator, first: int, pageCount: int, target: int, delta: int, pages: seq<int>)
    requires pages == SearchedPages(pageCount, target, delta)
    requires forall i :: 0 <= i < |pages| ==> pages[i] >= 0
    ensures AnyEnabledPage(v, first, pages) <==>
      exists k :: k >= 0 && Scanned(pageCount, target, delta, k) && PageHasEnabledDay(v, first, k)
  {
    if AnyEnabledPage(v, first, pages) {
      var i :| 0 <= i < |pages| && PageHasEnabledDay(v, first, pages[i]);
      assert pages[i] in pages;
    }
    if exists k :: k >= 0 && Scanned(pageCount, target, delta, k) && PageHasEnabledDay(v, first, k) {
      var k :| k >= 0 && Scanned(pageCount, target, delta, k) && PageHasEnabledDay(v, first, k);
      assert k in pages;
      var i :| 0 <= i < |pages| && pages[i] == k;
    }
  }

  /** Without a validator, the intended rule enables an arrow exactly when its target page exists. */
  lemma {:induction false} IntendedWithoutValidator(first: int, pageCount: int, currentPage: int, delta: int)
    requires 0 <= currentPage < pageCount && (delta == 1 || delta == -1)
    ensures IntendedCanGoNextPage(None, first, pageCount, currentPage, delta) <==> 0 <= currentPage + delta < pageCount
  {
    var target := currentPage + delta;
    if 0 <= target < pageCount {
      var ym := PageToYearMonth(first, target);
      assert IsEnabled(None, Date(ym.0, ym.1, 1));
      assert PageHasEnabledDay(None, first, target);
    }
  }

  /** A page of the first year shows month `k + 1` of `first`. */
  lemma {:induction false} FirstYearPage(f: Date -> bool, first: int, k: int)
    requires 0 <= k < 12
    ensures PageHasEnabledDay(Some(f), first, k) <==> MonthHasAcceptedDay(f, first, k % 12 + 1)
  {
    assert k / 12 == 0 && k % 12 == k;
    assert PageToYearMonth(first, k) == (first, k + 1);
  }

  /**
   * When the range is a single year, every page lies in the year of the
   * target page, so the rule as written and the intended rule agree.
   */
  lemma {:induction false} SingleYearAgrees(f: Date -> bool, first: int, currentPage: int, delta: int)
    requires 0 <= currentPage < 12 && (delta == 1 || delta == -1)
    ensures CanGoNextPage(Some(f), first, 12, currentPage, delta) == IntendedCanGoNextPage(Some(f), first, 12, currentPage, delta)
  {
    var target := currentPage + delta;
    CanGoNextPageMeaning(f, first, 12, currentPage, delta);
    if 0 <= target < 12 {
      assert PageYear(first, target) == first;
      forall k | 0 <= k < 12
        ensures PageHasEnabledDay(Some(f), first, k) <==> MonthHasAcceptedDay(f, first, k % 12 + 1)
      {
        FirstYearPage(f, first, k);
      }
    }
  }
}

/**
 * One date-picker dialog with the rendering removed: the resolved year range,
 * the pager's current page, the two arrow flags recomputed on every page
 * change, the year-picker toggle and the selected date.
 */
module DatePicker {
  import opened Calendar
  import opened Validation
  import opened YearRanges
  import opened Paging
  import opened MonthGrid

  class Session {
    /** The caller's `allowedDateValidator`. */
    const validator: Validator
    /** The year range, resolved once when the picker is first shown. */
    const yearRange: YearRange
    /** The pager's page count, twelve pages per year of the range. */
    const pageCount: int
    /** The selected date; it starts as the initial date. */
    var selected: Date
    var yearPickerShowing: bool
    /** The pager's current page. */
    var currentPage: int
    /** Whether the previous-month arrow is enabled. */
    var canGoBackward: bool
    /** Whether the next-month arrow is enabled. */
    var canGoForward: bool

    /** The arrow flags are those `canGoNextPage(-1)` and `canGoNextPage(1)` give for the current page. */
    ghost predicate ArrowsFresh()
      reads this
      requires currentPage >= 0
    {
      && canGoBackward == CanGoNextPage(validator, yearRange.first, pageCount, currentPage, -1)
      && canGoForward == CanGoNextPage(validator, yearRange.first, pageCount, currentPage, 1)
    }

    /** The current page is a page of the pager, and the arrows reflect it. */
    ghost predicate Valid()
      reads this
    {
      && yearRange.first <= yearRange.last
      && pageCount == PageCount(yearRange.first, yearRange.last)
      && 0 <= currentPage < pageCount
      && ArrowsFresh()
    }

    /**
     * Opening the picker on `initialDate`: the year range is resolved with
     * `todayYear` as the fallback, the pager starts on the month of the
     * initial date, and the arrows are computed for that page.
     */
    constructor(initialDate: Date, validator: Validator, todayYear: int)
      requires ValidDate(initialDate)
      requires ResolveYearRange(validator, todayYear).first <= initialDate.year <= ResolveYearRange(validator, todayYear).last
      ensures Valid()
      ensures this.validator == validator && yearRange == ResolveYearRange(validator, todayYear)
      ensures selected == initialDate && !yearPickerShowing
      ensures currentPage == InitialPage(yearRange.first, initialDate)
      ensures ViewDate() == Date(initialDate.year, initialDate.month, 1)
    {
      this.validator := validator;
      var range := ResolveYearRange(validator, todayYear);
      yearRange := range;
      pageCount := PageCount(range.first, range.last);
      selected := initialDate;
      yearPickerShowing := false;
      InitialPageInRange(range.first, range.last, initialDate);
      PageRoundTrip(range.first, initialDate);
      currentPage := InitialPage(range.first, initialDate);
      canGoBackward := CanGoNextPage(validator, range.first, PageCount(range.first, range.last), InitialPage(range.first, initialDate), -1);
      canGoForward := CanGoNextPage(validator, range.first, PageCount(range.first, range.last), InitialPage(range.first, initialDate), 1);
    }

    /** The first of the month the current page shows. */
    function ViewDate(): (d: Date)
      reads this
      requires Valid()
      ensures ValidDate(d) && d.day == 1
      ensures yearRange.first <= d.year <= yearRange.last
      ensures InitialPage(yearRange.first, d) == currentPage
    {
      var ym := PageToYearMonth(yearRange.first, currentPage);
      PageInRange(yearRange.first, yearRange.last, currentPage);
      Date(ym.0, ym.1, 1)
    }

    /** The effect keyed on the current page: both arrow flags are recomputed. */
    method PageChanged()
      requires currentPage >= 0
      modifies this`canGoBackward, this`canGoForward
      ensures ArrowsFresh()
    {
      canGoBackward := CanGoNextPage(validator, yearRange.first, pageCount, currentPage, -1);
      canGoForward := CanGoNextPage(validator, yearRange.first, pageCount, currentPage, 1);
    }

    /**
     * A click on the previous-month arrow: ignored while the arrow is
     * disabled, and the page moves back by one only when that stays at or
     * above page 0.
     */
    method ClickPrev()
      requires Valid()
      modifies this`currentPage, this`canGoBackward, this`canGoForward
      ensures Valid()
      ensures currentPage == if old(canGoBackward) && old(currentPage) - 1 >= 0 then old(currentPage) - 1 else old(currentPage)
      ensures currentPage == old(currentPage) ==> canGoBackward == old(canGoBackward) && canGoForward == old(canGoForward)
    {
      if canGoBackward {
        if currentPage - 1 >= 0 {
          currentPage := currentPage - 1;
          PageChanged();
        }
      }
    }

    /**
     * A click on the next-month arrow: ignored while the arrow is disabled,
     * and the page moves on by one only when that stays below the page count.
     */
    method ClickNext()
      requires Valid()
      modifies this`currentPage, this`canGoBackward, this`canGoForward
      ensures Valid()
      ensures currentPage == if old(canGoForward) && old(currentPage) + 1 < pageCount then old(currentPage) + 1 else old(currentPage)
      ensures currentPage == old(currentPage) ==> canGoBackward == old(canGoBackward) && canGoForward == old(canGoForward)
    {
      if canGoForward {
        if currentPage + 1 < pageCount {
          currentPage := currentPage + 1;
          PageChanged();
        }
      }
    }

    /**
     * A click on year `item` of the year picker: when it is not the year
     * shown, the pager jumps twelve pages per year of difference, to the same
     * month of `item`; the picker is closed either way.
     */
    method PickYear(item: int)
      requires Valid()
      requires yearRange.first <= item <= yearRange.last
      modifies this`currentPage, this`canGoBackward, this`canGoForward, this`yearPickerShowing
      ensures Valid()
      ensures !yearPickerShowing
      ensures ViewDate() == Date(item, old(ViewDate()).month, 1)
      ensures item == old(ViewDate()).year ==> currentPage == old(currentPage)
    {
      var viewYear := ViewDate().year;
      var isShown := item == viewYear;
      if !isShown {
        currentPage := currentPage + (item - viewYear) * 12;
        assert currentPage == YearJumpPage(yearRange.first, old(currentPage), item);
        PageChanged();
      }
      yearPickerShowing := false;
    }

    /** A click on the header's year toggles the year picker. */
    method ToggleYearPicker()
      requires Valid()
      modifies this`yearPickerShowing
      ensures Valid()
      ensures yearPickerShowing == !old(yearPickerShowing)
    {
      yearPickerShowing := !yearPickerShowing;
    }

    /**
     * A click on the cell of day `day` of the month shown: the date becomes
     * the selection only when the cell is enabled.
     */
    method ClickDay(day: int)
      requires Valid()
      requires 1 <= day <= LengthOfMonth(ViewDate().year, ViewDate().month)
      modifies this`selected
      ensures Valid()
      ensures var date := Date(ViewDate().year, ViewDate().month, day);
        selected == if IsEnabled(validator, date) then date else old(selected)
      ensures selected != old(selected) ==> IsEnabled(validator, selected) && ValidDate(selected)
    {
      var date := Date(ViewDate().year, ViewDate().month, day);
      var enabled := IsEnabled(validator, date);
      if enabled {
        selected := date;
      }
    }

    /** The grid of the month shown, for a locale whose week starts on `firstDayOfWeek`. */
    method Grid(firstDayOfWeek: int, today: Date) returns (cells: seq<Cell>)
      requires Valid()
      requires 1 <= firstDayOfWeek <= 7
      ensures cells == MonthCells(ViewDate(), firstDayOfWeek, selected, validator, today)
    {
      cells := CalendarCells(ViewDate(), firstDayOfWeek, selected, validator, today);
    }
  }

  /**
   * With a validator, an arrow whose click would leave the pager is already
   * disabled; without one, the arrows stay enabled at the ends and only the
   * click handler's bound keeps the page in range.
   */
  lemma {:induction false} ArrowsAtEnds(s: Session)
    requires s.Valid()
    ensures s.validator.Some? && s.currentPage == 0 ==> !s.canGoBackward
    ensures s.validator.Some? && s.currentPage == s.pageCount - 1 ==> !s.canGoForward
    ensures s.validator.None? ==> s.canGoBackward && s.canGoForward
  {
    CanGoNextPageAtEnds(s.validator, s.yearRange.first, s.pageCount, s.currentPage, -1);
    CanGoNextPageAtEnds(s.validator, s.yearRange.first, s.pageCount, s.currentPage, 1);
  }
}

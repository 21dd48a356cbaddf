/**
 * The month grid: `getDates` gives the number of leading blank cells and the
 * month's length, and the calendar view lays out the blanks followed by one
 * cell per day, each marked selected, enabled and today.
 */
module MonthGrid {
  import opened Calendar
  import opened Validation

  /**
   * `getDates`: the offset `weekday(day 1) - firstDayOfWeek % 7` (the `%`
   * binds tighter than the `-`) and the length of the month. `firstDayOfWeek`
   * is the locale's first day of the week, Monday = 1, ..., Sunday = 7.
   */
  function GetDates(viewDate: Date, firstDayOfWeek: int): (r: (int, int))
    requires 1 <= viewDate.month <= 12 && 1 <= firstDayOfWeek <= 7
    ensures r.1 == LengthOfMonth(viewDate.year, viewDate.month)
    ensures -5 <= r.0 <= 7
    ensures firstDayOfWeek == 1 ==> 0 <= r.0 <= 6
    ensures firstDayOfWeek == 7 ==> 1 <= r.0 <= 7
    ensures var c := LeadingOffset(viewDate.year, viewDate.month, firstDayOfWeek);
      r.0 == c || r.0 == c + 7 || r.0 == c - 7
  {
    var first := Date(viewDate.year, viewDate.month, 1);
    (WrittenOffset(IsoWeekday(first), firstDayOfWeek), LengthOfMonth(viewDate.year, viewDate.month))
  }

  /**
   * The offset as `getDates` computes it from the first day's weekday `w`:
   * off by a multiple of 7 from the column `w` belongs in.
   */
  function WrittenOffset(w: int, firstDayOfWeek: int): (o: int)
    requires 1 <= w <= 7 && 1 <= firstDayOfWeek <= 7
    ensures -5 <= o <= 7
    ensures firstDayOfWeek == 1 ==> 0 <= o <= 6
    ensures firstDayOfWeek == 7 ==> 1 <= o <= 7
    ensures var c := ColumnOf(w, firstDayOfWeek); o == c || o == c + 7 || o == c - 7
    ensures Blanks(o) == ColumnOf(w, firstDayOfWeek) <==> 0 <= o <= 6
  {
    SevenModSeven(firstDayOfWeek);
    w - firstDayOfWeek % 7
  }

  /** Of the day numbers 1..7 only Sunday, 7, changes under `% 7`. */
  lemma {:induction false} SevenModSeven(n: int)
    requires 1 <= n <= 7
    ensures n % 7 == if n == 7 then 0 else n
  {
    if n != 7 {
      assert n == 7 * 0 + n;
    }
  }

  /** The weekday shown in column `c` (0..6) of the grid, whose first column is `firstDayOfWeek`. */
  function ColumnWeekday(firstDayOfWeek: int, c: int): (w: int)
    requires 1 <= firstDayOfWeek <= 7 && 0 <= c < 7
    ensures 1 <= w <= 7
    ensures c == 0 ==> w == firstDayOfWeek
  {
    if firstDayOfWeek + c <= 7 then firstDayOfWeek + c else firstDayOfWeek + c - 7
  }

  /**
   * The number of blanks that puts day 1 under the column of its own weekday:
   * how many days the first day of the week comes before the first of the month.
   */
  function LeadingOffset(year: int, month: int, firstDayOfWeek: int): (c: int)
    requires 1 <= month <= 12 && 1 <= firstDayOfWeek <= 7
    ensures 0 <= c < 7
    ensures ColumnWeekday(firstDayOfWeek, c) == IsoWeekday(Date(year, month, 1))
  {
    ColumnOf(IsoWeekday(Date(year, month, 1)), firstDayOfWeek)
  }

  /** The column of weekday `w` in a grid whose first column is `firstDayOfWeek`. */
  function ColumnOf(w: int, firstDayOfWeek: int): (c: int)
    requires 1 <= w <= 7 && 1 <= firstDayOfWeek <= 7
    ensures 0 <= c < 7
    ensures ColumnWeekday(firstDayOfWeek, c) == w
  {
    if w >= firstDayOfWeek then w - firstDayOfWeek else w - firstDayOfWeek + 7
  }

  /** Day `day` of the month, placed after `LeadingOffset` blanks, sits under its own weekday. */
  lemma {:induction false} DaysSitUnderTheirWeekday(year: int, month: int, firstDayOfWeek: int, day: int)
    requires 1 <= month <= 12 && 1 <= firstDayOfWeek <= 7 && 1 <= day <= LengthOfMonth(year, month)
    ensures ColumnWeekday(firstDayOfWeek, (LeadingOffset(year, month, firstDayOfWeek) + day - 1) % 7)
      == IsoWeekday(Date(year, month, day))
  {
    WeekdayInMonth(year, month, day);
    ColumnShift(IsoWeekday(Date(year, month, 1)), firstDayOfWeek, day - 1);
  }

  /** Moving `k` cells on from the column of weekday `w` reaches the column of the weekday `k` days later. */
  lemma {:induction false} ColumnShift(w: int, firstDayOfWeek: int, k: int)
    requires 1 <= w <= 7 && 1 <= firstDayOfWeek <= 7 && k >= 0
    ensures ColumnWeekday(firstDayOfWeek, (ColumnOf(w, firstDayOfWeek) + k) % 7) == (w - 1 + k) % 7 + 1
  {
    var c := ColumnOf(w, firstDayOfWeek);
    var f0 := firstDayOfWeek - 1;
    var j := (c + k) % 7;
    assert ColumnWeekday(firstDayOfWeek, j) == (f0 + j) % 7 + 1;
    ShiftMod7(c + k, f0);
    assert c + f0 == w - 1 || c + f0 == w - 1 + 7;
    ShiftMod7(w - 1 + k, 7);
  }

  /**
   * The grid emits `max(0, offset)` blanks, so it lays out the month correctly
   * exactly when the offset of `getDates` lands in 0..6.
   */
  lemma {:induction false} BlanksCorrectIff(viewDate: Date, firstDayOfWeek: int)
    requires 1 <= viewDate.month <= 12 && 1 <= firstDayOfWeek <= 7
    ensures var offset := GetDates(viewDate, firstDayOfWeek).0;
      Blanks(offset) == LeadingOffset(viewDate.year, viewDate.month, firstDayOfWeek) <==> 0 <= offset <= 6
  {
  }

  /** The offsets of the two rules agree for Monday-first weeks. */
  lemma {:induction false} MondayFirstAgrees(viewDate: Date)
    requires 1 <= viewDate.month <= 12
    ensures GetDates(viewDate, 1).0 == LeadingOffset(viewDate.year, viewDate.month, 1)
  {
    BlanksCorrectIff(viewDate, 1);
  }

  /** Sunday-first, September 2024 starts on a Sunday: `getDates` asks for a whole row of blanks. */
  lemma {:induction false} SundayFirstBlankRow()
    ensures GetDates(Date(2024, 9, 1), 7).0 == 7
    ensures LeadingOffset(2024, 9, 7) == 0
  {
    WeekdayAnchors();
  }

  /** Saturday-first, July 2024 starts on a Monday: the offset is negative and the two blanks are lost. */
  lemma {:induction false} SaturdayFirstMissingBlanks()
    ensures GetDates(Date(2024, 7, 1), 6).0 == -5
    ensures Blanks(GetDates(Date(2024, 7, 1), 6).0) == 0
    ensures LeadingOffset(2024, 7, 6) == 2
  {
    WeekdayAnchors();
    var w := IsoWeekday(Date(2024, 7, 1));
    assert w == 1;
    assert GetDates(Date(2024, 7, 1), 6).0 == w - 6;
    assert LeadingOffset(2024, 7, 6) == (w - 6 + 7) % 7;
  }

  /** `for (x in 0 until offset)` runs `max(0, offset)` times. */
  function Blanks(offset: int): (n: nat)
    ensures offset <= 0 ==> n == 0
    ensures offset >= 0 ==> n == offset
  {
    if offset < 0 then 0 else offset
  }

  /** One cell of the grid: a blank, or a day of the month with its three marks. */
  datatype Cell = Blank | Day(day: int, selected: bool, enabled: bool, today: bool)

  /** The cell of day `day` of the month `year`/`month`. */
  function DayCell(year: int, month: int, day: int, selected: Date, v: Validator, today: Date): (c: Cell)
    ensures c.Day? && c.day == day
    ensures c.selected <==> Date(year, month, day) == selected
    ensures c.enabled <==> IsEnabled(v, Date(year, month, day))
    ensures c.today <==> Date(year, month, day) == today
  {
    var date := Date(year, month, day);
    var possibleSelected := year == selected.year && month == selected.month;
    Day(day, possibleSelected && day == selected.day, IsEnabled(v, date), today == date)
  }

  /**
   * A grid of `max(0, offset)` blanks followed by the cells of days
   * 1..numDays of `year`/`month`, in order.
   */
  function GridCells(year: int, month: int, offset: int, numDays: nat, selected: Date, v: Validator, today: Date): (cells: seq<Cell>)
    ensures |cells| == Blanks(offset) + numDays
    ensures forall i :: 0 <= i < Blanks(offset) ==> cells[i] == Blank
    ensures forall i :: Blanks(offset) <= i < |cells| ==>
      cells[i] == DayCell(year, month, i - Blanks(offset) + 1, selected, v, today)
  {
    seq(Blanks(offset), _ => Blank) + seq(numDays, i => DayCell(year, month, i + 1, selected, v, today))
  }

  /** The grid of the month shown at `viewDate`, laid out from `getDates`. */
  function MonthCells(viewDate: Date, firstDayOfWeek: int, selected: Date, v: Validator, today: Date): (cells: seq<Cell>)
    requires 1 <= viewDate.month <= 12 && 1 <= firstDayOfWeek <= 7
    ensures var n := LengthOfMonth(viewDate.year, viewDate.month);
      && n <= |cells| <= n + 7
      && forall day :: 1 <= day <= n ==>
        cells[|cells| - n + day - 1] == DayCell(viewDate.year, viewDate.month, day, selected, v, today)
  {
    var dates := GetDates(viewDate, firstDayOfWeek);
    GridCells(viewDate.year, viewDate.month, dates.0, dates.1, selected, v, today)
  }

  /**
   * The calendar view's layout: the blank cells for the offset of
   * `getDates`, then one cell per day of `1..numDays`.
   */
  method CalendarCells(viewDate: Date, firstDayOfWeek: int, selected: Date, v: Validator, today: Date)
    returns (cells: seq<Cell>)
    requires 1 <= viewDate.month <= 12 && 1 <= firstDayOfWeek <= 7
    ensures cells == MonthCells(viewDate, firstDayOfWeek, selected, v, today)
  {
    var dates := GetDates(viewDate, firstDayOfWeek);
    cells := LayOut(viewDate.year, viewDate.month, dates.0, dates.1, selected, v, today);
  }

  /** The two layout loops: `for (x in 0 until offset)` blanks, then `items(datesList)`. */
  method LayOut(year: int, month: int, offset: int, numDays: nat, selected: Date, v: Validator, today: Date)
    returns (cells: seq<Cell>)
    ensures cells == GridCells(year, month, offset, numDays, selected, v, today)
  {
    ghost var grid := GridCells(year, month, offset, numDays, selected, v, today);
    cells := [];
    var x := 0;
    while x < offset
      invariant 0 <= x <= Blanks(offset)
      invariant |cells| == x
      invariant forall i :: 0 <= i < x ==> cells[i] == grid[i]
    {
      cells := cells + [Blank];
      x := x + 1;
    }
    var day := 1;
    while day <= numDays
      invariant 1 <= day <= numDays + 1
      invariant |cells| == Blanks(offset) + day - 1
      invariant forall i :: 0 <= i < |cells| ==> cells[i] == grid[i]
    {
      cells := cells + [DayCell(year, month, day, selected, v, today)];
      day := day + 1;
    }
  }

  /** A day cell of the month is enabled exactly when the validator enables its date. */
  lemma {:induction false} CellEnabledIff(viewDate: Date, firstDayOfWeek: int, selected: Date, v: Validator, today: Date, i: int)
    requires 1 <= viewDate.month <= 12 && 1 <= firstDayOfWeek <= 7
    requires 0 <= i < |MonthCells(viewDate, firstDayOfWeek, selected, v, today)|
    ensures var c := MonthCells(viewDate, firstDayOfWeek, selected, v, today)[i];
      c.Day? ==>
        && (c.enabled <==> IsEnabled(v, Date(viewDate.year, viewDate.month, c.day)))
        && (c.today <==> today == Date(viewDate.year, viewDate.month, c.day))
  {
    var dates := GetDates(viewDate, firstDayOfWeek);
    var cells := MonthCells(viewDate, firstDayOfWeek, selected, v, today);
    if i >= Blanks(dates.0) {
      assert cells[i] == DayCell(viewDate.year, viewDate.month, i - Blanks(dates.0) + 1, selected, v, today);
    }
  }

  /**
   * A day cell is marked selected exactly when its date is the selected date,
   * so at most one cell of a month is selected, and one is when the selected
   * date lies in the month shown.
   */
  lemma {:induction false} CellSelectedIff(viewDate: Date, firstDayOfWeek: int, selected: Date, v: Validator, today: Date, i: int)
    requires 1 <= viewDate.month <= 12 && 1 <= firstDayOfWeek <= 7
    requires 0 <= i < |MonthCells(viewDate, firstDayOfWeek, selected, v, today)|
    ensures var c := MonthCells(viewDate, firstDayOfWeek, selected, v, today)[i];
      c.Day? ==> (c.selected <==> Date(viewDate.year, viewDate.month, c.day) == selected)
  {
    var dates := GetDates(viewDate, firstDayOfWeek);
    var cells := MonthCells(viewDate, firstDayOfWeek, selected, v, today);
    if i >= Blanks(dates.0) {
      assert cells[i] == DayCell(viewDate.year, viewDate.month, i - Blanks(dates.0) + 1, selected, v, today);
    }
  }

  /** No two cells of a month grid are both marked selected. */
  lemma {:induction false} AtMostOneSelected(viewDate: Date, firstDayOfWeek: int, selected: Date, v: Validator, today: Date, i: int, j: int)
    requires 1 <= viewDate.month <= 12 && 1 <= firstDayOfWeek <= 7
    requires var cells := MonthCells(viewDate, firstDayOfWeek, selected, v, today);
      0 <= i < |cells| && 0 <= j < |cells| && cells[i].Day? && cells[i].selected && cells[j].Day? && cells[j].selected
    ensures i == j
  {
    var cells := MonthCells(viewDate, firstDayOfWeek, selected, v, today);
    CellSelectedIff(viewDate, firstDayOfWeek, selected, v, today, i);
    CellSelectedIff(viewDate, firstDayOfWeek, selected, v, today, j);
    assert cells[i].day == i - Blanks(GetDates(viewDate, firstDayOfWeek).0) + 1;
  }

  /** When the selected date is a date of the month shown, its cell is marked selected. */
  lemma {:induction false} SelectedDayIsMarked(viewDate: Date, firstDayOfWeek: int, selected: Date, v: Validator, today: Date)
    requires 1 <= viewDate.month <= 12 && 1 <= firstDayOfWeek <= 7
    requires ValidDate(selected) && selected.year == viewDate.year && selected.month == viewDate.month
    ensures var cells := MonthCells(viewDate, firstDayOfWeek, selected, v, today);
      var i := Blanks(GetDates(viewDate, firstDayOfWeek).0) + selected.day - 1;
      0 <= i < |cells| && cells[i].Day? && cells[i].day == selected.day && cells[i].selected
  {
    var cells := MonthCells(viewDate, firstDayOfWeek, selected, v, today);
    var i := Blanks(GetDates(viewDate, firstDayOfWeek).0) + selected.day - 1;
    CellSelectedIff(viewDate, firstDayOfWeek, selected, v, today, i);
  }
}

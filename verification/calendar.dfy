/**
 * The month view. It keeps the displayed month, moves it one month back or forward from the
 * header, and lays the month out as rows of seven day cells, Sunday to Saturday, from the
 * week holding the 1st to the week holding the last day. Each cell carries the events dated
 * on its day; drops and clicks count only on cells of the displayed month.
 */
module Calendar {
  import opened Wrappers
  import opened Dates
  import opened Events
  import opened EventList
  import opened Expansion

  /** One day cell of the grid. */
  datatype Cell = Cell(day: Date, isToday: bool, isCurrentMonth: bool, events: seq<Event<Date>>)

  /** The per-cell filter: the events dated on `day`, in list order. */
  function DayEvents(events: seq<Event<Date>>, day: Date): (r: seq<Event<Date>>)
    ensures |r| <= |events|
    ensures forall x :: x in r <==> x in events && IsSameDay(x.date, day)
  {
    if events == [] then []
    else
      var rest := DayEvents(events[1..], day);
      assert forall x :: x in events <==> x == events[0] || x in events[1..];
      (if IsSameDay(events[0].date, day) then [events[0]] else []) + rest
  }

  /** The per-cell filter works entry by entry, so it keeps the list's order. */
  lemma {:induction false} DayEventsAppend(a: seq<Event<Date>>, b: seq<Event<Date>>, day: Date)
    ensures DayEvents(a + b, day) == DayEvents(a, day) + DayEvents(b, day)
  {
    if a == [] {
      assert a + b == b;
    } else {
      assert (a + b)[1..] == a[1..] + b;
      DayEventsAppend(a[1..], b, day);
    }
  }

  /** The first day of the grid: the Sunday on or before the 1st of `current`'s month. */
  function GridStart(current: Date): (r: Date)
    ensures Weekday(r) == 0 && r.minute == 0
    ensures DayIndex(StartOfMonth(current)) - 6 <= DayIndex(r) <= DayIndex(StartOfMonth(current))
  {
    StartOfWeek(StartOfMonth(current))
  }

  /** The last minute of the grid: the end of the Saturday on or after the month's last day. */
  function GridEnd(current: Date): (r: Date)
    ensures Weekday(r) == 6 && r.minute == LastMinute
    ensures DayIndex(EndOfMonth(current)) <= DayIndex(r) <= DayIndex(EndOfMonth(current)) + 6
  {
    EndOfWeek(EndOfMonth(StartOfMonth(current)))
  }

  /** The number of rows of the grid. */
  function WeekCount(current: Date): int {
    (DayIndex(GridEnd(current)) - DayIndex(GridStart(current)) + 1) / 7
  }

  /** The day shown in row `row`, column `col`. */
  function DayAt(current: Date, row: nat, col: nat): Date {
    AddDays(GridStart(current), 7 * row + col)
  }

  /** The cell in row `row`, column `col`, as the view fills it. */
  function CellAt(current: Date, today: Date, events: seq<Event<Date>>, row: nat, col: nat): (c: Cell)
    ensures c.day == DayAt(current, row, col)
    ensures c.isToday <==> IsSameDay(c.day, today)
    ensures c.isCurrentMonth <==> IsSameMonth(c.day, current)
    ensures forall x :: x in c.events <==> x in events && IsSameDay(x.date, c.day)
  {
    var day := DayAt(current, row, col);
    Cell(day, IsSameDay(day, today), IsSameMonth(day, StartOfMonth(current)), DayEvents(events, day))
  }

  /** Row `row` of the grid: the seven cells from its Sunday to its Saturday. */
  function GridRow(current: Date, today: Date, events: seq<Event<Date>>, row: nat): (cells: seq<Cell>)
    ensures |cells| == 7 && forall c :: 0 <= c < 7 ==> cells[c] == CellAt(current, today, events, row, c)
  {
    seq(7, c requires 0 <= c < 7 => CellAt(current, today, events, row, c))
  }

  /**
   * The grid spans whole weeks, 4 to 6 of them, starting on or before the 1st of the month
   * and ending on or after its last day.
   */
  lemma GridSpan(current: Date)
    ensures var s, e := DayIndex(GridStart(current)), DayIndex(GridEnd(current));
      && e - s + 1 == 7 * WeekCount(current)
      && 4 <= WeekCount(current) <= 6
      && s <= MonthStart(current.month)
      && MonthStart(current.month) + DaysInMonth(current.month) - 1 <= e
  {
    var a, b := GridBounds(current);
  }

  /**
   * The grid's first day number is a Sunday's (the one of week `a`, day `7 * a - 6`), at most
   * six days before the month's first, and its last is a Saturday's (the one of week `b`,
   * day `7 * b`), at most six days after the month's last; the grid has rows for weeks `a`
   * to `b`, 4 to 6 of them.
   */
  lemma GridBounds(current: Date) returns (a: int, b: int)
    ensures var s, e := DayIndex(GridStart(current)), DayIndex(GridEnd(current));
      var m, n := MonthStart(current.month), DaysInMonth(current.month);
      && s == 7 * a - 6 && e == 7 * b
      && m - 6 <= s <= m && m + n - 1 <= e <= m + n + 5
    ensures WeekCount(current) == b - a + 1 && 4 <= b - a + 1 <= 6
  {
    var gs, ge := GridStart(current), GridEnd(current);
    var m, n := MonthStart(current.month), DaysInMonth(current.month);
    assert DayIndex(StartOfMonth(current)) == m;
    assert DayIndex(EndOfMonth(current)) == m + n - 1;
    a := WeekdayResidue(gs, 0);
    b := WeekdayResidue(ge, 6);
    WholeWeeks(a, b, m, n);
  }

  /**
   * Weeks `a` to `b`, from day `7 * a - 6` (a Sunday) to day `7 * b` (a Saturday), reaching at
   * most six days past either end of a month of `n` days from day `m`, are 4 to 6 weeks.
   */
  lemma WholeWeeks(a: int, b: int, m: int, n: int)
    requires m - 6 <= 7 * a - 6 <= m && m + n - 1 <= 7 * b <= m + n + 5 && 28 <= n <= 31
    ensures (7 * b - (7 * a - 6) + 1) / 7 == b - a + 1 && 4 <= b - a + 1 <= 6
  {
    assert 7 * b - (7 * a - 6) + 1 == 7 * (b - a + 1);
  }

  /** The cell in row `row`, column `col` lies `7 * row + col` days after the grid's first day. */
  lemma DayAtIndex(current: Date, row: nat, col: nat)
    ensures DayIndex(DayAt(current, row, col)) == DayIndex(GridStart(current)) + 7 * row + col
    ensures DayAt(current, row, col).minute == 0
  {
    AddDaysIndex(GridStart(current), 7 * row + col);
  }

  /**
   * Reading the rows left to right and top to bottom, each cell's day is the day after the
   * one before, and the first cell is the grid's first day.
   */
  lemma GridConsecutive(current: Date, row: nat, col: nat)
    requires col < 7
    ensures DayAt(current, 0, 0) == GridStart(current)
    ensures col < 6 ==> DayAt(current, row, col + 1) == AddDays(DayAt(current, row, col), 1)
    ensures col == 6 ==> DayAt(current, row + 1, 0) == AddDays(DayAt(current, row, col), 1)
  {
    var gs := GridStart(current);
    var k := 7 * row + col;
    AddDaysAdd(gs, k, 1);
    assert DayAt(current, row, col) == AddDays(gs, k);
    if col < 6 {
      assert DayAt(current, row, col + 1) == AddDays(gs, k + 1);
    } else {
      assert k + 1 == 7 * (row + 1) + 0;
      assert DayAt(current, row + 1, 0) == AddDays(gs, k + 1);
    }
  }

  /** The last cell of the grid falls on the grid's last day. */
  lemma GridLastCell(current: Date)
    ensures WeekCount(current) >= 1
    ensures IsSameDay(DayAt(current, WeekCount(current) - 1, 6), GridEnd(current))
  {
    LastCellIndex(current);
    SameDayIndex(DayAt(current, WeekCount(current) - 1, 6), GridEnd(current));
  }

  /** The day number of the last cell of the grid is that of the grid's last day. */
  lemma LastCellIndex(current: Date)
    ensures WeekCount(current) >= 1
    ensures DayIndex(DayAt(current, WeekCount(current) - 1, 6)) == DayIndex(GridEnd(current))
  {
    var a, b := GridBounds(current);
    DayAtIndex(current, b - a, 6);
  }

  /**
   * Every day of the displayed month falls in exactly one cell of the grid, and that cell
   * is marked as in the month.
   */
  lemma DayInOneCell(current: Date, d: Date) returns (row: nat, col: nat)
    requires IsSameMonth(d, current)
    ensures row < WeekCount(current) && col < 7
    ensures IsSameDay(DayAt(current, row, col), d) && IsSameMonth(DayAt(current, row, col), StartOfMonth(current))
    ensures forall r: nat, c: nat :: r < WeekCount(current) && c < 7 && IsSameDay(DayAt(current, r, c), d) ==> r == row && c == col
  {
    GridSpan(current);
    DayIndexInMonth(d);
    MonthStartNext(d.month);
    var k := DayIndex(d) - DayIndex(GridStart(current));
    row, col := k / 7, k % 7;
    DayAtIndex(current, row, col);
    SameDayIndex(DayAt(current, row, col), d);
    forall r: nat, c: nat | r < WeekCount(current) && c < 7 && IsSameDay(DayAt(current, r, c), d)
      ensures r == row && c == col
    {
      DayAtIndex(current, r, c);
      SameDayIndex(DayAt(current, r, c), d);
      assert 7 * r + c == k;
    }
  }

  /** A cell whose day is after the displayed month's `endDate` bound ends the layout loop. */
  lemma AfterByDay(a: Date, b: Date)
    requires a.minute == 0 && b.minute == LastMinute
    ensures IsAfter(a, b) <==> DayIndex(b) < DayIndex(a)
  {
    EarlierIsInstantOrder(b, a);
  }

  /** Row `row` starts after the grid's last minute exactly when the grid has no such row. */
  lemma RowAfterGrid(current: Date, row: nat)
    ensures WeekCount(current) >= 4
    ensures IsAfter(DayAt(current, row, 0), GridEnd(current)) <==> row >= WeekCount(current)
  {
    GridSpan(current);
    DayAtIndex(current, row, 0);
    AfterByDay(DayAt(current, row, 0), GridEnd(current));
  }

  /**
   * The expander's window is the month of the clock, not the displayed month: when the two
   * differ, no cell of the displayed month shows an occurrence of a repeating event.
   */
  lemma RepeatsOnlyInClockMonth(events: seq<Event<Date>>, now: Date, current: Date, today: Date, row: nat, col: nat, x: Event<Date>)
    requires AllPositiveIntervals(events) && !IsSameMonth(current, now)
    requires var cell := CellAt(current, today, Expand(events, StartOfMonth(now), EndOfMonth(now)), row, col);
      cell.isCurrentMonth && x in cell.events
    ensures exists i :: 0 <= i < |events| && !IsRecurring(events[i]) && x == events[i]
  {
    var ws, we := StartOfMonth(now), EndOfMonth(now);
    var day := DayAt(current, row, col);
    assert x in Expand(events, ws, we) && IsSameDay(x.date, day);
    ExpandSources(events, ws, we, x);
    var i :| 0 <= i < |events| && x == events[i].(date := x.date)
      && (IsRecurring(events[i]) ==> InWindow(x.date, ws, we))
      && (!IsRecurring(events[i]) ==> x == events[i]);
  }

  /** `canDrop`: a cell accepts a dragged event only in the displayed month. */
  predicate CanDrop(cell: Cell) {
    cell.isCurrentMonth
  }

  /**
   * The drop handler of a cell: the event and the cell's day go to the drop callback when the
   * cell is in the displayed month and the callback is present; otherwise nothing is passed.
   */
  function OnDrop(cell: Cell, hasDropCallback: bool, dragged: Event<Date>): (r: Option<(Event<Date>, Date)>)
    ensures r.Some? <==> CanDrop(cell) && hasDropCallback
    ensures r.Some? ==> r.value == (dragged, cell.day)
  {
    if cell.isCurrentMonth && hasDropCallback then Some((dragged, cell.day)) else None
  }

  /** The click handler of a cell: the cell's day goes to the click callback only in the displayed month. */
  function OnClick(cell: Cell): (r: Option<Date>)
    ensures r.Some? <==> cell.isCurrentMonth
    ensures r.Some? ==> r.value == cell.day
  {
    if cell.isCurrentMonth then Some(cell.day) else None
  }

  /** The list after a drop on `cell`, with the application's drop handler as the callback. */
  function AfterDrop(events: seq<Event<Date>>, cell: Cell, dragged: Event<Date>): (r: seq<Event<Date>>)
    ensures !CanDrop(cell) ==> r == events
  {
    match OnDrop(cell, true, dragged)
    case None => events
    case Some((e, day)) => HandleEventDrop(events, e, day)
  }

  /**
   * Dropping a non-repeating event on a cell of the grid moves every entry with its id into
   * the displayed month, keeping its time of day; dropping on a cell outside the month
   * changes nothing.
   */
  lemma DropLandsInMonth(events: seq<Event<Date>>, current: Date, today: Date, shown: seq<Event<Date>>,
                         row: nat, col: nat, dragged: Event<Date>)
    ensures var cell := CellAt(current, today, shown, row, col);
      var r := AfterDrop(events, cell, dragged);
      && (!cell.isCurrentMonth ==> r == events)
      && (cell.isCurrentMonth && !IsRecurring(dragged) ==>
            forall i :: 0 <= i < |r| && events[i].id == dragged.id ==>
              IsSameMonth(r[i].date, current) && r[i].date.minute == dragged.date.minute)
  {
  }

  /** The month view's state: the month on display (any date-time within it). */
  class CalendarView {
    var currentMonth: Date

    /** Opens on the month of the clock reading `now`. */
    constructor(now: Date)
      ensures currentMonth == now
    {
      currentMonth := now;
    }

    /** The header's back button. */
    method ShowPrevious()
      modifies this
      ensures currentMonth == AddMonths(old(currentMonth), -1)
      ensures currentMonth.month == old(currentMonth.month) - 1
    {
      currentMonth := AddMonths(currentMonth, -1);
    }

    /** The header's forward button. */
    method ShowNext()
      modifies this
      ensures currentMonth == AddMonths(old(currentMonth), 1)
      ensures currentMonth.month == old(currentMonth.month) + 1
    {
      currentMonth := AddMonths(currentMonth, 1);
    }

    /**
     * renderCells: the rows of the grid for the displayed month, given the events to show and
     * the clock's `today`.
     */
    method RenderCells(events: seq<Event<Date>>, today: Date) returns (rows: seq<seq<Cell>>)
      ensures |rows| == WeekCount(currentMonth)
      ensures forall r :: 0 <= r < |rows| ==> rows[r] == GridRow(currentMonth, today, events, r)
    {
      var monthStart := StartOfMonth(currentMonth);
      var monthEnd := EndOfMonth(monthStart);
      var startDate := StartOfWeek(monthStart);
      var endDate := EndOfWeek(monthEnd);
      ghost var weeks := WeekCount(currentMonth);
      rows := [];
      var days: seq<Cell> := [];
      var day := startDate;
      while !IsAfter(day, endDate)
        invariant |rows| <= weeks && days == []
        invariant day == DayAt(currentMonth, |rows|, 0)
        invariant forall r :: 0 <= r < |rows| ==> rows[r] == GridRow(currentMonth, today, events, r)
        decreases weeks - |rows|
      {
        RowAfterGrid(currentMonth, |rows|);
        days, day := PushWeek(days, day, |rows|, events, today);
        assert days == GridRow(currentMonth, today, events, |rows|);
        rows := rows + [days];
        days := [];
      }
      RowAfterGrid(currentMonth, |rows|);
    }

    /**
     * The inner `for` loop of renderCells: pushes the cells of seven days from `day` on, the
     * days of row `row`, and returns the day after them.
     */
    method PushWeek(days: seq<Cell>, day: Date, row: nat, events: seq<Event<Date>>, today: Date)
      returns (filled: seq<Cell>, next: Date)
      requires day == DayAt(currentMonth, row, 0)
      ensures |filled| == |days| + 7 && filled[..|days|] == days
      ensures forall c :: 0 <= c < 7 ==> filled[|days| + c] == CellAt(currentMonth, today, events, row, c)
      ensures next == DayAt(currentMonth, row + 1, 0)
    {
      var monthStart := StartOfMonth(currentMonth);
      filled, next := days, day;
      for i := 0 to 7
        invariant |filled| == |days| + i && filled[..|days|] == days && next == DayAt(currentMonth, row, i)
        invariant forall c :: 0 <= c < i ==> filled[|days| + c] == CellAt(currentMonth, today, events, row, c)
      {
        filled := filled + [Cell(next, IsSameDay(next, today), IsSameMonth(next, monthStart), DayEvents(events, next))];
        assert filled[|days| + i] == CellAt(currentMonth, today, events, row, i);
        AddDaysAdd(GridStart(currentMonth), 7 * row + i, 1);
        next := AddDays(next, 1);
        assert next == DayAt(currentMonth, row, i + 1);
      }
      assert 7 * row + 7 == 7 * (row + 1) + 0;
    }
  }
}

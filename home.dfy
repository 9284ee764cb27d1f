/** The home page: the month grid, its side panel of events, day selection, month
    navigation and event deletion. */
module Home {
  import opened Calendar
  import opened Events
  import opened Seqs

  datatype Color = Orange | Blue | Yellow | Green

  /** The colour table of the category dots. A category the table does not name (the empty
      one) has no colour. */
  function CategoryColor(c: Category): (r: Option<Color>)
    ensures r.None? <==> c == Blank
  {
    match c
    case Work => Some(Orange)
    case Personal => Some(Blue)
    case Entertainment => Some(Yellow)
    case Others => Some(Green)
    case Blank => None
  }

  /** One day square of the month grid: its day, whether it belongs to the displayed month
      (otherwise it is greyed), whether it is the selected day, whether it is today, and the
      events dated on it. */
  datatype Cell = Cell(day: Day, inMonth: bool, selected: bool, isToday: bool, events: seq<Event>)

  /** The coloured dot drawn in a cell for an event. */
  datatype Dot = Dot(eventId: string, color: Option<Color>)

  function MakeCell(day: Day, monthStart: Day, selectedDate: Option<Day>, today: Day, events: seq<Event>): Cell {
    Cell(day, SameMonth(day, monthStart), selectedDate == Some(day), day == today, EventsOn(events, day))
  }

  /** The dots of a cell: one for its first event, none when it has no events. */
  function Dots(cell: Cell): (r: seq<Dot>)
    ensures |r| <= 1
    ensures |r| == 1 <==> cell.events != []
    ensures r != [] ==> r[0].eventId == cell.events[0].id && r[0].color == CategoryColor(cell.events[0].category)
  {
    if cell.events == [] then [] else [Dot(cell.events[0].id, CategoryColor(cell.events[0].category))]
  }

  // ---------------------------------------------------------------------------
  // The month grid.

  /** The Sunday on or before the first day of the displayed month. */
  function GridStart(currentMonth: Day): Day {
    StartOfWeek(StartOfMonth(currentMonth))
  }

  /** The Saturday on or after the last day of the displayed month. */
  function GridEnd(currentMonth: Day): Day {
    EndOfWeek(EndOfMonth(currentMonth))
  }

  /** Whole weeks from a Sunday `a` on or before `s` to a Saturday `b` on or after `e`, where
      `s..e` is a month, number 4 to 6. */
  lemma WeeksAround(a: int, s: int, e: int, b: int)
    requires a <= s < a + 7 && b - 7 < e <= b && 28 <= e - s + 1 <= 31
    requires (a + 4) % 7 == 0 && (b + 4) % 7 == 6
    ensures (b - a + 1) % 7 == 0 && 4 <= (b - a + 1) / 7 <= 6
  {
    DivModUnique(b - a + 1, 7, (b + 4) / 7 - (a + 4) / 7 + 1, 0);
  }

  /** The grid runs from the Sunday on or before the month's first day to the Saturday on or
      after its last day: 4 to 6 whole weeks. */
  lemma GridSpan(currentMonth: Day)
    ensures Weekday(GridStart(currentMonth)) == 0 && Weekday(GridEnd(currentMonth)) == 6
    ensures var a, s := DaysFromCivil(GridStart(currentMonth)), DaysFromCivil(StartOfMonth(currentMonth));
            a <= s < a + 7
    ensures var e, b := DaysFromCivil(EndOfMonth(currentMonth)), DaysFromCivil(GridEnd(currentMonth));
            b - 7 < e <= b
    ensures var a, b := DaysFromCivil(GridStart(currentMonth)), DaysFromCivil(GridEnd(currentMonth));
            (b - a + 1) % 7 == 0 && 4 <= (b - a + 1) / 7 <= 6
  {
    var monthStart, monthEnd := StartOfMonth(currentMonth), EndOfMonth(currentMonth);
    MonthSpan(currentMonth);
    StartOfWeekBounds(monthStart);
    EndOfWeekBounds(monthEnd);
    WeeksAround(DaysFromCivil(StartOfWeek(monthStart)), DaysFromCivil(monthStart),
                DaysFromCivil(monthEnd), DaysFromCivil(EndOfWeek(monthEnd)));
  }

  /** The number of rows of the grid. */
  function GridRows(currentMonth: Day): (n: nat)
    ensures 4 <= n <= 6
    ensures DaysFromCivil(GridStart(currentMonth)) + 7 * n == DaysFromCivil(GridEnd(currentMonth)) + 1
  {
    GridSpan(currentMonth);
    (DaysFromCivil(GridEnd(currentMonth)) - DaysFromCivil(GridStart(currentMonth)) + 1) / 7
  }

  /** Walking the grid a week at a time from its first day, the day is on or before the
      grid's last day for exactly the first `GridRows` weeks. */
  lemma GridWalk(currentMonth: Day, day: Day, k: nat)
    requires DaysFromCivil(day) == DaysFromCivil(GridStart(currentMonth)) + 7 * k
    ensures OnOrBefore(day, GridEnd(currentMonth)) <==> k < GridRows(currentMonth)
  {
    OnOrBeforeIsDayOrder(day, GridEnd(currentMonth));
  }

  /** The seven cells of the week that starts on `sunday`. */
  function WeekCells(sunday: Day, monthStart: Day, selectedDate: Option<Day>, today: Day, events: seq<Event>): (w: seq<Cell>)
    ensures |w| == 7
  {
    seq(7, i => MakeCell(AddDays(sunday, i), monthStart, selectedDate, today, events))
  }

  /** The grid the home page shows: `GridRows` weeks from `GridStart`, each row the week that
      starts seven days after the one above it. */
  function Grid(currentMonth: Day, selectedDate: Option<Day>, events: seq<Event>, today: Day): (g: seq<seq<Cell>>)
    ensures |g| == GridRows(currentMonth)
    ensures forall r :: 0 <= r < |g| ==> |g[r]| == 7
  {
    seq(GridRows(currentMonth), r => WeekCells(AddDays(GridStart(currentMonth), 7 * r), StartOfMonth(currentMonth), selectedDate, today, events))
  }

  /** Cell `(r, i)` of the grid shows the day `7 * r + i` days after the grid's first day. */
  lemma GridCell(currentMonth: Day, selectedDate: Option<Day>, events: seq<Event>, today: Day, r: int, i: int)
    requires 0 <= r < GridRows(currentMonth) && 0 <= i < 7
    ensures Grid(currentMonth, selectedDate, events, today)[r][i]
         == MakeCell(AddDays(GridStart(currentMonth), 7 * r + i), StartOfMonth(currentMonth), selectedDate, today, events)
  {
    AddDaysAdd(GridStart(currentMonth), 7 * r, i);
  }

  /** The day of cell `(r, i)`. */
  lemma GridCellDay(currentMonth: Day, selectedDate: Option<Day>, events: seq<Event>, today: Day, r: int, i: int)
    requires 0 <= r < GridRows(currentMonth) && 0 <= i < 7
    ensures Grid(currentMonth, selectedDate, events, today)[r][i].day == AddDays(GridStart(currentMonth), 7 * r + i)
  {
    GridCell(currentMonth, selectedDate, events, today, r, i);
  }

  /** Row `r` of the grid is the week that starts `7 * r` days after the grid's first day. */
  lemma GridRowIsWeek(currentMonth: Day, selectedDate: Option<Day>, events: seq<Event>, today: Day, r: int, sunday: Day)
    requires 0 <= r < GridRows(currentMonth)
    requires DaysFromCivil(sunday) == DaysFromCivil(GridStart(currentMonth)) + 7 * r
    ensures Grid(currentMonth, selectedDate, events, today)[r] == WeekCells(sunday, StartOfMonth(currentMonth), selectedDate, today, events)
  {
    var first: Day := GridStart(currentMonth);
    AddDaysNumber(first, 7 * r);
    DaysFromCivilInjective(AddDays(first, 7 * r), sunday);
  }

  /** One step of the walk down the grid: row `k` is the week from `day`, and the day a week
      later continues the walk. */
  lemma GridStep(currentMonth: Day, selectedDate: Option<Day>, events: seq<Event>, today: Day, k: nat, day: Day)
    requires k < GridRows(currentMonth)
    requires DaysFromCivil(day) == DaysFromCivil(GridStart(currentMonth)) + 7 * k
    ensures Grid(currentMonth, selectedDate, events, today)[k] == WeekCells(day, StartOfMonth(currentMonth), selectedDate, today, events)
    ensures DaysFromCivil(AddDays(day, 7)) == DaysFromCivil(GridStart(currentMonth)) + 7 * (k + 1)
    ensures OnOrBefore(AddDays(day, 7), GridEnd(currentMonth)) <==> k + 1 < GridRows(currentMonth)
  {
    GridRowIsWeek(currentMonth, selectedDate, events, today, k, day);
    AddDaysNumber(day, 7);
    GridWalk(currentMonth, AddDays(day, 7), k + 1);
  }

  /** The inner loop of the grid: seven cells, a day at a time, from `day`; returns the day
      after the last one. */
  method RenderWeek(day: Day, monthStart: Day, selectedDate: Option<Day>, today: Day, events: seq<Event>)
    returns (days: seq<Cell>, next: Day)
    ensures days == WeekCells(day, monthStart, selectedDate, today, events)
    ensures next == AddDays(day, 7)
  {
    days := [];
    next := day;
    for i := 0 to 7
      invariant next == AddDays(day, i)
      invariant |days| == i
      invariant forall j :: 0 <= j < i ==> days[j] == MakeCell(AddDays(day, j), monthStart, selectedDate, today, events)
    {
      days := days + [MakeCell(next, monthStart, selectedDate, today, events)];
      AddDaysStep(day, i);
      next := AddDays(next, 1);
    }
  }

  /** Builds the grid a week at a time while the day is on or before the Saturday that ends
      the month's last week. */
  method RenderCells(currentMonth: Day, selectedDate: Option<Day>, events: seq<Event>, today: Day)
    returns (rows: seq<seq<Cell>>)
    ensures rows == Grid(currentMonth, selectedDate, events, today)
  {
    var monthStart := StartOfMonth(currentMonth);
    var monthEnd := EndOfMonth(monthStart);
    var startDate := StartOfWeek(monthStart);
    var endDate := EndOfWeek(monthEnd);
    assert startDate == GridStart(currentMonth) && endDate == GridEnd(currentMonth);
    ghost var grid := Grid(currentMonth, selectedDate, events, today);
    rows := [];
    var day := startDate;
    GridWalk(currentMonth, day, 0);
    while OnOrBefore(day, endDate)
      invariant |rows| <= |grid|
      invariant DaysFromCivil(day) == DaysFromCivil(startDate) + 7 * |rows|
      invariant OnOrBefore(day, endDate) <==> |rows| < |grid|
      invariant rows == grid[..|rows|]
      decreases |grid| - |rows|
    {
      GridStep(currentMonth, selectedDate, events, today, |rows|, day);
      var days;
      days, day := RenderWeek(day, monthStart, selectedDate, today, events);
      PrefixStep(grid, |rows|);
      rows := rows + [days];
    }
  }

  /** The grid's first cell is the Sunday on or before the month's first day. */
  lemma GridFirstCell(currentMonth: Day, selectedDate: Option<Day>, events: seq<Event>, today: Day)
    ensures var g := Grid(currentMonth, selectedDate, events, today);
            4 <= |g| <= 6 && g[0][0].day == StartOfWeek(StartOfMonth(currentMonth))
  {
    GridCellDay(currentMonth, selectedDate, events, today, 0, 0);
  }

  /** The grid's last cell is the Saturday on or after the month's last day. */
  lemma GridLastCell(currentMonth: Day, selectedDate: Option<Day>, events: seq<Event>, today: Day)
    ensures var g := Grid(currentMonth, selectedDate, events, today);
            4 <= |g| <= 6 && g[|g| - 1][6].day == EndOfWeek(EndOfMonth(currentMonth))
  {
    var n := GridRows(currentMonth);
    GridCellDay(currentMonth, selectedDate, events, today, n - 1, 6);
    LastDayOfWeeks(GridStart(currentMonth), n, GridEnd(currentMonth));
  }

  /** The last day of `n` weeks from `first` is the day numbered one before `7 * n` days on. */
  lemma LastDayOfWeeks(first: Day, n: int, last: Day)
    requires 1 <= n && DaysFromCivil(first) + 7 * n == DaysFromCivil(last) + 1
    ensures AddDays(first, 7 * (n - 1) + 6) == last
  {
    AddDaysNumber(first, 7 * (n - 1) + 6);
    DaysFromCivilInjective(AddDays(first, 7 * (n - 1) + 6), last);
  }

  // ---------------------------------------------------------------------------
  // What the grid shows.

  /** Within a row, each cell is the day after the one to its left. */
  lemma GridNextInRow(currentMonth: Day, selectedDate: Option<Day>, events: seq<Event>, today: Day, r: int, i: int)
    requires 0 <= r < GridRows(currentMonth) && 0 <= i < 6
    ensures var g := Grid(currentMonth, selectedDate, events, today);
            g[r][i + 1].day == NextDay(g[r][i].day)
  {
    GridCellDay(currentMonth, selectedDate, events, today, r, i);
    GridCellDay(currentMonth, selectedDate, events, today, r, i + 1);
    AddDaysStep(GridStart(currentMonth), 7 * r + i);
    assert 7 * r + i + 1 == 7 * r + (i + 1);
  }

  /** A row's first cell is the day after the previous row's last cell. */
  lemma GridNextRow(currentMonth: Day, selectedDate: Option<Day>, events: seq<Event>, today: Day, r: int)
    requires 0 < r < GridRows(currentMonth)
    ensures var g := Grid(currentMonth, selectedDate, events, today);
            g[r][0].day == NextDay(g[r - 1][6].day)
  {
    GridCellDay(currentMonth, selectedDate, events, today, r - 1, 6);
    GridCellDay(currentMonth, selectedDate, events, today, r, 0);
    NextWeekStart(GridStart(currentMonth), r);
  }

  /** The day after the last day of week `r - 1` is the first day of week `r`. */
  lemma NextWeekStart(first: Day, r: int)
    ensures AddDays(first, 7 * r) == NextDay(AddDays(first, 7 * (r - 1) + 6))
  {
    AddDaysStep(first, 7 * (r - 1) + 6);
    assert 7 * (r - 1) + 6 + 1 == 7 * r;
  }

  /** Column `i` of every row falls on weekday `i`, matching the Sunday-first header. */
  lemma GridColumnWeekday(currentMonth: Day, selectedDate: Option<Day>, events: seq<Event>, today: Day, r: int, i: int)
    requires 0 <= r < GridRows(currentMonth) && 0 <= i < 7
    ensures Weekday(Grid(currentMonth, selectedDate, events, today)[r][i].day) == i
  {
    GridCellDay(currentMonth, selectedDate, events, today, r, i);
    GridSpan(currentMonth);
    WeekdayInWeeks(GridStart(currentMonth), r, i);
  }

  /** `r` weeks and `i` days after a Sunday is weekday `i`. */
  lemma WeekdayInWeeks(sunday: Day, r: int, i: int)
    requires Weekday(sunday) == 0 && 0 <= i < 7
    ensures Weekday(AddDays(sunday, 7 * r + i)) == i
  {
    WeekdayShift(sunday, 7 * r + i);
    DivModUnique(7 * r + i, 7, r, i);
  }

  /** A day `off` days after `first`, with `0 <= off < 7 * n`, is `off / 7` weeks and
      `off % 7` days after `first`. */
  lemma DayInWeeks(first: Day, n: int, x: Day)
    requires DaysFromCivil(first) <= DaysFromCivil(x) < DaysFromCivil(first) + 7 * n
    ensures var off := DaysFromCivil(x) - DaysFromCivil(first);
            0 <= off / 7 < n && AddDays(first, 7 * (off / 7) + off % 7) == x
  {
    var off := DaysFromCivil(x) - DaysFromCivil(first);
    DivModUnique(off, 7, off / 7, off % 7);
    AddDaysNumber(first, off);
    DaysFromCivilInjective(AddDays(first, off), x);
  }

  /** A day that is `r` weeks and `i` days after `first` is at that place only. */
  lemma WeekPlace(first: Day, x: Day, r: int, i: int)
    requires 0 <= i < 7 && AddDays(first, 7 * r + i) == x
    ensures var off := DaysFromCivil(x) - DaysFromCivil(first);
            off == 7 * r + i && r == off / 7 && i == off % 7
  {
    AddDaysNumber(first, 7 * r + i);
    DivModUnique(DaysFromCivil(x) - DaysFromCivil(first), 7, r, i);
  }

  /** When the grid spans day `x`, the cell `off / 7` rows down and `off % 7` columns across
      shows it, where `off` is the number of days from the grid's first day to `x`. */
  lemma CellOfDay(currentMonth: Day, selectedDate: Option<Day>, events: seq<Event>, today: Day, x: Day)
    requires IsWithin(x, GridStart(currentMonth), GridEnd(currentMonth))
    ensures var g, off := Grid(currentMonth, selectedDate, events, today),
                          DaysFromCivil(x) - DaysFromCivil(GridStart(currentMonth));
            0 <= off / 7 < |g| && g[off / 7][off % 7].day == x
  {
    var first: Day := GridStart(currentMonth);
    var off := DaysFromCivil(x) - DaysFromCivil(first);
    OnOrBeforeIsDayOrder(first, x);
    OnOrBeforeIsDayOrder(x, GridEnd(currentMonth));
    DayInWeeks(first, GridRows(currentMonth), x);
    GridCellDay(currentMonth, selectedDate, events, today, off / 7, off % 7);
  }

  /** No other cell shows day `x`: a cell showing it is `off / 7` rows down and `off % 7`
      columns across. */
  lemma CellOfDayUnique(currentMonth: Day, selectedDate: Option<Day>, events: seq<Event>, today: Day, x: Day)
    ensures var g, off := Grid(currentMonth, selectedDate, events, today),
                          DaysFromCivil(x) - DaysFromCivil(GridStart(currentMonth));
            forall r, i :: 0 <= r < |g| && 0 <= i < 7 && g[r][i].day == x ==> r == off / 7 && i == off % 7
  {
    var g: seq<seq<Cell>> := Grid(currentMonth, selectedDate, events, today);
    var first: Day := GridStart(currentMonth);
    var off := DaysFromCivil(x) - DaysFromCivil(first);
    forall r: int, i: int | 0 <= r < |g| && 0 <= i < 7 && g[r][i].day == x
      ensures r == off / 7 && i == off % 7
    {
      GridCellDay(currentMonth, selectedDate, events, today, r, i);
      WeekPlace(first, x, r, i);
    }
  }

  /** Every day of the displayed month is in exactly one cell. */
  lemma MonthDayInExactlyOneCell(currentMonth: Day, selectedDate: Option<Day>, events: seq<Event>, today: Day, x: Day)
    requires SameMonth(x, currentMonth)
    ensures var g, off := Grid(currentMonth, selectedDate, events, today),
                          DaysFromCivil(x) - DaysFromCivil(GridStart(currentMonth));
            && 0 <= off / 7 < |g| && g[off / 7][off % 7].day == x
            && forall r, i :: 0 <= r < |g| && 0 <= i < 7 && g[r][i].day == x ==> r == off / 7 && i == off % 7
  {
    SameMonthIffWithin(currentMonth, x);
    GridSpan(currentMonth);
    OnOrBeforeIsDayOrder(StartOfMonth(currentMonth), x);
    OnOrBeforeIsDayOrder(x, EndOfMonth(currentMonth));
    OnOrBeforeIsDayOrder(GridStart(currentMonth), x);
    OnOrBeforeIsDayOrder(x, GridEnd(currentMonth));
    CellOfDay(currentMonth, selectedDate, events, today, x);
    CellOfDayUnique(currentMonth, selectedDate, events, today, x);
  }

  /** How each cell is decorated, and which events it lists. */
  lemma CellDecoration(currentMonth: Day, selectedDate: Option<Day>, events: seq<Event>, today: Day, r: int, i: int)
    requires 0 <= r < GridRows(currentMonth) && 0 <= i < 7
    ensures var c := Grid(currentMonth, selectedDate, events, today)[r][i];
            && (c.inMonth <==> IsWithin(c.day, StartOfMonth(currentMonth), EndOfMonth(currentMonth)))
            && (c.selected <==> selectedDate == Some(c.day))
            && (selectedDate == None ==> !c.selected)
            && (c.isToday <==> c.day == today)
            && (forall e :: e in c.events <==> e in events && e.date == c.day)
            && (forall e :: multiset(c.events)[e] == if e.date == c.day then multiset(events)[e] else 0)
            && IsSubsequence(c.events, events)
  {
    var day := AddDays(GridStart(currentMonth), 7 * r + i);
    GridCell(currentMonth, selectedDate, events, today, r, i);
    SameMonthIffWithin(currentMonth, day);
    EventsOnFacts(events, day);
  }

  /** An event whose day the grid spans is listed in that day's cell. */
  lemma EventInItsCell(currentMonth: Day, selectedDate: Option<Day>, events: seq<Event>, today: Day, e: Event)
    requires e in events
    requires IsWithin(e.date, GridStart(currentMonth), GridEnd(currentMonth))
    ensures var g, off := Grid(currentMonth, selectedDate, events, today),
                          DaysFromCivil(e.date) - DaysFromCivil(GridStart(currentMonth));
            0 <= off / 7 < |g| && e in g[off / 7][off % 7].events
  {
    var off := DaysFromCivil(e.date) - DaysFromCivil(GridStart(currentMonth));
    CellOfDay(currentMonth, selectedDate, events, today, e.date);
    GridCell(currentMonth, selectedDate, events, today, off / 7, off % 7);
    EventsOnFacts(events, e.date);
  }

  /** An event whose day the grid does not span is listed in no cell. */
  lemma EventOutsideGrid(currentMonth: Day, selectedDate: Option<Day>, events: seq<Event>, today: Day, e: Event)
    requires !IsWithin(e.date, GridStart(currentMonth), GridEnd(currentMonth))
    ensures var g := Grid(currentMonth, selectedDate, events, today);
            forall r, i :: 0 <= r < |g| && 0 <= i < 7 ==> e !in g[r][i].events
  {
    var g: seq<seq<Cell>> := Grid(currentMonth, selectedDate, events, today);
    var first: Day := GridStart(currentMonth);
    OnOrBeforeIsDayOrder(first, e.date);
    OnOrBeforeIsDayOrder(e.date, GridEnd(currentMonth));
    forall r: int, i: int | 0 <= r < |g| && 0 <= i < 7
      ensures e !in g[r][i].events
    {
      CellDecoration(currentMonth, selectedDate, events, today, r, i);
      if g[r][i].day == e.date {
        GridCell(currentMonth, selectedDate, events, today, r, i);
        WeekPlace(first, e.date, r, i);
      }
    }
  }

  /** No event is listed in two cells. */
  lemma EventInAtMostOneCell(currentMonth: Day, selectedDate: Option<Day>, events: seq<Event>, today: Day, e: Event)
    ensures var g := Grid(currentMonth, selectedDate, events, today);
            forall r, i, r', i' ::
              0 <= r < |g| && 0 <= i < 7 && 0 <= r' < |g| && 0 <= i' < 7 &&
              e in g[r][i].events && e in g[r'][i'].events
              ==> r == r' && i == i'
  {
    var g: seq<seq<Cell>> := Grid(currentMonth, selectedDate, events, today);
    CellOfDayUnique(currentMonth, selectedDate, events, today, e.date);
    forall r: int, i: int | 0 <= r < |g| && 0 <= i < 7 && e in g[r][i].events
      ensures g[r][i].day == e.date
    {
      CellDecoration(currentMonth, selectedDate, events, today, r, i);
    }
  }

  // ---------------------------------------------------------------------------
  // The side panel and deletion.

  /** The side panel's list: the displayed month's events when no day is selected, the
      selected day's events otherwise. */
  function SelectedDateEvents(currentMonth: Day, selectedDate: Option<Day>, events: seq<Event>): seq<Event> {
    match selectedDate
    case None =>
      var monthStart := StartOfMonth(currentMonth);
      var monthEnd := EndOfMonth(currentMonth);
      Filter((e: Event) => IsWithin(e.date, monthStart, monthEnd), events)
    case Some(day) => EventsOn(events, day)
  }

  /** Whether an event belongs on the side panel. */
  predicate InPanel(currentMonth: Day, selectedDate: Option<Day>, e: Event) {
    match selectedDate
    case None => SameMonth(e.date, currentMonth)
    case Some(day) => e.date == day
  }

  /** The side panel lists exactly the events of the displayed month, or of the selected day,
      each as often as in the list and in list order. */
  lemma SelectedDateEventsContents(currentMonth: Day, selectedDate: Option<Day>, events: seq<Event>)
    ensures var r := SelectedDateEvents(currentMonth, selectedDate, events);
            && (forall e :: e in r <==> e in events && InPanel(currentMonth, selectedDate, e))
            && IsSubsequence(r, events)
    ensures var r := SelectedDateEvents(currentMonth, selectedDate, events);
            forall e :: multiset(r)[e] == if InPanel(currentMonth, selectedDate, e) then multiset(events)[e] else 0
  {
    match selectedDate
    case None =>
      var monthStart := StartOfMonth(currentMonth);
      var monthEnd := EndOfMonth(currentMonth);
      forall e | e in events {
        SameMonthIffWithin(currentMonth, e.date);
      }
      FilterMembership((e: Event) => IsWithin(e.date, monthStart, monthEnd), events);
      FilterIsSubsequence((e: Event) => IsWithin(e.date, monthStart, monthEnd), events);
      forall e: Event
        ensures multiset(SelectedDateEvents(currentMonth, selectedDate, events))[e]
             == if InPanel(currentMonth, selectedDate, e) then multiset(events)[e] else 0
      {
        SameMonthIffWithin(currentMonth, e.date);
        FilterCount((e: Event) => IsWithin(e.date, monthStart, monthEnd), events, e);
      }
    case Some(day) =>
      EventsOnFacts(events, day);
  }

  /** The list without the events that carry `id`. */
  function RemoveById(events: seq<Event>, id: string): seq<Event> {
    Filter((e: Event) => e.id != id, events)
  }

  /** Deleting removes every event with the id and keeps every other one, each as often as
      before and in the same order. */
  lemma RemoveByIdKeepsOthers(events: seq<Event>, id: string)
    ensures forall e :: e in RemoveById(events, id) <==> e in events && e.id != id
    ensures IsSubsequence(RemoveById(events, id), events)
    ensures forall e :: multiset(RemoveById(events, id))[e] == if e.id == id then 0 else multiset(events)[e]
  {
    FilterMembership((e: Event) => e.id != id, events);
    FilterIsSubsequence((e: Event) => e.id != id, events);
    forall e {
      FilterCount((x: Event) => x.id != id, events, e);
    }
  }

  // ---------------------------------------------------------------------------
  // The page's state.

  class HomePage {
    /** A day in the displayed month; starts as today. */
    var currentMonth: Day
    var selectedDate: Option<Day>
    /** The shared event list. */
    var events: seq<Event>
    const store: EventStore

    /** Mounting shows today's month with nothing selected, and loads the stored events. */
    constructor (today: Day, store: EventStore)
      ensures currentMonth == today && selectedDate == None
      ensures events == store.saved && this.store == store
    {
      currentMonth := today;
      selectedDate := None;
      events := store.saved;
      this.store := store;
    }

    /** Clicking a cell selects its day. */
    method HandleDateClick(day: Day)
      modifies this
      ensures selectedDate == Some(day)
      ensures currentMonth == old(currentMonth) && events == old(events)
    {
      selectedDate := Some(day);
    }

    /** The Prev button shows the previous month. */
    method PrevMonth()
      modifies this
      ensures currentMonth == AddMonths(old(currentMonth), -1)
      ensures MonthIndex(YearMonthOf(currentMonth)) == MonthIndex(YearMonthOf(old(currentMonth))) - 1
      ensures selectedDate == old(selectedDate) && events == old(events)
    {
      AddMonthsShifts(currentMonth, -1);
      currentMonth := AddMonths(currentMonth, -1);
    }

    /** The Next button shows the next month. */
    method NextMonth()
      modifies this
      ensures currentMonth == AddMonths(old(currentMonth), 1)
      ensures MonthIndex(YearMonthOf(currentMonth)) == MonthIndex(YearMonthOf(old(currentMonth))) + 1
      ensures selectedDate == old(selectedDate) && events == old(events)
    {
      AddMonthsShifts(currentMonth, 1);
      currentMonth := AddMonths(currentMonth, 1);
    }

    /** Deleting, once confirmed, drops every event with the id from the list and from the
        store; unconfirmed, it changes nothing. */
    method HandleDeleteEvent(id: string, confirmed: bool)
      modifies this, store
      ensures events == if confirmed then RemoveById(old(events), id) else old(events)
      ensures store.saved == if confirmed then events else old(store.saved)
      ensures currentMonth == old(currentMonth) && selectedDate == old(selectedDate)
    {
      if confirmed {
        var updated := RemoveById(events, id);
        events := updated;
        store.Save(updated);
      }
    }
  }
}

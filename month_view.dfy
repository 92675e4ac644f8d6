/** The month grid: the days of the displayed month, the previous/next month
    navigation over (month, year), and the per-day cells that list the tasks due
    that day. */
module MonthView {
  import opened Common
  import opened Calendar
  import opened Tasks

  // ---- days of a month ---------------------------------------------------------

  /** The year `new Date(year, month, day)` builds its date in: the constructor
      reads a year in 0..99 as 1900 + year. The result is never such a year, and
      its last two digits are those of `year`. */
  function FullYear(year: int): (y: int)
    ensures !(0 <= y <= 99)
    ensures y % 100 == year % 100
    ensures y == year <==> !(0 <= year <= 99)
  {
    if 0 <= year <= 99 then 1900 + year else year
  }

  /** `new Date(year, month, 1)`: a month outside 0..11 rolls over into the years
      around the full year, so the date lands in month `month % 12`. */
  function FirstOfMonth(year: int, month: int): (d: Date)
    ensures Valid(d) && d.day == 1
    ensures d.month == month <==> 0 <= month < 12
    ensures d.year * 12 + d.month == FullYear(year) * 12 + month
    ensures 0 <= month < 12 ==> d.year == FullYear(year)
  {
    Date(FullYear(year) + month / 12, month % 12, 1)
  }

  /** The calendar days of month `month` of `year`, in order; none when the month
      number is outside 0..11 (the stepping loop then never starts). */
  function MonthDays(year: int, month: int): (days: seq<Date>)
    ensures 0 <= month < 12 ==> |days| == MonthLength(year, month)
    ensures !(0 <= month < 12) ==> days == []
    ensures forall i :: 0 <= i < |days| ==> days[i] == Date(year, month, i + 1) && Valid(days[i])
  {
    if 0 <= month < 12 then seq(MonthLength(year, month), i => Date(year, month, i + 1)) else []
  }

  /** `getDaysInMonth`: start at day 1 and step one day at a time while the month
      is still `month`. */
  method GetDaysInMonth(year: int, month: int) returns (days: seq<Date>)
    ensures days == MonthDays(FullYear(year), month)
    ensures 0 <= month < 12 ==> |days| == MonthLength(FullYear(year), month)
    ensures |days| > 0 ==> days[0] == Date(FullYear(year), month, 1)
    ensures forall i :: 0 <= i < |days| ==> Valid(days[i]) && days[i].year == FullYear(year) && days[i].month == month
    ensures forall i :: 0 <= i < |days| - 1 ==> days[i + 1] == NextDay(days[i])
  {
    var date := FirstOfMonth(year, month);
    days := [];
    while date.month == month
      invariant Valid(date)
      invariant |days| <= 31
      invariant forall i :: 0 <= i < |days| ==> days[i] == Date(FullYear(year), month, i + 1)
      invariant date.month == month ==> date == Date(FullYear(year), month, |days| + 1)
      invariant date.month != month ==> days == MonthDays(FullYear(year), month)
      decreases 31 - |days|
    {
      days := days + [date];
      date := NextDay(date);
    }
  }

  /** February has 29 days in a leap year and 28 otherwise; 2024 is a leap year. */
  lemma LeapFebruary()
    ensures |MonthDays(2024, 1)| == 29
    ensures MonthDays(2024, 1)[0] == Date(2024, 1, 1) && MonthDays(2024, 1)[28] == Date(2024, 1, 29)
    ensures |MonthDays(2023, 1)| == 28 && |MonthDays(1900, 1)| == 28 && |MonthDays(2000, 1)| == 29
  {
  }

  /** A two-digit year means a year of the 1900s: the month shown for year 0,
      month 1 is February 1900, which has 28 days. */
  lemma TwoDigitYearFebruary()
    ensures FirstOfMonth(0, 1) == Date(1900, 1, 1)
    ensures MonthDays(FullYear(0), 1) == MonthDays(1900, 1) && |MonthDays(FullYear(0), 1)| == 28
    ensures |MonthDays(0, 1)| == 29
  {
  }

  // ---- previous / next month -----------------------------------------------------

  /** The displayed month: `currentMonth` (0..11) and `currentYear`. */
  datatype YearMonth = YearMonth(month: int, year: int)

  /** Months counted from January of year 0. */
  function MonthIndex(ym: YearMonth): int {
    ym.year * 12 + ym.month
  }

  /** The "previous month" button: from January to December of the year before. */
  function PreviousMonth(ym: YearMonth): (r: YearMonth)
    ensures MonthIndex(r) == MonthIndex(ym) - 1
    ensures 0 <= ym.month < 12 ==> 0 <= r.month < 12
    ensures r.year == (if ym.month == 0 then ym.year - 1 else ym.year)
  {
    if ym.month == 0 then YearMonth(11, ym.year - 1) else YearMonth(ym.month - 1, ym.year)
  }

  /** The "next month" button: from December to January of the year after. */
  function NextMonth(ym: YearMonth): (r: YearMonth)
    ensures MonthIndex(r) == MonthIndex(ym) + 1
    ensures 0 <= ym.month < 12 ==> 0 <= r.month < 12
    ensures r.year == (if ym.month == 11 then ym.year + 1 else ym.year)
  {
    if ym.month == 11 then YearMonth(0, ym.year + 1) else YearMonth(ym.month + 1, ym.year)
  }

  /** With months in 0..11, the month index determines month and year. */
  lemma MonthIndexInjective(a: YearMonth, b: YearMonth)
    requires 0 <= a.month < 12 && 0 <= b.month < 12
    requires MonthIndex(a) == MonthIndex(b)
    ensures a == b
  {
  }

  /** Next then previous, and previous then next, come back to the same month. */
  lemma NavigationRoundTrip(ym: YearMonth)
    requires 0 <= ym.month < 12
    ensures PreviousMonth(NextMonth(ym)) == ym
    ensures NextMonth(PreviousMonth(ym)) == ym
  {
    MonthIndexInjective(PreviousMonth(NextMonth(ym)), ym);
    MonthIndexInjective(NextMonth(PreviousMonth(ym)), ym);
  }

  /** The navigation state of the month view. Loading it from and saving it to
      browser storage is outside this model; the constructor takes the loaded
      values. */
  class MonthNavigator {
    var currentMonth: int
    var currentYear: int

    constructor (month: int, year: int)
      ensures currentMonth == month && currentYear == year
    {
      currentMonth := month;
      currentYear := year;
    }

    function Position(): YearMonth
      reads this
    {
      YearMonth(currentMonth, currentYear)
    }

    /** The "previous month" click handler. */
    method Previous()
      modifies this
      ensures Position() == PreviousMonth(old(Position()))
      ensures MonthIndex(Position()) == MonthIndex(old(Position())) - 1
      ensures 0 <= old(currentMonth) < 12 ==> 0 <= currentMonth < 12
    {
      if currentMonth == 0 {
        currentMonth := 11;
        currentYear := currentYear - 1;
      } else {
        currentMonth := currentMonth - 1;
      }
    }

    /** The "next month" click handler. */
    method Next()
      modifies this
      ensures Position() == NextMonth(old(Position()))
      ensures MonthIndex(Position()) == MonthIndex(old(Position())) + 1
      ensures 0 <= old(currentMonth) < 12 ==> 0 <= currentMonth < 12
    {
      if currentMonth == 11 {
        currentMonth := 0;
        currentYear := currentYear + 1;
      } else {
        currentMonth := currentMonth + 1;
      }
    }

    /** The days the grid shows for the current state. */
    method Days() returns (days: seq<Date>)
      ensures days == MonthDays(FullYear(currentYear), currentMonth)
    {
      days := GetDaysInMonth(currentYear, currentMonth);
    }
  }

  // ---- day cells -----------------------------------------------------------------

  /** `tasks.filter(task => task.endDate === dateStr)`. */
  function TasksDueOn(tasks: seq<Task>, dateStr: string): (r: seq<Task>)
    ensures |r| <= |tasks|
    ensures forall t :: t in r <==> t in tasks && t.endDate == Some(dateStr)
  {
    if tasks == [] then []
    else
      assert tasks == [tasks[0]] + tasks[1..];
      (if tasks[0].endDate == Some(dateStr) then [tasks[0]] else []) + TasksDueOn(tasks[1..], dateStr)
  }

  /** The filter keeps the input order: filtering a concatenation is concatenating
      the filtered parts. */
  lemma {:induction false} TasksDueOnAppend(a: seq<Task>, b: seq<Task>, dateStr: string)
    ensures TasksDueOn(a + b, dateStr) == TasksDueOn(a, dateStr) + TasksDueOn(b, dateStr)
  {
    if a != [] {
      assert (a + b)[0] == a[0];
      assert (a + b)[1..] == a[1..] + b;
      TasksDueOnAppend(a[1..], b, dateStr);
    } else {
      assert a + b == b;
    }
  }

  /** The filter keeps every due task as often as the input holds it, and drops
      every other task. */
  lemma {:induction false} TasksDueOnCount(tasks: seq<Task>, dateStr: string, t: Task)
    ensures multiset(TasksDueOn(tasks, dateStr))[t] == if t.endDate == Some(dateStr) then multiset(tasks)[t] else 0
  {
    if tasks != [] {
      TasksDueOnCount(tasks[1..], dateStr, t);
      assert tasks == [tasks[0]] + tasks[1..];
    }
  }

  /** What one day cell shows and how it is styled. */
  datatype Cell = Cell(key: string, dayOfMonth: int, tasks: seq<Task>, isToday: bool, isSelected: bool)

  /** The cell of `date`: keyed by its `YYYY-MM-DD` string, listing the tasks due
      that day, highlighted when it is today's date and marked when it is the
      selected date. */
  function DayCell(date: Date, tasks: seq<Task>, today: Instant, selected: Option<string>): (c: Cell)
    requires Valid(date)
    ensures c.key == IsoDate(date) && c.dayOfMonth == date.day
    ensures forall t :: t in c.tasks <==> t in tasks && t.endDate == Some(c.key)
    ensures c.isToday <==> date == today.date
    ensures c.isSelected <==> selected == Some(c.key)
  {
    var key := IsoDate(date);
    Cell(key, date.day, TasksDueOn(tasks, key), date == today.date, selected == Some(key))
  }

  /** The grid: one cell per day of the month, in order. `year` is the calendar
      year the days fall in, `FullYear` of the displayed year, as in the days
      `MonthNavigator.Days` returns. */
  function MonthGrid(year: int, month: int, tasks: seq<Task>, today: Instant, selected: Option<string>): (cells: seq<Cell>)
    ensures |cells| == |MonthDays(year, month)|
    ensures forall i :: 0 <= i < |cells| ==> cells[i] == DayCell(MonthDays(year, month)[i], tasks, today, selected)
  {
    var days := MonthDays(year, month);
    seq(|days|, i requires 0 <= i < |days| => DayCell(days[i], tasks, today, selected))
  }

  /** Cell `i` of the grid is keyed by the string of day `i + 1`. */
  lemma CellKey(year: int, month: int, tasks: seq<Task>, today: Instant, selected: Option<string>, i: int)
    requires 0 <= i < |MonthGrid(year, month, tasks, today, selected)|
    ensures 0 <= month < 12 && 1 <= i + 1 <= MonthLength(year, month)
    ensures MonthGrid(year, month, tasks, today, selected)[i].key == IsoDate(Date(year, month, i + 1))
  {
    var days := MonthDays(year, month);
    assert 0 <= month < 12;
    assert days[i] == Date(year, month, i + 1);
  }

  /** Cell `i` lists exactly the tasks due on day `i + 1`. */
  lemma CellMembers(year: int, month: int, tasks: seq<Task>, today: Instant, selected: Option<string>, i: int, t: Task)
    requires 0 <= i < |MonthGrid(year, month, tasks, today, selected)|
    ensures 0 <= month < 12 && 1 <= i + 1 <= MonthLength(year, month)
    ensures t in MonthGrid(year, month, tasks, today, selected)[i].tasks
            <==> t in tasks && t.endDate == Some(IsoDate(Date(year, month, i + 1)))
  {
    CellKey(year, month, tasks, today, selected, i);
  }

  /** The date strings of one month are pairwise distinct, so no task is listed in
      two cells of the grid. */
  lemma AtMostOneCell(year: int, month: int, tasks: seq<Task>, today: Instant, selected: Option<string>,
                      i: int, j: int, t: Task)
    requires 0 <= i < |MonthGrid(year, month, tasks, today, selected)|
    requires 0 <= j < |MonthGrid(year, month, tasks, today, selected)|
    requires i != j
    requires t in MonthGrid(year, month, tasks, today, selected)[i].tasks
    ensures t !in MonthGrid(year, month, tasks, today, selected)[j].tasks
  {
    CellKey(year, month, tasks, today, selected, i);
    CellKey(year, month, tasks, today, selected, j);
    IsoDateDistinctDays(year, month, i + 1, j + 1);
  }

  /** A task whose `endDate` is the string of day `k` of the month is listed in
      exactly that day's cell; its `startDate` plays no part. */
  lemma DueTaskCell(year: int, month: int, tasks: seq<Task>, today: Instant, selected: Option<string>,
                    t: Task, k: int)
    requires 0 <= month < 12 && 1 <= k <= MonthLength(year, month)
    requires t in tasks && t.endDate == Some(IsoDate(Date(year, month, k)))
    ensures forall i :: 0 <= i < |MonthGrid(year, month, tasks, today, selected)| ==>
              (t in MonthGrid(year, month, tasks, today, selected)[i].tasks <==> i == k - 1)
  {
    var cells := MonthGrid(year, month, tasks, today, selected);
    forall i | 0 <= i < |cells|
      ensures t in cells[i].tasks <==> i == k - 1
    {
      DueTaskInCell(year, month, tasks, today, selected, t, k, i);
    }
  }

  /** One cell of `DueTaskCell`: cell `i` lists the task exactly when `i` is its day. */
  lemma DueTaskInCell(year: int, month: int, tasks: seq<Task>, today: Instant, selected: Option<string>,
                      t: Task, k: int, i: int)
    requires 0 <= month < 12 && 1 <= k <= MonthLength(year, month)
    requires t in tasks && t.endDate == Some(IsoDate(Date(year, month, k)))
    requires 0 <= i < |MonthGrid(year, month, tasks, today, selected)|
    ensures t in MonthGrid(year, month, tasks, today, selected)[i].tasks <==> i == k - 1
  {
    CellMembers(year, month, tasks, today, selected, i, t);
    var key := IsoDate(Date(year, month, i + 1));
    assert t in MonthGrid(year, month, tasks, today, selected)[i].tasks <==> t.endDate == Some(key);
    SameKeySameDay(year, month, i + 1, k);
  }

  /** Two days of one month have the same date string exactly when they are the
      same day. */
  lemma SameKeySameDay(year: int, month: int, a: int, b: int)
    requires 0 <= month < 12 && 1 <= a <= MonthLength(year, month) && 1 <= b <= MonthLength(year, month)
    ensures IsoDate(Date(year, month, a)) == IsoDate(Date(year, month, b)) <==> a == b
  {
    if a != b {
      IsoDateDistinctDays(year, month, a, b);
    }
  }

  // ---- grid columns -------------------------------------------------------------

  /** The header labels of the seven grid columns. */
  const DaysOfWeek: seq<string> := ["Sun", "Mon", "Tue", "Wed", "Thu", "Fri", "Sat"]

  /** As written, the cells fill the seven-column grid from its first column, so
      the cell of day 1 always sits under "Sun": for March 2025, whose first day
      is a Saturday, the header and the day disagree. */
  lemma FirstCellUnderSunday(tasks: seq<Task>, today: Instant, selected: Option<string>)
    ensures var cells := MonthGrid(2025, 2, tasks, today, selected);
      && |cells| == 31 && cells[0].dayOfMonth == 1
      && DaysOfWeek[0 % 7] == "Sun"
      && Weekday(Date(2025, 2, 1)) == 6 && DaysOfWeek[Weekday(Date(2025, 2, 1))] == "Sat"
  {
    var cells := MonthGrid(2025, 2, tasks, today, selected);
    assert cells[0] == DayCell(Date(2025, 2, 1), tasks, today, selected);
  }

  /** Inside one month, moving `k` days on from day 1 is day `k + 1`. */
  lemma {:induction false} AddDaysInMonth(year: int, month: int, k: int)
    requires 0 <= month < 12 && 0 <= k < MonthLength(year, month)
    ensures AddDays(Date(year, month, 1), k) == Date(year, month, k + 1)
  {
    if k > 0 {
      AddDaysInMonth(year, month, k - 1);
      AddDaysSucc(Date(year, month, 1), k - 1);
    }
  }

  /** Blank cells before day 1 so that it falls under its own weekday. */
  function LeadingBlanks(year: int, month: int): (n: int)
    requires 0 <= month < 12
    ensures 0 <= n < 7
  {
    Weekday(Date(year, month, 1))
  }

  /** With the blanks in front, the cell of day `k` sits in the column of its
      weekday. */
  lemma AlignedColumns(year: int, month: int)
    requires 0 <= month < 12
    ensures forall k :: 1 <= k <= MonthLength(year, month) ==>
              (LeadingBlanks(year, month) + k - 1) % 7 == Weekday(Date(year, month, k))
  {
    forall k | 1 <= k <= MonthLength(year, month)
      ensures (LeadingBlanks(year, month) + k - 1) % 7 == Weekday(Date(year, month, k))
    {
      AddDaysInMonth(year, month, k - 1);
      WeekdayAddDays(Date(year, month, 1), k - 1);
    }
  }

  /** The grid the header calls for: `LeadingBlanks` empty slots, then the day
      cells in order. */
  function AlignedMonthGrid(year: int, month: int, tasks: seq<Task>, today: Instant, selected: Option<string>)
    : (slots: seq<Option<Cell>>)
    requires 0 <= month < 12
    ensures |slots| == LeadingBlanks(year, month) + MonthLength(year, month)
    ensures forall p :: 0 <= p < |slots| ==> (slots[p].None? <==> p < LeadingBlanks(year, month))
  {
    var lead := LeadingBlanks(year, month);
    var cells := MonthGrid(year, month, tasks, today, selected);
    seq(lead + |cells|, p requires 0 <= p < lead + |cells| => if p < lead then None else Some(cells[p - lead]))
  }

  /** In the aligned grid slot `p` is in column `p % 7`, and every day's cell is
      in the column headed by its weekday. */
  lemma AlignedDayCells(year: int, month: int, tasks: seq<Task>, today: Instant, selected: Option<string>)
    requires 0 <= month < 12
    ensures forall k :: 1 <= k <= MonthLength(year, month) ==>
              var p := LeadingBlanks(year, month) + k - 1;
              && AlignedMonthGrid(year, month, tasks, today, selected)[p] == Some(DayCell(Date(year, month, k), tasks, today, selected))
              && DaysOfWeek[p % 7] == DaysOfWeek[Weekday(Date(year, month, k))]
  {
    AlignedColumns(year, month);
    var slots := AlignedMonthGrid(year, month, tasks, today, selected);
    var cells := MonthGrid(year, month, tasks, today, selected);
    var days := MonthDays(year, month);
    forall k | 1 <= k <= MonthLength(year, month)
      ensures slots[LeadingBlanks(year, month) + k - 1] == Some(DayCell(Date(year, month, k), tasks, today, selected))
    {
      assert days[k - 1] == Date(year, month, k);
      assert slots[LeadingBlanks(year, month) + k - 1] == Some(cells[k - 1]);
    }
  }

  /** A task without an `endDate` is in no cell. */
  lemma UndatedTaskInNoCell(year: int, month: int, tasks: seq<Task>, today: Instant, selected: Option<string>, t: Task)
    requires t.endDate.None?
    ensures forall c :: c in MonthGrid(year, month, tasks, today, selected) ==> t !in c.tasks
  {
  }

  /** Clicking a cell reports its date string when a handler is attached; for a
      four-digit year that string reads back as the clicked date. */
  function CellClick(date: Date, hasHandler: bool): (reported: Option<string>)
    requires Valid(date)
    ensures reported.Some? <==> hasHandler
    ensures reported.Some? && 0 <= date.year <= 9999 ==> ParseFullDate(reported.value) == Some(date)
  {
    if hasHandler then
      ReportedDateParses(date);
      Some(IsoDate(date))
    else None
  }

  lemma ReportedDateParses(date: Date)
    requires Valid(date)
    ensures 0 <= date.year <= 9999 ==> ParseFullDate(IsoDate(date)) == Some(date)
  {
    if 0 <= date.year <= 9999 {
      IsoDateRoundTrip(date);
    }
  }
}

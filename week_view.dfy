/** The week grid: 24 hour rows of 48 pixels, seven day columns from Monday to
    Sunday, and the absolutely positioned block of each task that starts at a
    time of day within the week. */
module WeekView {
  import opened Common
  import opened Calendar
  import opened Tasks

  /** Height of one hour row, in pixels. */
  const HourPx: real := 48.0

  /** Height of the header row and the all-day row above the first hour row. */
  const GridTopPx: real := 88.0

  // ---- times of day ----------------------------------------------------------------

  /** The two numbers of an `HH:mm` string. */
  datatype Clock = Clock(hour: int, minute: int)

  predicate ValidClock(c: Clock) {
    0 <= c.hour < 24 && 0 <= c.minute < 60
  }

  function Minutes(c: Clock): int {
    60 * c.hour + c.minute
  }

  function ClockText(c: Clock): string
    requires 0 <= c.hour && 0 <= c.minute
  {
    Decimal(c.hour, 2) + ":" + Decimal(c.minute, 2)
  }

  /** `s.split(":").map(Number)` for a string of the form `DD:DD`; None for any
      other string. */
  function ParseClock(s: string): (r: Option<Clock>)
    ensures r.Some? ==> 0 <= r.value.hour < 100 && 0 <= r.value.minute < 100
    ensures r.Some? ==> ClockText(r.value) == s
  {
    if |s| == 5 && AllDigits(s[0..2]) && s[2] == ':' && AllDigits(s[3..5]) then
      DecimalOfDigits(s[0..2]);
      DecimalOfDigits(s[3..5]);
      assert s == s[0..2] + ":" + s[3..5];
      Some(Clock(DigitsValue(s[0..2]), DigitsValue(s[3..5])))
    else None
  }

  /** Every two-digit time reads back as itself. */
  lemma ClockRoundTrip(c: Clock)
    requires 0 <= c.hour < 100 && 0 <= c.minute < 100
    ensures ParseClock(ClockText(c)) == Some(c)
  {
    DecimalWidth(c.hour, 2);
    DecimalWidth(c.minute, 2);
    DecimalValue(c.hour, 2);
    DecimalValue(c.minute, 2);
    var s := ClockText(c);
    assert s[0..2] == Decimal(c.hour, 2) && s[3..5] == Decimal(c.minute, 2);
  }

  /** The label of hour row `i`: `i.toString().padStart(2, "0") + ":00"`. */
  function HourLabel(i: nat): string
    requires i < 24
  {
    Decimal(i, 2) + ":00"
  }

  /** `hours`: the 24 row labels; label `i` is the time `i:00`. */
  function Hours(): (labels: seq<string>)
    ensures |labels| == 24
    ensures forall i :: 0 <= i < 24 ==> |labels[i]| == 5 && ParseClock(labels[i]) == Some(Clock(i, 0))
  {
    HourLabelsParse();
    seq(24, i requires 0 <= i < 24 => HourLabel(i))
  }

  lemma HourLabelsParse()
    ensures forall i :: 0 <= i < 24 ==> |HourLabel(i)| == 5 && ParseClock(HourLabel(i)) == Some(Clock(i, 0))
  {
    forall i | 0 <= i < 24
      ensures |HourLabel(i)| == 5 && ParseClock(HourLabel(i)) == Some(Clock(i, 0))
    {
      ClockRoundTrip(Clock(i, 0));
      assert HourLabel(i) == ClockText(Clock(i, 0));
    }
  }

  /** `getTopPx`: the offset of a time of day from the top of the first hour row,
      48 pixels per hour, i.e. four fifths of a pixel per minute. None stands for
      the NaN the source computes from text that is not `HH:mm`. */
  function TopPx(time: string): (px: Option<real>)
    ensures px.Some? <==> ParseClock(time).Some?
    ensures px.Some? ==> px.value == 0.8 * Minutes(ParseClock(time).value) as real
  {
    match ParseClock(time)
    case Some(c) => Some(c.hour as real * HourPx + (c.minute as real / 60.0) * HourPx)
    case None => None
  }

  /** Midnight is at the top, and a later time of day is lower down. */
  lemma TopPxMonotone(a: Clock, b: Clock)
    requires ValidClock(a) && ValidClock(b)
    requires a.hour < b.hour || (a.hour == b.hour && a.minute < b.minute)
    ensures TopPx(ClockText(a)).Some? && TopPx(ClockText(b)).Some?
    ensures TopPx(ClockText(a)).value < TopPx(ClockText(b)).value
  {
    ClockRoundTrip(a);
    ClockRoundTrip(b);
    assert Minutes(a) < Minutes(b);
  }

  lemma TopPxMidnight()
    ensures TopPx("00:00") == Some(0.0)
  {
    ClockRoundTrip(Clock(0, 0));
    assert ClockText(Clock(0, 0)) == "00:00";
  }

  /** Each row label sits at its own row: hour `i` starts `48 * i` pixels down. */
  lemma HourRowOffsets(i: nat)
    requires i < 24
    ensures TopPx(Hours()[i]) == Some(HourPx * i as real)
  {
  }

  /** `getHeightPx`: one hour row when there is no end time; otherwise the distance
      from the start time's offset to the end time's, which is zero for equal times
      and negative when the end comes first (nothing clamps it). */
  function HeightPx(start: string, end: Option<string>): (px: Option<real>)
    ensures !Truthy(end) ==> px == Some(HourPx)
    ensures Truthy(end) ==> (px.Some? <==> TopPx(start).Some? && TopPx(end.value).Some?)
    ensures Truthy(end) && px.Some? ==> px.value == TopPx(end.value).value - TopPx(start).value
  {
    if !Truthy(end) then Some(HourPx)
    else
      match (ParseClock(start), ParseClock(end.value))
      case (Some(s), Some(e)) =>
        Some((e.hour as real + e.minute as real / 60.0 - (s.hour as real + s.minute as real / 60.0)) * HourPx)
      case _ => None
  }

  /** A block ending before it starts has negative height; one ending when it
      starts has none. */
  lemma HeightSign(s: Clock, e: Clock)
    requires ValidClock(s) && ValidClock(e)
    ensures HeightPx(ClockText(s), Some(ClockText(e))).Some?
    ensures Minutes(e) < Minutes(s) ==> HeightPx(ClockText(s), Some(ClockText(e))).value < 0.0
    ensures e == s ==> HeightPx(ClockText(s), Some(ClockText(e))).value == 0.0
    ensures Minutes(e) > Minutes(s) ==> HeightPx(ClockText(s), Some(ClockText(e))).value > 0.0
  {
    ClockRoundTrip(s);
    ClockRoundTrip(e);
  }

  // ---- the week ----------------------------------------------------------------------

  /** How many days back the Monday of `d`'s week lies. */
  function BackOffset(d: Date): (k: int)
    requires Valid(d)
    ensures 0 <= k < 7
  {
    var day := Weekday(d);
    if day == 0 then 6 else day - 1
  }

  /** `getStartOfWeek`: move a copy of `now` back to Monday, clear its time of day,
      and list that midnight and the six after it. */
  method StartOfWeek(now: Instant) returns (week: seq<Instant>)
    requires Valid(now.date)
    ensures |week| == 7
    ensures forall i :: 0 <= i < 7 ==> Valid(week[i].date) && week[i].millis == 0
    ensures forall i :: 0 <= i < 6 ==> week[i + 1].date == NextDay(week[i].date)
    ensures Weekday(week[0].date) == 1 && Weekday(week[6].date) == 0
    ensures forall i :: 0 <= i < 7 ==> (week[i].date == now.date <==> i == BackOffset(now.date))
  {
    var day := Weekday(now.date);
    var diff := if day == 0 then 6 else day - 1;
    var start := now;
    start := start.(date := AddDays(start.date, -diff));
    start := start.(millis := 0);
    week := seq(7, i requires 0 <= i < 7 => Instant(AddDays(start.date, i), 0));
    assert forall i :: 0 <= i < 7 ==> week[i].date == AddDays(start.date, i);
    WeekConsecutive(start.date);
    WeekMondayToSunday(now.date, start.date, diff);
    WeekContains(now.date, start.date, diff);
  }

  /** Seven days counted from any date follow one another day by day. */
  lemma WeekConsecutive(monday: Date)
    requires Valid(monday)
    ensures forall i :: 0 <= i < 6 ==> AddDays(monday, i + 1) == NextDay(AddDays(monday, i))
  {
    forall i | 0 <= i < 6
      ensures AddDays(monday, i + 1) == NextDay(AddDays(monday, i))
    {
      AddDaysSucc(monday, i);
    }
  }

  /** Going back `BackOffset(d)` days lands on a Monday, and six days after it is
      a Sunday. */
  lemma WeekMondayToSunday(d: Date, monday: Date, diff: int)
    requires Valid(d) && diff == (if Weekday(d) == 0 then 6 else Weekday(d) - 1)
    requires monday == AddDays(d, -diff)
    ensures Weekday(monday) == 1 && Weekday(AddDays(monday, 6)) == 0
  {
    var w := Weekday(d);
    WeekdayAddDays(d, -diff);
    assert Weekday(monday) == (w - diff) % 7;
    if w == 0 {
      assert (w - diff) % 7 == (-6) % 7 == 1;
    } else {
      assert w - diff == 1;
    }
    WeekdayAddDays(monday, 6);
    assert (1 + 6) % 7 == 0;
  }

  /** Of the seven days from `diff` days before `d`, `d` is the one at `diff` and
      no other. */
  lemma WeekContains(d: Date, monday: Date, diff: int)
    requires Valid(d) && 0 <= diff < 7 && monday == AddDays(d, -diff)
    ensures forall i :: 0 <= i < 7 ==> (AddDays(monday, i) == d <==> i == diff)
  {
    AddDaysAdd(d, -diff, diff);
    assert AddDays(monday, diff) == d;
    AddDaysNumber(d, -diff);
    forall i | 0 <= i < 7
      ensures AddDays(monday, i) == d <==> i == diff
    {
      AddDaysNumber(monday, i);
      if AddDays(monday, i) == d {
        assert DayNumber(monday) + i == DayNumber(d);
      }
    }
  }

  /** The 2024-03-06 example: that Wednesday's week runs from Monday 2024-03-04 to
      Sunday 2024-03-10. */
  lemma WeekOfMarchSixth()
    ensures Weekday(Date(2024, 2, 6)) == 3
    ensures AddDays(Date(2024, 2, 6), -2) == Date(2024, 2, 4)
    ensures AddDays(Date(2024, 2, 4), 6) == Date(2024, 2, 10)
  {
  }

  /** `getColIndex`: the first column whose date string is `dateStr`, or -1. */
  function ColIndex(week: seq<Instant>, dateStr: string): (k: int)
    requires forall i :: 0 <= i < |week| ==> Valid(week[i].date)
    ensures -1 <= k < |week|
    ensures k == -1 <==> forall i :: 0 <= i < |week| ==> IsoDate(week[i].date) != dateStr
    ensures k >= 0 ==> IsoDate(week[k].date) == dateStr
    ensures k >= 0 ==> forall i :: 0 <= i < k ==> IsoDate(week[i].date) != dateStr
  {
    ColIndexFrom(week, dateStr, 0)
  }

  /** The search of `findIndex`, from column `from` on. */
  function ColIndexFrom(week: seq<Instant>, dateStr: string, from: nat): (k: int)
    requires from <= |week|
    requires forall i :: 0 <= i < |week| ==> Valid(week[i].date)
    ensures k == -1 || from <= k < |week|
    ensures k == -1 <==> forall i :: from <= i < |week| ==> IsoDate(week[i].date) != dateStr
    ensures k >= 0 ==> IsoDate(week[k].date) == dateStr
    ensures k >= 0 ==> forall i :: from <= i < k ==> IsoDate(week[i].date) != dateStr
    decreases |week| - from
  {
    if from == |week| then -1
    else if IsoDate(week[from].date) == dateStr then from
    else ColIndexFrom(week, dateStr, from + 1)
  }

  /** The UTC calendar date of local midnight on `local`, in a time zone
      `offsetMinutes` ahead of UTC (negative west of Greenwich): east of UTC that
      instant still falls on the previous day. */
  function UtcDateOfMidnight(local: Date, offsetMinutes: int): (d: Date)
    requires Valid(local) && -1440 < offsetMinutes < 1440
    ensures Valid(d)
    ensures offsetMinutes > 0 ==> d == PrevDay(local)
    ensures offsetMinutes <= 0 ==> d == local
  {
    if offsetMinutes > 0 then PrevDay(local) else local
  }

  /** The columns as `toISOString` sees them: each date replaced by the UTC date
      of its local midnight. */
  function UtcView(week: seq<Instant>, offsetMinutes: int): (utc: seq<Instant>)
    requires forall i :: 0 <= i < |week| ==> Valid(week[i].date)
    requires -1440 < offsetMinutes < 1440
    ensures |utc| == |week|
    ensures forall i :: 0 <= i < |week| ==> utc[i].date == UtcDateOfMidnight(week[i].date, offsetMinutes)
    ensures forall i :: 0 <= i < |week| ==> Valid(utc[i].date)
  {
    seq(|week|, i requires 0 <= i < |week| => week[i].(date := UtcDateOfMidnight(week[i].date, offsetMinutes)))
  }

  /** `getColIndex` as written: it compares the UTC date of each column's local
      midnight with the task's date. */
  function ColIndexAsWritten(week: seq<Instant>, dateStr: string, offsetMinutes: int): (k: int)
    requires forall i :: 0 <= i < |week| ==> Valid(week[i].date)
    requires -1440 < offsetMinutes < 1440
    ensures -1 <= k < |week|
    ensures k >= 0 ==> IsoDate(UtcDateOfMidnight(week[k].date, offsetMinutes)) == dateStr
    ensures k == -1 <==> forall i :: 0 <= i < |week| ==> IsoDate(UtcDateOfMidnight(week[i].date, offsetMinutes)) != dateStr
    ensures k >= 0 ==> forall i :: 0 <= i < k ==> IsoDate(UtcDateOfMidnight(week[i].date, offsetMinutes)) != dateStr
  {
    ColIndex(UtcView(week, offsetMinutes), dateStr)
  }

  /** West of UTC (and at UTC) the code as written finds the column of the task's
      local date. */
  lemma AsWrittenWestOfUtc(week: seq<Instant>, dateStr: string, offsetMinutes: int)
    requires forall i :: 0 <= i < |week| ==> Valid(week[i].date)
    requires -1440 < offsetMinutes <= 0
    ensures ColIndexAsWritten(week, dateStr, offsetMinutes) == ColIndex(week, dateStr)
  {
    assert UtcView(week, offsetMinutes) == week;
  }

  /** East of UTC the code as written is one column off: in the week of Monday
      2024-03-04 at UTC+01:00, a task dated that Monday is drawn in the Tuesday
      column, and a task dated Sunday 2024-03-10 is not drawn at all; the column
      lookup by local date puts them under Monday and Sunday. */
  lemma UtcColumnShift()
    ensures var week := MarchWeek();
      && ColIndexAsWritten(week, IsoDate(Date(2024, 2, 4)), 60) == 1
      && ColIndexAsWritten(week, IsoDate(Date(2024, 2, 10)), 60) == -1
      && ColIndex(week, IsoDate(Date(2024, 2, 4))) == 0
      && ColIndex(week, IsoDate(Date(2024, 2, 10))) == 6
  {
    var week := MarchWeek();
    var utc := UtcView(week, 60);
    MarchWeekUtc(week, utc);
    IsoDateDistinctDays(2024, 2, 3, 4);
    FirstMatch(utc, IsoDate(Date(2024, 2, 4)), 1);
    forall i | 0 <= i < 7
      ensures IsoDate(utc[i].date) != IsoDate(Date(2024, 2, 10))
    {
      IsoDateDistinctDays(2024, 2, 3 + i, 10);
    }
    FirstMatch(week, IsoDate(Date(2024, 2, 4)), 0);
    forall i | 0 <= i < 6
      ensures IsoDate(week[i].date) != IsoDate(Date(2024, 2, 10))
    {
      IsoDateDistinctDays(2024, 2, 4 + i, 10);
    }
    FirstMatch(week, IsoDate(Date(2024, 2, 10)), 6);
  }

  /** The midnights of Monday 2024-03-04 .. Sunday 2024-03-10. */
  function MarchWeek(): (week: seq<Instant>)
    ensures |week| == 7
    ensures forall i :: 0 <= i < 7 ==> week[i].date == Date(2024, 2, 4 + i) && Valid(week[i].date)
  {
    seq(7, i requires 0 <= i < 7 => Instant(Date(2024, 2, 4 + i), 0))
  }

  /** At UTC+01:00 the local midnights of 2024-03-04 .. 2024-03-10 fall on
      2024-03-03 .. 2024-03-09 in UTC. */
  lemma MarchWeekUtc(week: seq<Instant>, utc: seq<Instant>)
    requires week == MarchWeek()
    requires utc == UtcView(week, 60)
    ensures forall i :: 0 <= i < 7 ==> utc[i].date == Date(2024, 2, 3 + i)
  {
    forall i | 0 <= i < 7
      ensures utc[i].date == Date(2024, 2, 3 + i)
    {
      assert utc[i].date == PrevDay(Date(2024, 2, 4 + i));
    }
  }

  /** A column that matches, with no match before it, is the one `ColIndex`
      finds. */
  lemma FirstMatch(week: seq<Instant>, dateStr: string, j: int)
    requires forall i :: 0 <= i < |week| ==> Valid(week[i].date)
    requires 0 <= j < |week| && IsoDate(week[j].date) == dateStr
    requires forall i :: 0 <= i < j ==> IsoDate(week[i].date) != dateStr
    ensures ColIndex(week, dateStr) == j
  {
  }

  /** Which header cell is highlighted as today. */
  function TodayColumns(week: seq<Instant>, today: Instant): (marks: seq<bool>)
    ensures |marks| == |week|
    ensures forall i :: 0 <= i < |week| ==> (marks[i] <==> week[i].date == today.date)
  {
    seq(|week|, i requires 0 <= i < |week| => week[i].date == today.date)
  }

  // ---- task blocks -------------------------------------------------------------------

  /** A positioned task block: its grid column (`col + 2`, after the label column),
      its span, its offsets in pixels, and the `(start–end)` text when the task
      has an end time. */
  datatype Block = Block(key: string, title: string, column: int, span: int,
                         top: Option<real>, height: Option<real>, timeRange: Option<string>)

  /** Some column of the week has the date `dateStr`. */
  predicate HasColumn(week: seq<Instant>, dateStr: string)
    requires forall i :: 0 <= i < |week| ==> Valid(week[i].date)
  {
    exists i :: 0 <= i < |week| && IsoDate(week[i].date) == dateStr
  }

  /** The block of a task whose start date is in column `col`. */
  function TaskBlock(t: Task, col: int): (b: Block)
    requires Truthy(t.startTime)
    ensures b.key == t.id && b.title == t.title && b.column == col + 2 && b.span == 1
    ensures b.top.Some? <==> TopPx(t.startTime.value).Some?
    ensures b.top.Some? ==> b.top.value == TopPx(t.startTime.value).value + GridTopPx
    ensures b.height == HeightPx(t.startTime.value, t.endTime)
    ensures b.timeRange.Some? <==> Truthy(t.endTime)
  {
    var start := t.startTime.value;
    var top := match TopPx(start) case Some(px) => Some(px + GridTopPx) case None => None;
    var range := if Truthy(t.endTime) then Some("(" + start + "\U{2013}" + t.endTime.value + ")") else None;
    Block(t.id, t.title, col + 2, 1, top, HeightPx(start, t.endTime), range)
  }

  /** The block a task gets, or None when the map callback returns null. */
  function PlaceTask(week: seq<Instant>, t: Task): (b: Option<Block>)
    requires forall i :: 0 <= i < |week| ==> Valid(week[i].date)
    ensures b.Some? <==> Truthy(t.startDate) && Truthy(t.startTime) && HasColumn(week, t.startDate.value)
    ensures b.Some? ==> 2 <= b.value.column < |week| + 2
                        && IsoDate(week[b.value.column - 2].date) == t.startDate.value
    ensures b.Some? ==> b.value == TaskBlock(t, b.value.column - 2)
  {
    if !Truthy(t.startDate) || !Truthy(t.startTime) then None
    else
      var col := ColIndex(week, t.startDate.value);
      assert col == -1 <==> !HasColumn(week, t.startDate.value);
      if col == -1 then None
      else Some(TaskBlock(t, col))
  }

  /** What one call of the `tasks.map` callback contributes: the task's block,
      or nothing when the callback returns null. */
  function BlockOf(week: seq<Instant>, t: Task): (r: seq<Block>)
    requires forall i :: 0 <= i < |week| ==> Valid(week[i].date)
    ensures |r| == (if PlaceTask(week, t).Some? then 1 else 0)
    ensures PlaceTask(week, t).Some? ==> r[0] == PlaceTask(week, t).value
  {
    match PlaceTask(week, t)
    case Some(b) => [b]
    case None => []
  }

  /** The blocks rendered for a task list, in task order. */
  function WeekBlocks(week: seq<Instant>, tasks: seq<Task>): (blocks: seq<Block>)
    requires forall i :: 0 <= i < |week| ==> Valid(week[i].date)
    ensures |blocks| <= |tasks|
  {
    if tasks == [] then []
    else BlockOf(week, tasks[0]) + WeekBlocks(week, tasks[1..])
  }

  /** The blocks of a task list are the blocks of its first part followed by
      those of the rest, so blocks keep the order of their tasks. */
  lemma {:induction false} WeekBlocksAppend(week: seq<Instant>, a: seq<Task>, b: seq<Task>)
    requires forall i :: 0 <= i < |week| ==> Valid(week[i].date)
    ensures WeekBlocks(week, a + b) == WeekBlocks(week, a) + WeekBlocks(week, b)
  {
    if a == [] {
      assert a + b == b;
    } else {
      assert (a + b)[0] == a[0] && (a + b)[1..] == a[1..] + b;
      WeekBlocksAppend(week, a[1..], b);
      var x, front, back := BlockOf(week, a[0]), WeekBlocks(week, a[1..]), WeekBlocks(week, b);
      assert x + (front + back) == (x + front) + back;
    }
  }

  /** A list of one task gives that task's block, if it has one. */
  lemma WeekBlocksSingle(week: seq<Instant>, t: Task)
    requires forall i :: 0 <= i < |week| ==> Valid(week[i].date)
    ensures |WeekBlocks(week, [t])| == (if PlaceTask(week, t).Some? then 1 else 0)
    ensures PlaceTask(week, t).Some? ==> WeekBlocks(week, [t])[0] == PlaceTask(week, t).value
  {
    assert [t][1..] == [];
    assert WeekBlocks(week, [t]) == BlockOf(week, t) + [];
  }

  /** Every block comes from a task of the list, and every task that can be placed
      has its block among them. */
  lemma {:induction false} WeekBlocksMembers(week: seq<Instant>, tasks: seq<Task>)
    requires forall i :: 0 <= i < |week| ==> Valid(week[i].date)
    ensures forall b :: b in WeekBlocks(week, tasks) ==> exists t :: t in tasks && PlaceTask(week, t) == Some(b)
    ensures forall t :: t in tasks && PlaceTask(week, t).Some? ==> PlaceTask(week, t).value in WeekBlocks(week, tasks)
  {
    if tasks != [] {
      WeekBlocksMembers(week, tasks[1..]);
      var x, rest := BlockOf(week, tasks[0]), WeekBlocks(week, tasks[1..]);
      assert WeekBlocks(week, tasks) == x + rest;
      forall b | b in WeekBlocks(week, tasks)
        ensures exists t :: t in tasks && PlaceTask(week, t) == Some(b)
      {
        if b in x {
          assert tasks[0] in tasks && PlaceTask(week, tasks[0]) == Some(b);
        } else {
          var t :| t in tasks[1..] && PlaceTask(week, t) == Some(b);
          assert t in tasks;
        }
      }
      forall t | t in tasks && PlaceTask(week, t).Some?
        ensures PlaceTask(week, t).value in WeekBlocks(week, tasks)
      {
        if t == tasks[0] {
          assert PlaceTask(week, t).value == x[0];
        } else {
          assert t in tasks[1..];
        }
      }
    }
  }

  /** A task without a start time never shows in the week grid, whatever its dates. */
  lemma NoStartTimeNoBlock(week: seq<Instant>, tasks: seq<Task>, t: Task)
    requires forall i :: 0 <= i < |week| ==> Valid(week[i].date)
    requires !Truthy(t.startTime)
    ensures forall b :: b in WeekBlocks(week, tasks) ==> PlaceTask(week, t) != Some(b)
  {
  }
}

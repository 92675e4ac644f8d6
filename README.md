# taskflow calendar core in Dafny

This is a Dafny model of the calendar engine inside the taskflow task-scheduling UI, with proofs about it. The model covers:

- **The month grid.** The days of a month are listed by stepping a date forward one day at a time. A previous/next navigation state runs over (month 0..11, year). Each day cell lists the tasks whose `endDate` is that day's `YYYY-MM-DD` string, and is marked as today and as selected.
- **The week grid.** The Monday-to-Sunday week around today has 24 hour rows of 48 px. A task's column is the one whose date is the task's date. `HH:mm` times become pixel offsets and heights. The placement rule decides which tasks become blocks and where they go.
- **The add-task form.** It has five input fields and a submit rule. The rule ignores a blank title, trims the title, turns empty dates into "absent", turns an empty category into `"Uncategorized"`, and resets the inputs.
- **The task list.** This covers the status colours, the duration tooltip built by successive appends and a final trim, the status button's hover title, and one row per task.
- **The colour mappings** of statuses and categories, and the first version of the task list with its fixed sample tasks.
- **The tab bar.** A click asks for a change only when the clicked tab is not the active one.

## How it is organised

JavaScript's `Date` is replaced by calendar arithmetic on `(year, month 0..11, day)` in module `Calendar`:
- Stepping by days crosses month and year ends.
- The leap-year rule is the one in Appendix C of RFC 3339.
- The day of the week counts from 0 = Sunday.
- The `en-CA` rendering is the full-date form of section 5.6 of RFC 3339, proved to round-trip through a parser of that form.

`Common` holds the JavaScript string semantics the views rely on:
- an optional value standing for `undefined`;
- truthiness of a string;
- `String.prototype.trim` with the ECMAScript whitespace set;
- zero-padded decimal text.

Each core source file has its own module: `MonthView`, `WeekView`, `AddTaskForm`, `SharedTaskList`, `Colors`, `LegacyTaskList` and `CalendarTabs`. The `Task` record lives in `Tasks`; it carries the fields the views read.

State that the source changes step by step is imperative in the model:
- `MonthView.GetDaysInMonth` is a `while` loop over a moving date.
- `MonthView.MonthNavigator` is a class holding the month and year.
- `WeekView.StartOfWeek` moves a copy of "now" back to Monday and clears its time.
- `AddTaskForm.TaskForm` is a class with the five input fields.
- `SharedTaskList.FormatDurationTooltip` accumulates the tooltip with appends.

Four of them are proved equal to a pure function, and the properties are proved about that function:
- `GetDaysInMonth` returns `MonthDays`;
- `MonthNavigator`'s clicks apply `PreviousMonth` and `NextMonth`;
- `TaskForm.HandleSubmit` does what `Submit` describes;
- `FormatDurationTooltip` returns `DurationTooltip`.

`StartOfWeek` has no such function: its contract states the properties of the week directly.

## Model

| member | source | states |
|---|---|---|
| Common.TrimStart | src/components/AddTaskForm.tsx:33 | the result is a suffix of the input; what it drops is all whitespace; it starts with a non-whitespace character |
| Common.TrimEnd | src/shared/components/TaskList.tsx:48 | the result is a prefix of the input; what it drops is all whitespace; it ends with a non-whitespace character |
| Common.Truthy | src/views/WeekView.tsx:94 | an optional string is falsy exactly when it is `undefined` or the empty string |
| Common.TrimSpec | src/components/AddTaskForm.tsx:33-37 | `trim` returns a contiguous slice of its input with only whitespace on either side |
| Common.Trim | src/components/AddTaskForm.tsx:33-37 | `trim` returns a string no longer than its input that is empty or has no whitespace at either end; `TrimSpec` shows that it is the input with only whitespace cut off both ends |
| Common.TrimEmptyIffBlank | src/components/AddTaskForm.tsx:33 | a title trims to the empty string exactly when it consists only of whitespace |
| Common.TrimEndAppendSpace | src/shared/components/TaskList.tsx:40-48 | trailing whitespace appended before the trim does not change the trimmed result |
| Common.Decimal | src/views/WeekView.tsx:11 | `padStart(w, "0")` of a number: all digits, at least `w` of them |
| Common.DecimalValue | src/views/WeekView.tsx:11 | the padded text denotes the number it renders |
| Common.DecimalWidth | src/views/WeekView.tsx:11 | a number below 10^w is padded to exactly `w` digits |
| Common.DecimalOfDigits | src/views/WeekView.tsx:32 | every string of digits is the padded rendering of its own value, so reading digits is inverted by padding |
| Calendar.MonthLength | src/views/MonthView.tsx:23-31 | 31 days exactly for months 0, 2, 4, 6, 7, 9 and 11; 30 exactly for months 3, 5, 8 and 10; February has 29 exactly in leap years |
| Calendar.NextDay | src/views/MonthView.tsx:28 | `setDate(getDate() + 1)` gives a valid date |
| Calendar.PrevDay | src/views/WeekView.tsx:18 | one day back gives a valid date |
| Calendar.NextPrevInverse | src/views/MonthView.tsx:28 | a step forward and a step back undo each other |
| Calendar.NextDayNumber | src/views/MonthView.tsx:28 | a step forward adds exactly one to the day count, across month and year ends |
| Calendar.AddDays | src/views/WeekView.tsx:18-23 | `setDate(getDate() + k)` for any `k`, including values that leave the month, gives a valid date |
| Calendar.AddDaysNumber | src/views/WeekView.tsx:18-23 | moving by `k` days changes the day count by exactly `k` |
| Calendar.AddDaysSucc | src/views/WeekView.tsx:20-23 | moving by `k + 1` days is one step after moving by `k` |
| Calendar.AddDaysAdd | src/views/WeekView.tsx:18-22 | moving by `a` and then by `b` days is moving by `a + b` |
| Calendar.Weekday | src/views/WeekView.tsx:15 | `getDay()` is in 0..6, 0 for Sunday; `WeekdayAddDays` relates it to moving by days |
| Calendar.WeekdayAddDays | src/views/WeekView.tsx:15 | moving by `k` days moves `getDay()` by `k` modulo 7 |
| Calendar.ParseOfFields | src/views/MonthView.tsx:111 | four, two and two digits joined by hyphens parse as the date they name, when that date exists |
| Calendar.IsoDateRoundTrip | src/views/MonthView.tsx:111 | the `YYYY-MM-DD` string of a date in years 0..9999 parses back as that date |
| Calendar.ParseFullDateRoundTrip | src/views/MonthView.tsx:111 | every well-formed full-date string is the rendering of the date it denotes |
| Calendar.FullDateSlices | src/views/MonthView.tsx:111 | in a `YYYY-MM-DD` string the year, month and day fields sit at positions 0..3, 5..6 and 8..9, with dashes at 4 and 7 |
| Calendar.IsoDate | src/views/MonthView.tsx:111 | `toLocaleDateString("en-CA")` gives at least ten characters; `IsoDateShape` and `IsoDateRoundTrip` give its form and read it back |
| Calendar.IsoDateShape | src/views/MonthView.tsx:111 | the date string ends in `-MM-DD` and starts with a minus sign exactly for years below 0 |
| Calendar.IsoDateDistinctDays | src/views/MonthView.tsx:110-113 | two different days of one month render to different strings |
| Tasks.StatusText | src/components/AddTaskForm.tsx:4 | every status is written as a non-empty string |
| Tasks.ParseStatus | src/components/AddTaskForm.tsx:64 | a string read as a status is that status's own text |
| Tasks.StatusTextRoundTrip | src/components/AddTaskForm.tsx:4 | each status string reads back as its status |
| MonthView.FullYear | src/views/MonthView.tsx:24 | the `Date` constructor's year: a year in 0..99 becomes one of the 1900s with the same last two digits, any other year is kept |
| MonthView.FirstOfMonth | src/views/MonthView.tsx:24 | `new Date(year, month, 1)` is day 1 of the month `month` counted from January of the full year, so it is in month `month` exactly when that month is in 0..11 |
| MonthView.TwoDigitYearFebruary | src/views/MonthView.tsx:23-31 | year 0, month 1 shows February 1900, with 28 days, not a February of year 0 |
| MonthView.MonthDays | src/views/MonthView.tsx:23-31 | the days of a month are days 1..length of that month and year, in order; an out-of-range month gives none |
| MonthView.GetDaysInMonth | src/views/MonthView.tsx:23-31 | the loop returns the days of the month in the full year (1900 + year for a year in 0..99): it starts at day 1, each day is the next day of the one before, all are in the month, and there are as many as the month is long |
| MonthView.LeapFebruary | src/views/MonthView.tsx:23-31 | February has 29 days in 2024 and 2000, and 28 in 2023 and 1900 |
| MonthView.PreviousMonth | src/views/MonthView.tsx:69-76 | from January to December of the year before, otherwise one month back; the month stays in 0..11 and `year * 12 + month` falls by one |
| MonthView.NextMonth | src/views/MonthView.tsx:88-95 | from December to January of the year after, otherwise one month on; the month stays in 0..11 and `year * 12 + month` rises by one |
| MonthView.MonthIndexInjective | src/views/MonthView.tsx:69-95 | with months in 0..11, `year * 12 + month` determines both |
| MonthView.NavigationRoundTrip | src/views/MonthView.tsx:69-95 | next then previous, and previous then next, return to the same month and year |
| MonthView.MonthNavigator.constructor | src/views/MonthView.tsx:43-52 | the state starts at the given (loaded) month and year |
| MonthView.MonthNavigator.Previous | src/views/MonthView.tsx:69-76 | the click handler moves the state to the previous month |
| MonthView.MonthNavigator.Next | src/views/MonthView.tsx:88-95 | the click handler moves the state to the next month |
| MonthView.MonthNavigator.Days | src/views/MonthView.tsx:61 | the grid shows the days of the current month in the full year of the current year |
| MonthView.TasksDueOn | src/views/MonthView.tsx:113 | a task is kept exactly when it is in the list and its `endDate` is the day's string |
| MonthView.TasksDueOnAppend | src/views/MonthView.tsx:113 | the filter keeps the input order |
| MonthView.TasksDueOnCount | src/views/MonthView.tsx:113 | each due task is kept as many times as it occurs; every other task is dropped |
| MonthView.DayCell | src/views/MonthView.tsx:111-126 | the cell is keyed by the day's string and shows its day number; it lists exactly the tasks due that day; it is today's exactly when its date is today's; it is selected exactly when `selectedDate` is its string |
| MonthView.MonthGrid | src/views/MonthView.tsx:110-148 | one cell per day of the month, in order; its year is the full year of the displayed year |
| MonthView.AtMostOneCell | src/views/MonthView.tsx:110-113 | no task is listed in two cells |
| MonthView.CellMembers | src/views/MonthView.tsx:110-113 | cell `i` lists exactly the tasks whose `endDate` is the string of day `i + 1` |
| MonthView.DueTaskInCell | src/views/MonthView.tsx:110-113 | a task due on day `k` is in cell `i` exactly when `i` is `k - 1` |
| MonthView.SameKeySameDay | src/views/MonthView.tsx:110-113 | two days of one month share a date string exactly when they are the same day |
| MonthView.DueTaskCell | src/views/MonthView.tsx:110-113 | a task due on day `k` is listed in that day's cell and in no other, whatever its `startDate` |
| MonthView.UndatedTaskInNoCell | src/views/MonthView.tsx:113 | a task without `endDate` is in no cell |
| MonthView.CellClick | src/views/MonthView.tsx:119 | a click reports something exactly when a handler is attached, and what it reports parses back as the clicked date |
| MonthView.FirstCellUnderSunday | src/views/MonthView.tsx:109-110 | as written, day 1 of March 2025, a Saturday, is drawn in the first column, which is headed "Sun" |
| MonthView.AddDaysInMonth | src/views/MonthView.tsx:26-29 | within a month, `k` steps from day 1 reach day `k + 1` |
| MonthView.LeadingBlanks | src/views/MonthView.tsx:101-110 | the number of blank cells before day 1 is between 0 and 6 |
| MonthView.AlignedColumns | src/views/MonthView.tsx:101-110 | after the blank cells, the column of every day is its weekday |
| MonthView.AlignedMonthGrid | src/views/MonthView.tsx:101-110 | the corrected grid: exactly `LeadingBlanks` empty slots, then one slot per day of the month |
| MonthView.AlignedDayCells | src/views/MonthView.tsx:101-110 | in the corrected grid, day `k`'s cell sits in the column whose header names its weekday |
| WeekView.ParseClock | src/views/WeekView.tsx:32 | an `HH:mm` string is split into two numbers below 100, and writing them back gives the same string |
| WeekView.ClockRoundTrip | src/views/WeekView.tsx:32 | every two-digit hour and minute parses back from its text |
| WeekView.Hours | src/views/WeekView.tsx:9-12 | there are 24 labels of five characters each, and label `i` is the time `i:00` |
| WeekView.HourLabelsParse | src/views/WeekView.tsx:9-12 | each hour label `i` reads as hour `i`, minute 0 |
| WeekView.TopPx | src/views/WeekView.tsx:31-34 | the offset is defined exactly for `HH:mm` text, and equals 0.8 px per minute of the day |
| WeekView.TopPxMonotone | src/views/WeekView.tsx:31-34 | a later time of day has a strictly larger offset |
| WeekView.TopPxMidnight | src/views/WeekView.tsx:31-34 | midnight is at offset 0 |
| WeekView.HourRowOffsets | src/views/WeekView.tsx:9-34 | hour row `i` starts 48 * `i` px down |
| WeekView.HeightPx | src/views/WeekView.tsx:37-42 | the height is 48 without an end time; otherwise it is the end offset minus the start offset |
| WeekView.HeightSign | src/views/WeekView.tsx:37-42 | the height is negative when the end comes first, zero when the times are equal, and positive otherwise (it is not clamped) |
| WeekView.BackOffset | src/views/WeekView.tsx:15-16 | the Monday lies 0..6 days back |
| WeekView.StartOfWeek | src/views/WeekView.tsx:14-25 | the result is seven consecutive valid dates at midnight, from a Monday to a Sunday, and it holds today's date exactly at the back offset |
| WeekView.WeekConsecutive | src/views/WeekView.tsx:20-24 | the seven dates follow one another day by day |
| WeekView.WeekMondayToSunday | src/views/WeekView.tsx:15-19 | going back 6 days from a Sunday, or `getDay() - 1` days otherwise, lands on a Monday, and six days after it is a Sunday |
| WeekView.WeekContains | src/views/WeekView.tsx:15-23 | the given date is in its week, at the back offset and nowhere else |
| WeekView.WeekOfMarchSixth | src/views/WeekView.tsx:14-25 | the week of Wednesday 2024-03-06 runs from Monday 2024-03-04 to Sunday 2024-03-10 |
| WeekView.ColIndex | src/views/WeekView.tsx:27-28 | returns -1 exactly when no column has the date; otherwise the first column whose local date renders as the string |
| WeekView.ColIndexFrom | src/views/WeekView.tsx:27-28 | the search from a given column on: -1 exactly when no later column has the date, otherwise the first such column |
| WeekView.FirstMatch | src/views/WeekView.tsx:27-28 | a matching column with no match before it is the one found |
| WeekView.UtcDateOfMidnight | src/views/WeekView.tsx:28 | the UTC date of local midnight is the day before east of UTC and the same day otherwise |
| WeekView.UtcView | src/views/WeekView.tsx:28 | each column's date is replaced by the UTC date of its local midnight |
| WeekView.ColIndexAsWritten | src/views/WeekView.tsx:27-28 | as written, the column found is the first whose UTC date of local midnight renders as the string (no earlier column's does), or -1 when there is none |
| WeekView.AsWrittenWestOfUtc | src/views/WeekView.tsx:27-28 | at UTC and west of it, the code as written finds the same column as the local-date lookup |
| WeekView.UtcColumnShift | src/views/WeekView.tsx:27-28 | at UTC+01:00, the code as written draws a Monday task under Tuesday and drops a Sunday task, where the local-date lookup uses Monday and Sunday |
| WeekView.TodayColumns | src/views/WeekView.tsx:57 | a header is highlighted exactly when its date is today's |
| WeekView.HasColumn | src/views/WeekView.tsx:96 | some column of the week has the date |
| WeekView.TaskBlock | src/views/WeekView.tsx:97-121 | the block of a task placed in column `col` is keyed by the task's id, is at grid column `col + 2`, spans 1, sits 88 px below the start time's offset, has `getHeightPx`'s height, and shows a time range exactly when an end time is set |
| WeekView.PlaceTask | src/views/WeekView.tsx:93-106 | a task gets a block exactly when it has a non-empty start date and time and a column has its start date; the block is in the column of its start date, at grid column 2..`|week|`+1 |
| WeekView.BlockOf | src/views/WeekView.tsx:93-127 | one callback of `tasks.map` yields exactly one block, the task's placement, when the task can be placed, and nothing otherwise |
| WeekView.WeekBlocks | src/views/WeekView.tsx:93-127 | there are never more blocks than tasks |
| WeekView.WeekBlocksAppend | src/views/WeekView.tsx:93-127 | the blocks of two task lists joined are the blocks of the first followed by those of the second, so blocks keep task order |
| WeekView.WeekBlocksSingle | src/views/WeekView.tsx:93-127 | one task gives one block, its placement, when it can be placed, and no block otherwise |
| WeekView.WeekBlocksMembers | src/views/WeekView.tsx:93-127 | every block comes from a task of the list, and every task that can be placed has its block |
| WeekView.NoStartTimeNoBlock | src/views/WeekView.tsx:94 | a task without a start time is never drawn, whatever its dates |
| AddTaskForm.StatusOptionsAreStatuses | src/components/AddTaskForm.tsx:62-69 | the status select offers each of the three statuses once, and only statuses |
| AddTaskForm.OrUndefined | src/components/AddTaskForm.tsx:39-40 | an empty string becomes absent; any other string is passed unchanged |
| AddTaskForm.Submit | src/components/AddTaskForm.tsx:31-49 | a blank title sends nothing and leaves the inputs alone; otherwise it sends the trimmed non-empty title, the status, the dates with "" turned into absent, and the category with "" turned into "Uncategorized", then resets the inputs |
| AddTaskForm.SubmittedValuesClean | src/components/AddTaskForm.tsx:33-41 | a sent title has no whitespace at either end, and a sent category is never empty |
| AddTaskForm.SubmitResets | src/components/AddTaskForm.tsx:20-28 | after a successful submit the form is in its initial state, so submitting again sends nothing |
| AddTaskForm.TaskForm.constructor | src/components/AddTaskForm.tsx:20-28 | the inputs start as "", not started, "", "" and "Work" |
| AddTaskForm.TaskForm.SetTitle | src/components/AddTaskForm.tsx:58 | only the title changes |
| AddTaskForm.TaskForm.SetStatus | src/components/AddTaskForm.tsx:64 | only the status changes |
| AddTaskForm.TaskForm.SetStartDate | src/components/AddTaskForm.tsx:74 | only the start date changes |
| AddTaskForm.TaskForm.SetDueDate | src/components/AddTaskForm.tsx:82 | only the due date changes |
| AddTaskForm.TaskForm.SetCategory | src/components/AddTaskForm.tsx:89 | only the category changes |
| AddTaskForm.TaskForm.HandleSubmit | src/components/AddTaskForm.tsx:31-49 | what the handler sends and the inputs it leaves are the outcome of `Submit` on the inputs before |
| SharedTaskList.StatusColor | src/shared/components/TaskList.tsx:18-28 | in progress is yellow, done is green, and not started is gray |
| SharedTaskList.TooltipParts | src/shared/components/TaskList.tsx:35-47 | there are at most three parts, and none exactly when no start date, end date or end time is set |
| SharedTaskList.FormatDurationTooltip | src/shared/components/TaskList.tsx:30-49 | the appends and the final trim give the reference tooltip: "No dates assigned", or the present parts joined by spaces |
| SharedTaskList.AppendPiece | src/shared/components/TaskList.tsx:39-47 | appending a part after a space extends the joined text by that part |
| SharedTaskList.TrimJoined | src/shared/components/TaskList.tsx:48 | trimming the appended text gives the joined parts, with or without the space after the last part |
| SharedTaskList.TooltipNoDates | src/shared/components/TaskList.tsx:35 | the tooltip is "No dates assigned" exactly when none of the three fields is set |
| SharedTaskList.KeepsNonSpacePrefix | src/shared/components/TaskList.tsx:48 | a trailing trim keeps every character up to the last non-whitespace one |
| SharedTaskList.TooltipTrimmed | src/shared/components/TaskList.tsx:48 | the tooltip is non-empty and has no whitespace at either end |
| SharedTaskList.TooltipOnlyEndTime | src/shared/components/TaskList.tsx:45-48 | with only an end time set, the tooltip is exactly "End Time: " followed by that time |
| SharedTaskList.TooltipAllParts | src/shared/components/TaskList.tsx:38-48 | with all three set, the tooltip is the Start, End and End Time parts in that order |
| SharedTaskList.StatusButtonTitle | src/shared/components/TaskList.tsx:91-95 | the title is the status text, then " - ", then the tooltip |
| SharedTaskList.DateLine | src/shared/components/TaskList.tsx:67-79 | the line starts with "Date: ", then the shown start date or the `--/--/----` placeholder, and ends with the end time when both times are set |
| SharedTaskList.EndTimeNeedsStartTime | src/shared/components/TaskList.tsx:72-78 | without a start time, the date line shows no end time |
| SharedTaskList.TaskRow | src/shared/components/TaskList.tsx:61-98 | a row is keyed by its task's id, shows its title, status label and status colour, has a category line exactly when a category is set, and its button reports the task's id |
| SharedTaskList.TaskRows | src/shared/components/TaskList.tsx:61 | one row per task, in task order; row `i`'s button reports task `i`'s id |
| Colors.StatusDotColor | src/shared/utils/colors.ts:3-13 | done is `bg-green-400`, in progress is `bg-yellow-400`, and not started is `bg-gray-300`; the class is never empty |
| Colors.DotColorsDistinct | src/shared/utils/colors.ts:3-13 | different statuses get different dot classes |
| Colors.DotMatchesButton | src/shared/utils/colors.ts:3-13 | a status's dot class is the first class of its task list button |
| Colors.CategoryBgColor | src/shared/utils/colors.ts:15-26 | Work, Personal and Health get the blue, green and pink triples; any other category, and no category, gets the slate triple; the result is never empty |
| Colors.CategoryColorsDistinct | src/shared/utils/colors.ts:15-26 | two categories share a style exactly when they are equal or both unknown |
| LegacyTaskList.LegacyStatusColor | src/components/TaskList.tsx:1-11 | "in progress" is yellow, "done" is green, and every other string is gray |
| LegacyTaskList.LegacyAgreesWithShared | src/components/TaskList.tsx:1-11 | the string version agrees with the typed one on every status string, and treats any other string as not started |
| LegacyTaskList.LegacyRows | src/components/TaskList.tsx:24-38 | one row per sample task with its id, title, a `--/--/----` due date, and its status badge and colour |
| LegacyTaskList.SampleRows | src/components/TaskList.tsx:14-18 | the sample list shows three rows with ids 1, 2 and 3, one per status, each coloured as the typed list colours it |
| CalendarTabs.Key | src/components/CalendarTabs.tsx:4-8 | every tab has a non-empty key |
| CalendarTabs.TabOptionsComplete | src/components/CalendarTabs.tsx:4-8 | there are exactly three tabs, in the order month, week, timeline, and their keys are distinct |
| CalendarTabs.TabClick | src/components/CalendarTabs.tsx:33-35 | clicking the active tab asks for nothing; clicking any other tab asks for exactly that tab |
| CalendarTabs.TabButton | src/components/CalendarTabs.tsx:17-39 | a button shows its tab's key and label, and it is active, with the slate bottom border, exactly when its tab is the active one |
| CalendarTabs.TabButtons | src/components/CalendarTabs.tsx:17-40 | one button per tab option, in order |
| CalendarTabs.ExactlyOneActive | src/components/CalendarTabs.tsx:22-31 | exactly one button is styled active, the active tab's |
| CalendarTabs.ClickIdempotent | src/components/CalendarTabs.tsx:33-35 | once the clicked tab becomes active, clicking it again asks for nothing |

## Findings

| source | as written | input that shows it | evidently intended | confidence | as-written member | corrected member |
|---|---|---|---|---|---|---|
| src/views/MonthView.tsx:101-110 | the day cells fill the seven-column grid from its first column, so day 1 always sits under the "Sun" header | March 2025: day 1 is a Saturday but is drawn under "Sun" | blank cells before day 1 so that each day sits under its own weekday | high; not executed | MonthView.FirstCellUnderSunday | MonthView.AlignedDayCells |
| src/views/WeekView.tsx:27-28 | a column's date is the UTC date (`toISOString`) of its local midnight, which is the previous day east of UTC | at UTC+01:00, in the week of Monday 2024-03-04: a task dated 2024-03-04 lands in the Tuesday column, and one dated 2024-03-10 is not drawn | compare the column's local calendar date | high; not executed | WeekView.UtcColumnShift | WeekView.ColIndex |

Every other part of the model uses the corrected column lookup `WeekView.ColIndex`. `MonthView.MonthGrid` keeps the source's day order; `MonthView.AlignedMonthGrid` places those same cells under their weekdays.

## Left out

- **Browser storage of the displayed month and year.** `MonthView.MonthNavigator`'s constructor takes the loaded values. `Number()` of a stored string that is not an integer is not modelled.
- **The wall clock.** "Today" and "now" are parameters.
- **Locale formatting.** `toLocaleDateString()` in the task list and tooltip is a parameter `shown`. This includes `new Date("YYYY-MM-DD")`, which reads the string as UTC midnight. `toDateString()` comparisons are modelled as equality of calendar dates. The month title and the week header texts are not modelled.
- **Calendar.IsoDate:** years below 0 are written in the expanded ISO form, with a sign and four digits. What the `en-CA` locale prints for such years is not modelled. `Date`'s range limit of ±100,000,000 days is not modelled either.
- **WeekView.ParseClock:** only the `HH:mm` form that a time input produces is read. `Number()` on other text gives a number or NaN in the source; here it gives None, and so do `WeekView.TopPx` and `WeekView.HeightPx`.
- **Floating point.** Pixel offsets are exact reals rather than IEEE doubles.
- **The time of day inside `StartOfWeek`.** `WeekView.StartOfWeek` sets the time to midnight. Daylight-saving transitions, where local midnight may not exist, are not modelled.
- **Markup.** JSX layout, icons, Tailwind class effects, hover tooltips, the header and sidebar, the placeholder timeline views and `TabSelector` are not modelled. `TabSelector` forwards every click.
- **Features absent from the modelled files.** The task store, id generation, a status-cycle operation, the timeline horizon and multi-day week spans do not exist in the modelled source files, so they are not modelled. The `Task` record is imported from `src/App.tsx`, but that file does not define it. `Tasks.Task` carries the fields the views read.
- **Behaviour kept as the code has it:**
  - `getHeightPx` does not clamp: a block that ends before it starts has a negative height.
  - A week block always spans one column.
  - Missing dates are not defaulted to today.
  - `"Uncategorized"` replaces only the empty category the form sends.
- **Import of the colour helpers.** `src/views/WeekView.tsx:3` imports them from `../shared/utils/Colors`, but the file is `colors.ts`. On a case-sensitive file system that import does not resolve. Module resolution is outside this model.

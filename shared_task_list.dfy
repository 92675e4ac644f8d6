/** The task list panel: one row per task with its date line, its category line
    and a status button whose colour and hover title depend on the task. How a
    date string is shown (`new Date(s).toLocaleDateString()`) depends on the
    locale and the time zone; it is the parameter `shown`. */
module SharedTaskList {
  import opened Common
  import opened Tasks

  /** `getStatusColor`: the class pair of the status button. */
  function StatusColor(s: Status): (c: string)
    ensures c != ""
    ensures s == InProgress <==> c == "bg-yellow-400 text-yellow-900"
    ensures s == Done <==> c == "bg-green-400 text-green-900"
    ensures s == NotStarted <==> c == "bg-gray-300 text-gray-700"
  {
    match s
    case InProgress => "bg-yellow-400 text-yellow-900"
    case Done => "bg-green-400 text-green-900"
    case NotStarted => "bg-gray-300 text-gray-700"
  }

  // ---- the duration tooltip ---------------------------------------------------------

  /** The pieces of the tooltip, in the order Start, End, End Time, each present
      exactly when its field is non-empty. */
  function TooltipParts(shown: string -> string, startDate: Option<string>, endDate: Option<string>,
                        endTime: Option<string>): (parts: seq<string>)
    ensures |parts| <= 3
    ensures parts == [] <==> !Truthy(startDate) && !Truthy(endDate) && !Truthy(endTime)
  {
    (if Truthy(startDate) then ["Start: " + shown(startDate.value)] else [])
    + (if Truthy(endDate) then ["End: " + shown(endDate.value)] else [])
    + (if Truthy(endTime) then ["End Time: " + endTime.value] else [])
  }

  /** The pieces separated by single spaces. */
  function JoinWithSpaces(parts: seq<string>): string {
    if parts == [] then ""
    else if |parts| == 1 then parts[0]
    else parts[0] + " " + JoinWithSpaces(parts[1..])
  }

  /** The tooltip text: "No dates assigned" without any of the three fields,
      otherwise the present pieces joined by spaces, with trailing whitespace
      trimmed. */
  function DurationTooltip(shown: string -> string, startDate: Option<string>, endDate: Option<string>,
                           endTime: Option<string>): string
  {
    var parts := TooltipParts(shown, startDate, endDate, endTime);
    if parts == [] then "No dates assigned" else TrimEnd(JoinWithSpaces(parts))
  }

  /** `formatDurationTooltip`: appends each present piece followed by a space, then
      trims. */
  method FormatDurationTooltip(shown: string -> string, startDate: Option<string>, endDate: Option<string>,
                               endTime: Option<string>) returns (tooltip: string)
    ensures tooltip == DurationTooltip(shown, startDate, endDate, endTime)
  {
    if !Truthy(startDate) && !Truthy(endDate) && !Truthy(endTime) {
      return "No dates assigned";
    }
    // `parts` are the pieces appended so far; every piece but the end time is
    // followed by a space.
    ghost var parts: seq<string> := [];
    tooltip := "";
    if Truthy(startDate) {
      var piece := "Start: " + shown(startDate.value);
      AppendPiece(parts, piece);
      tooltip := tooltip + piece + " ";
      parts := parts + [piece];
    }
    assert parts == [] ==> tooltip == "";
    assert parts != [] ==> tooltip == JoinWithSpaces(parts) + " ";
    if Truthy(endDate) {
      var piece := "End: " + shown(endDate.value);
      AppendPiece(parts, piece);
      tooltip := tooltip + piece + " ";
      parts := parts + [piece];
    }
    assert parts == [] ==> tooltip == "";
    assert parts != [] ==> tooltip == JoinWithSpaces(parts) + " ";
    if Truthy(endTime) {
      var piece := "End Time: " + endTime.value;
      AppendPiece(parts, piece);
      tooltip := tooltip + piece;
      parts := parts + [piece];
    }
    assert parts == TooltipParts(shown, startDate, endDate, endTime);
    TrimJoined(tooltip, parts);
    tooltip := Trim(tooltip);
  }

  /** Trimming the appended text gives the joined pieces without trailing
      whitespace, whether or not a space follows the last piece. */
  lemma TrimJoined(tooltip: string, parts: seq<string>)
    requires parts != [] && parts[0] != "" && !IsWhitespace(parts[0][0])
    requires tooltip == JoinWithSpaces(parts) || tooltip == JoinWithSpaces(parts) + " "
    ensures Trim(tooltip) == TrimEnd(JoinWithSpaces(parts))
  {
    var joined := JoinWithSpaces(parts);
    assert joined[0] == parts[0][0];
    TrimStartNoop(tooltip);
    if tooltip != joined {
      TrimEndAppendSpace(joined, " ");
    }
  }

  /** Joining one more piece onto a non-empty list puts a single space before it. */
  lemma {:induction false} AppendPiece(parts: seq<string>, p: string)
    ensures parts != [] ==> JoinWithSpaces(parts + [p]) == JoinWithSpaces(parts) + " " + p
    ensures parts == [] ==> JoinWithSpaces(parts + [p]) == p
  {
    if |parts| > 1 {
      assert (parts + [p])[1..] == parts[1..] + [p];
      AppendPiece(parts[1..], p);
    } else if |parts| == 1 {
      assert (parts + [p])[1..] == [p];
    }
  }

  /** The tooltip is "No dates assigned" exactly when none of the three fields is
      set; otherwise it starts with the first present piece's label. */
  lemma TooltipNoDates(shown: string -> string, startDate: Option<string>, endDate: Option<string>,
                       endTime: Option<string>)
    ensures DurationTooltip(shown, startDate, endDate, endTime) == "No dates assigned"
            <==> !Truthy(startDate) && !Truthy(endDate) && !Truthy(endTime)
  {
    var parts := TooltipParts(shown, startDate, endDate, endTime);
    if parts != [] {
      var j := JoinWithSpaces(parts);
      assert j[0] == parts[0][0] && (j[0] == 'S' || j[0] == 'E');
      KeepsNonSpacePrefix(j, 0);
    }
  }

  /** TrimEnd keeps everything up to the last character that is not whitespace. */
  lemma KeepsNonSpacePrefix(s: string, k: int)
    requires 0 <= k < |s| && !IsWhitespace(s[k])
    ensures |TrimEnd(s)| > k && TrimEnd(s)[k] == s[k]
  {
  }

  /** The tooltip has no whitespace at either end. */
  lemma TooltipTrimmed(shown: string -> string, startDate: Option<string>, endDate: Option<string>,
                       endTime: Option<string>)
    ensures var t := DurationTooltip(shown, startDate, endDate, endTime);
      t != "" && !IsWhitespace(t[0]) && !IsWhitespace(t[|t| - 1])
  {
    var parts := TooltipParts(shown, startDate, endDate, endTime);
    if parts != [] {
      var j := JoinWithSpaces(parts);
      assert j[0] == parts[0][0];
      KeepsNonSpacePrefix(j, 0);
    }
  }

  /** With only an end time set, the tooltip is "End Time: " and that time (a time
      with no trailing whitespace, as a time input gives). */
  lemma TooltipOnlyEndTime(shown: string -> string, endTime: string)
    requires endTime != "" && !IsWhitespace(endTime[|endTime| - 1])
    ensures DurationTooltip(shown, None, None, Some(endTime)) == "End Time: " + endTime
  {
    var s := "End Time: " + endTime;
    assert TooltipParts(shown, None, None, Some(endTime)) == [s];
    KeepsNonSpacePrefix(s, |s| - 1);
  }

  /** With all three set, the pieces appear in the order Start, End, End Time. */
  lemma TooltipAllParts(shown: string -> string, startDate: string, endDate: string, endTime: string)
    requires startDate != "" && endDate != "" && endTime != "" && !IsWhitespace(endTime[|endTime| - 1])
    ensures DurationTooltip(shown, Some(startDate), Some(endDate), Some(endTime))
            == "Start: " + shown(startDate) + " End: " + shown(endDate) + " End Time: " + endTime
  {
    var s := "Start: " + shown(startDate) + " End: " + shown(endDate) + " End Time: " + endTime;
    var parts := TooltipParts(shown, Some(startDate), Some(endDate), Some(endTime));
    assert parts == ["Start: " + shown(startDate), "End: " + shown(endDate), "End Time: " + endTime];
    assert JoinWithSpaces(parts[2..]) == parts[2];
    assert JoinWithSpaces(parts[1..]) == parts[1] + " " + parts[2];
    assert JoinWithSpaces(parts) == s;
    KeepsNonSpacePrefix(s, |s| - 1);
  }

  // ---- rows -------------------------------------------------------------------------

  /** The hover title of a task's status button. */
  function StatusButtonTitle(shown: string -> string, t: Task): (title: string)
    ensures |title| >= |StatusText(t.status)| + 3
    ensures title[..|StatusText(t.status)|] == StatusText(t.status)
    ensures title[|StatusText(t.status)|..] == " - " + DurationTooltip(shown, t.startDate, t.endDate, t.endTime)
  {
    StatusText(t.status) + " - " + DurationTooltip(shown, t.startDate, t.endDate, t.endTime)
  }

  /** The text under a task's title: its start date (or a placeholder), then
      `@ start` and `- end` when those times are set. */
  function DateLine(shown: string -> string, t: Task): (line: string)
    ensures |line| >= 6 && line[..6] == "Date: "
    ensures !Truthy(t.startDate) ==> |line| >= 16 && line[6..16] == "--/--/----"
    ensures Truthy(t.startDate) ==> |line| >= 6 + |shown(t.startDate.value)|
                                    && line[6..6 + |shown(t.startDate.value)|] == shown(t.startDate.value)
    ensures Truthy(t.startTime) && Truthy(t.endTime) ==>
              |line| >= |t.endTime.value| && line[|line| - |t.endTime.value|..] == t.endTime.value
  {
    var date := if Truthy(t.startDate) then shown(t.startDate.value) else "--/--/----";
    var times := if Truthy(t.startTime)
                 then " @ " + t.startTime.value + (if Truthy(t.endTime) then " - " + t.endTime.value else "")
                 else "";
    assert ("Date: " + date + times)[6..6 + |date|] == date;
    "Date: " + date + times
  }

  /** The end time is shown only after a start time: without a start time the
      line does not depend on the end time. */
  lemma EndTimeNeedsStartTime(shown: string -> string, t: Task, endTime: Option<string>)
    requires !Truthy(t.startTime)
    ensures DateLine(shown, t.(endTime := endTime)) == DateLine(shown, t)
  {
  }

  /** One rendered row. `reports` is what clicking the status button passes to
      `onStatusClick`. */
  datatype Row = Row(key: string, title: string, dateLine: string, categoryLine: Option<string>,
                     buttonLabel: string, buttonColor: string, buttonTitle: string, reports: string)

  function TaskRow(shown: string -> string, t: Task): (r: Row)
    ensures r.key == t.id && r.reports == t.id && r.title == t.title
    ensures r.buttonLabel == StatusText(t.status) && r.buttonColor == StatusColor(t.status)
    ensures r.categoryLine.Some? <==> Truthy(t.category)
  {
    Row(t.id, t.title, DateLine(shown, t),
        if Truthy(t.category) then Some("Category: " + t.category.value) else None,
        StatusText(t.status), StatusColor(t.status), StatusButtonTitle(shown, t), t.id)
  }

  /** The rows of the list: one per task, in task order; clicking row `i`'s button
      reports task `i`'s id. */
  function TaskRows(shown: string -> string, tasks: seq<Task>): (rows: seq<Row>)
    ensures |rows| == |tasks|
    ensures forall i :: 0 <= i < |tasks| ==> rows[i] == TaskRow(shown, tasks[i])
    ensures forall i :: 0 <= i < |tasks| ==> rows[i].reports == tasks[i].id
  {
    seq(|tasks|, i requires 0 <= i < |tasks| => TaskRow(shown, tasks[i]))
  }
}

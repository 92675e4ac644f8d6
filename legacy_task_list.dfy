/** The first version of the task list: a fixed list of three sample tasks whose
    statuses are plain strings, each shown with a coloured badge and a
    placeholder due date. */
module LegacyTaskList {
  import opened Tasks
  import SharedTaskList

  /** `getStatusColor` over an arbitrary string: the three status strings get
      their colours and every other string falls back to gray. */
  function LegacyStatusColor(s: string): (c: string)
    ensures s == "in progress" <==> c == "bg-yellow-400 text-yellow-900"
    ensures s == "done" <==> c == "bg-green-400 text-green-900"
    ensures s != "in progress" && s != "done" <==> c == "bg-gray-300 text-gray-700"
  {
    if s == "in progress" then "bg-yellow-400 text-yellow-900"
    else if s == "done" then "bg-green-400 text-green-900"
    else "bg-gray-300 text-gray-700"
  }

  /** The untyped function agrees with the typed one on every status string, and
      treats any string that names no status like "not started". */
  lemma LegacyAgreesWithShared(s: string)
    ensures ParseStatus(s).Some? ==> LegacyStatusColor(s) == SharedTaskList.StatusColor(ParseStatus(s).value)
    ensures ParseStatus(s).None? ==> LegacyStatusColor(s) == SharedTaskList.StatusColor(NotStarted)
  {
  }

  /** A sample task: a numeric id, a title and a status string. */
  datatype SampleTask = SampleTask(id: int, title: string, status: string)

  const SampleTasks: seq<SampleTask> := [
    SampleTask(1, "Design Homepage", "in progress"),
    SampleTask(2, "Write Wireframe Notes", "done"),
    SampleTask(3, "Plan Database", "not started")
  ]

  /** One rendered row. */
  datatype LegacyRow = LegacyRow(key: int, title: string, dueLine: string, badgeLabel: string, badgeColor: string)

  function LegacyRows(tasks: seq<SampleTask>): (rows: seq<LegacyRow>)
    ensures |rows| == |tasks|
    ensures forall i :: 0 <= i < |tasks| ==>
      rows[i] == LegacyRow(tasks[i].id, tasks[i].title, "Due: --/--/----", tasks[i].status,
                           LegacyStatusColor(tasks[i].status))
  {
    seq(|tasks|, i requires 0 <= i < |tasks| =>
      LegacyRow(tasks[i].id, tasks[i].title, "Due: --/--/----", tasks[i].status, LegacyStatusColor(tasks[i].status)))
  }

  /** Some row carries the badge of status `s`. */
  predicate ShowsStatus(rows: seq<LegacyRow>, s: Status) {
    exists r :: r in rows && r.badgeLabel == StatusText(s)
  }

  /** The sample list shows three rows with distinct keys, one per status, each
      coloured as the typed task list colours that status. */
  lemma SampleRows()
    ensures var rows := LegacyRows(SampleTasks);
      && |rows| == 3
      && rows[0].key == 1 && rows[1].key == 2 && rows[2].key == 3
      && (forall i, j :: 0 <= i < j < |rows| ==> rows[i].key != rows[j].key)
      && (forall i :: 0 <= i < |rows| ==>
            (ParseStatus(rows[i].badgeLabel).Some?
             && rows[i].badgeColor == SharedTaskList.StatusColor(ParseStatus(rows[i].badgeLabel).value)))
      && (forall s: Status :: ShowsStatus(rows, s))
  {
    var rows := LegacyRows(SampleTasks);
    forall s: Status
      ensures ShowsStatus(rows, s)
    {
      var k := match s case InProgress => 0 case Done => 1 case NotStarted => 2;
      assert rows[k] in rows && rows[k].badgeLabel == SampleTasks[k].status == StatusText(s);
    }
  }
}

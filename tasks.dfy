/** The task record the views and the task list read. The record type itself is
    imported by the views from `src/App.tsx`, which is not part of this model; its
    fields here are the ones the views read. */
module Tasks {
  import opened Common

  /** The three values of `TaskStatus`. */
  datatype Status = NotStarted | InProgress | Done

  /** The string each status is written as in the source. */
  function StatusText(s: Status): (t: string)
    ensures t != ""
  {
    match s
    case NotStarted => "not started"
    case InProgress => "in progress"
    case Done => "done"
  }

  /** The status a status string names, if any. */
  function ParseStatus(t: string): (r: Option<Status>)
    ensures r.Some? ==> StatusText(r.value) == t
  {
    if t == "not started" then Some(NotStarted)
    else if t == "in progress" then Some(InProgress)
    else if t == "done" then Some(Done)
    else None
  }

  /** Every status is written as a distinct string that reads back as itself. */
  lemma StatusTextRoundTrip(s: Status)
    ensures ParseStatus(StatusText(s)) == Some(s)
  {
  }

  /** A task. Dates are `YYYY-MM-DD` strings and times `HH:mm` strings, each
      possibly absent (`undefined`) or empty. */
  datatype Task = Task(
    id: string,
    title: string,
    status: Status,
    startDate: Option<string>,
    endDate: Option<string>,
    startTime: Option<string>,
    endTime: Option<string>,
    category: Option<string>)
}

/** The add-task form: five controlled inputs, and a submit handler that ignores a
    blank title, hands the normalised values to `onAddTask` and resets the inputs. */
module AddTaskForm {
  import opened Common
  import opened Tasks

  /** The values of the five inputs. */
  datatype Fields = Fields(title: string, status: Status, startDate: string, dueDate: string, category: string)

  /** What the inputs hold when the form is first shown, and again after each
      successful submit. */
  const Initial: Fields := Fields("", NotStarted, "", "", "Work")

  /** The status select: option values and their labels. */
  const StatusOptions: seq<(string, string)> :=
    [("not started", "Not Started"), ("in progress", "In Progress"), ("done", "Done")]

  /** The category select: option values and their labels. */
  const CategoryOptions: seq<(string, string)> :=
    [("Work", "Work"), ("Personal", "Personal"), ("Health", "Health"), ("", "Uncategorized")]

  /** The status select offers each of the three statuses exactly once, so the
      status input always holds one of them. */
  lemma StatusOptionsAreStatuses()
    ensures forall i :: 0 <= i < |StatusOptions| ==> ParseStatus(StatusOptions[i].0).Some?
    ensures forall s: Status :: exists o :: o in StatusOptions && o.0 == StatusText(s)
    ensures forall i, j :: 0 <= i < j < |StatusOptions| ==> StatusOptions[i].0 != StatusOptions[j].0
  {
    forall s: Status
      ensures exists o :: o in StatusOptions && o.0 == StatusText(s)
    {
      var k := match s case NotStarted => 0 case InProgress => 1 case Done => 2;
      assert StatusOptions[k] in StatusOptions && StatusOptions[k].0 == StatusText(s);
    }
  }

  /** The arguments of one `onAddTask` call. */
  datatype NewTask = NewTask(title: string, status: Status, startDate: Option<string>,
                             dueDate: Option<string>, category: string)

  /** `s || undefined`. */
  function OrUndefined(s: string): (r: Option<string>)
    ensures r.None? <==> s == ""
    ensures r.Some? ==> r.value == s
  {
    if s == "" then None else Some(s)
  }

  /** What a submit does: the `onAddTask` call it makes, if any, and the inputs
      afterwards. */
  datatype Outcome = Outcome(added: Option<NewTask>, next: Fields)

  /** `handleSubmit` on the given inputs. */
  function Submit(f: Fields): (o: Outcome)
    ensures o.added.None? <==> AllWhitespace(f.title)
    ensures o.added.None? ==> o.next == f
    ensures o.added.Some? ==> o.next == Initial
    ensures o.added.Some? ==> o.added.value.title == Trim(f.title) && o.added.value.title != ""
    ensures o.added.Some? ==> o.added.value.status == f.status
    ensures o.added.Some? ==> o.added.value.startDate == OrUndefined(f.startDate)
                              && o.added.value.dueDate == OrUndefined(f.dueDate)
    ensures o.added.Some? ==> o.added.value.category == (if f.category == "" then "Uncategorized" else f.category)
  {
    TrimEmptyIffBlank(f.title);
    if Trim(f.title) == "" then Outcome(None, f)
    else
      var category := if f.category == "" then "Uncategorized" else f.category;
      Outcome(Some(NewTask(Trim(f.title), f.status, OrUndefined(f.startDate), OrUndefined(f.dueDate), category)),
              Initial)
  }

  /** A submitted title has no whitespace at either end, and a submitted category
      is never empty. */
  lemma SubmittedValuesClean(f: Fields)
    requires Submit(f).added.Some?
    ensures var t := Submit(f).added.value;
      && !IsWhitespace(t.title[0]) && !IsWhitespace(t.title[|t.title| - 1])
      && t.category != ""
  {
  }

  /** After a successful submit the form is back in its initial state, so an
      immediate second submit sends nothing. */
  lemma SubmitResets(f: Fields)
    requires Submit(f).added.Some?
    ensures Submit(f).next == Initial
    ensures Submit(Submit(f).next).added.None?
  {
    assert AllWhitespace(Initial.title);
  }

  /** The form component's state. */
  class TaskForm {
    var title: string
    var status: Status
    var startDate: string
    var dueDate: string
    var category: string

    function Current(): Fields
      reads this
    {
      Fields(title, status, startDate, dueDate, category)
    }

    constructor ()
      ensures Current() == Initial
    {
      title, status, startDate, dueDate, category := "", NotStarted, "", "", "Work";
    }

    method SetTitle(value: string)
      modifies this
      ensures Current() == old(Current()).(title := value)
    {
      title := value;
    }

    method SetStatus(value: Status)
      modifies this
      ensures Current() == old(Current()).(status := value)
    {
      status := value;
    }

    method SetStartDate(value: string)
      modifies this
      ensures Current() == old(Current()).(startDate := value)
    {
      startDate := value;
    }

    method SetDueDate(value: string)
      modifies this
      ensures Current() == old(Current()).(dueDate := value)
    {
      dueDate := value;
    }

    method SetCategory(value: string)
      modifies this
      ensures Current() == old(Current()).(category := value)
    {
      category := value;
    }

    /** `handleSubmit`: returns the `onAddTask` call it makes, if any. */
    method HandleSubmit() returns (added: Option<NewTask>)
      modifies this
      ensures Outcome(added, Current()) == Submit(old(Current()))
      ensures added.None? ==> Current() == old(Current())
      ensures added.Some? ==> Current() == Initial
    {
      ghost var o := Submit(Current());
      if Trim(title) == "" {
        added := None;
        assert o == Outcome(None, Current());
        return;
      }
      added := Some(NewTask(Trim(title), status, OrUndefined(startDate), OrUndefined(dueDate),
                            if category == "" then "Uncategorized" else category));
      assert o.added == added;
      title := "";
      status := NotStarted;
      startDate := "";
      dueDate := "";
      category := "Work";
    }
  }
}

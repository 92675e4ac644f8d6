/** The tab bar that switches between the month, week and timeline views. */
module CalendarTabs {
  import opened Common

  datatype Tab = MonthTab | WeekTab | TimelineTab

  /** The key each tab is known by. */
  function Key(t: Tab): (k: string)
    ensures k != ""
  {
    match t
    case MonthTab => "month"
    case WeekTab => "week"
    case TimelineTab => "timeline"
  }

  /** The tabs in display order, with their labels. */
  const TabOptions: seq<(Tab, string)> :=
    [(MonthTab, "Month View"), (WeekTab, "Week View"), (TimelineTab, "Timeline View")]

  /** The tab bar offers a button for `t`. */
  predicate Offered(t: Tab) {
    exists o :: o in TabOptions && o.0 == t
  }

  /** Each tab appears exactly once and keys tell tabs apart. */
  lemma TabOptionsComplete()
    ensures |TabOptions| == 3
    ensures Key(TabOptions[0].0) == "month" && Key(TabOptions[1].0) == "week" && Key(TabOptions[2].0) == "timeline"
    ensures forall t: Tab :: Offered(t)
    ensures forall i, j :: 0 <= i < j < |TabOptions| ==> TabOptions[i].0 != TabOptions[j].0
    ensures forall a: Tab, b: Tab :: Key(a) == Key(b) ==> a == b
  {
    forall t: Tab
      ensures Offered(t)
    {
      var k := match t case MonthTab => 0 case WeekTab => 1 case TimelineTab => 2;
      assert TabOptions[k] in TabOptions && TabOptions[k].0 == t;
    }
  }

  /** A button's click handler: the `onTabChange` call it makes, if any. */
  function TabClick(active: Tab, clicked: Tab): (change: Option<Tab>)
    ensures change.None? <==> clicked == active
    ensures change.Some? ==> change.value == clicked
  {
    if active != clicked then Some(clicked) else None
  }

  /** A rendered tab button. */
  datatype Button = Button(key: string, caption: string, isActive: bool, borderBottom: string)

  function TabButton(active: Tab, option: (Tab, string)): (b: Button)
    ensures b.key == Key(option.0) && b.caption == option.1
    ensures b.isActive <==> option.0 == active
    ensures b.borderBottom == (if b.isActive then "3px solid #475569" else "3px solid transparent")
  {
    var on := active == option.0;
    Button(Key(option.0), option.1, on, if on then "3px solid #475569" else "3px solid transparent")
  }

  /** The tab bar for the given active tab, in display order. */
  function TabButtons(active: Tab): (bs: seq<Button>)
    ensures |bs| == |TabOptions|
    ensures forall i :: 0 <= i < |bs| ==> bs[i] == TabButton(active, TabOptions[i])
  {
    seq(|TabOptions|, i requires 0 <= i < |TabOptions| => TabButton(active, TabOptions[i]))
  }

  /** Exactly one button is highlighted: the active tab's. */
  lemma ExactlyOneActive(active: Tab)
    ensures var bs := TabButtons(active);
      && (exists i :: 0 <= i < |bs| && bs[i].isActive && bs[i].key == Key(active))
      && (forall i, j :: 0 <= i < |bs| && 0 <= j < |bs| && bs[i].isActive && bs[j].isActive ==> i == j)
  {
    var bs := TabButtons(active);
    var k := match active case MonthTab => 0 case WeekTab => 1 case TimelineTab => 2;
    assert bs[k].isActive && bs[k].key == Key(active);
  }

  /** Once the parent switches to the tab just clicked, clicking it again asks for
      no further change. */
  lemma ClickIdempotent(active: Tab, clicked: Tab)
    ensures var next := match TabClick(active, clicked) case Some(t) => t case None => active;
      next == clicked && TabClick(next, clicked).None?
  {
  }
}

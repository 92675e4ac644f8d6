/** Colour classes shared by the calendar views: the small status dot and the
    category badge. */
module Colors {
  import opened Common
  import opened Tasks
  import SharedTaskList

  /** `getStatusDotColor`. */
  function StatusDotColor(s: Status): (c: string)
    ensures c != ""
    ensures s == Done <==> c == "bg-green-400"
    ensures s == InProgress <==> c == "bg-yellow-400"
    ensures s == NotStarted <==> c == "bg-gray-300"
  {
    match s
    case Done => "bg-green-400"
    case InProgress => "bg-yellow-400"
    case NotStarted => "bg-gray-300"
  }

  /** Different statuses get different dots. */
  lemma DotColorsDistinct(a: Status, b: Status)
    ensures StatusDotColor(a) == StatusDotColor(b) <==> a == b
  {
  }

  /** The dot of a status has the same background class as that status's button
      in the task list, so a status reads the same colour everywhere. */
  lemma DotMatchesButton(s: Status)
    ensures var dot := StatusDotColor(s);
      var button := SharedTaskList.StatusColor(s);
      |dot| < |button| && button[..|dot|] == dot && button[|dot|] == ' '
  {
    match s
    case Done => SpaceAfterPrefix("bg-green-400", " text-green-900");
    case InProgress => SpaceAfterPrefix("bg-yellow-400", " text-yellow-900");
    case NotStarted => SpaceAfterPrefix("bg-gray-300", " text-gray-700");
  }

  /** A class list that continues after a space starts with the class before it. */
  lemma SpaceAfterPrefix(first: string, rest: string)
    requires rest != [] && rest[0] == ' '
    ensures |first| < |first + rest| && (first + rest)[..|first|] == first && (first + rest)[|first|] == ' '
  {
  }

  /** The three categories the app knows by name. */
  predicate KnownCategory(c: Option<string>) {
    c == Some("Work") || c == Some("Personal") || c == Some("Health")
  }

  /** `getCategoryBgColor`: one badge style per known category and a neutral
      slate one for anything else, including no category at all. */
  function CategoryBgColor(c: Option<string>): (r: string)
    ensures r != ""
    ensures c == Some("Work") <==> r == "bg-blue-200 text-blue-900 border-blue-400"
    ensures c == Some("Personal") <==> r == "bg-green-200 text-green-900 border-green-400"
    ensures c == Some("Health") <==> r == "bg-pink-200 text-pink-900 border-pink-400"
    ensures !KnownCategory(c) <==> r == "bg-slate-200 text-slate-900 border-slate-400"
  {
    if c == Some("Work") then "bg-blue-200 text-blue-900 border-blue-400"
    else if c == Some("Personal") then "bg-green-200 text-green-900 border-green-400"
    else if c == Some("Health") then "bg-pink-200 text-pink-900 border-pink-400"
    else "bg-slate-200 text-slate-900 border-slate-400"
  }

  /** Two categories share a badge style exactly when they are the same known
      category or both unknown. */
  lemma CategoryColorsDistinct(a: Option<string>, b: Option<string>)
    ensures CategoryBgColor(a) == CategoryBgColor(b) <==> a == b || (!KnownCategory(a) && !KnownCategory(b))
  {
  }
}

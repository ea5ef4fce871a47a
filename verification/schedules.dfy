/** What both schedulers share: a catalog loaded once and never changed,
    an ordered schedule drawn from it, and a title; lookup is by first
    match in list order. */
module Schedules {

  import opened Results

  const DEFAULT_TITLE := "My Schedule"
  const TITLE_NULL_ERROR := "Title cannot be null."

  /** The message for a second enrollment in a course. */
  function CourseDuplicateError(name: string): string {
    "You are already enrolled in " + name
  }

  datatype Schedule<T> = Schedule(catalog: seq<T>, schedule: seq<T>, title: string)

  /** The constructor, given the catalog the record reader produced: empty
      schedule, default title. */
  function NewSchedule<T>(catalog: seq<T>): (s: Schedule<T>)
    ensures s.catalog == catalog && s.schedule == [] && s.title == DEFAULT_TITLE
  {
    Schedule(catalog, [], DEFAULT_TITLE)
  }

  /** The position of the first element satisfying `p`, as a `for` loop
      that returns at the first hit finds it. */
  function FindFirst<T>(xs: seq<T>, p: T -> bool): (r: Option<nat>)
    ensures r.Some? ==> r.value < |xs| && p(xs[r.value])
    ensures r.Some? ==> forall j :: 0 <= j < r.value ==> !p(xs[j])
    ensures r.None? <==> forall j :: 0 <= j < |xs| ==> !p(xs[j])
  {
    if xs == [] then None
    else if p(xs[0]) then Some(0)
    else
      match FindFirst(xs[1..], p)
      case None => None
      case Some(k) => Some(k + 1)
  }

  /** The first element satisfying `p`, or null. */
  function FirstMatch<T>(xs: seq<T>, p: T -> bool): (r: Option<T>)
    ensures r.None? <==> forall j :: 0 <= j < |xs| ==> !p(xs[j])
    ensures r.Some? ==> exists k :: 0 <= k < |xs| && xs[k] == r.value && p(r.value)
                                    && forall j :: 0 <= j < k ==> !p(xs[j])
  {
    match FindFirst(xs, p)
    case None => None
    case Some(k) => Some(xs[k])
  }

  /** `resetSchedule`: the schedule empties, catalog and title stay. */
  function ResetSchedule<T>(s: Schedule<T>): (r: Schedule<T>)
    ensures r.schedule == [] && r.catalog == s.catalog && r.title == s.title
  {
    s.(schedule := [])
  }

  /** `setScheduleTitle`: null throws; any other string, the empty one
      included, becomes the title and nothing else changes. */
  function SetScheduleTitle<T>(s: Schedule<T>, title: JString): (r: Result<Schedule<T>>)
    ensures r.Ok? <==> title.Some?
    ensures r.Ok? ==> r.value.title == title.value && r.value.catalog == s.catalog && r.value.schedule == s.schedule
    ensures r.Err? ==> r.msg == TITLE_NULL_ERROR
  {
    if title.None? then Err(TITLE_NULL_ERROR) else Ok(s.(title := title.value))
  }
}

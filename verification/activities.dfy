/** The state shared by every schedulable item: a title and a meeting.
    The two Java subclasses are the two variants of one datatype. */
module Activities {

  import opened Results
  import opened Meetings

  const TITLE_ERROR := "Invalid title."

  datatype Activity =
    | Course(title: string, meeting: Meeting, name: string, section: string, credits: int, instructorId: string)
    | Event(title: string, meeting: Meeting, details: string)

  /** Activity's `equals`: the same run-time class, title, days and
      times. */
  predicate SameActivity(a: Activity, b: Activity) {
    && a.Course? == b.Course?
    && a.title == b.title
    && a.meeting.days == b.meeting.days && a.meeting.start == b.meeting.start && a.meeting.end == b.meeting.end
  }

  /** The title check: null and the empty string throw. */
  function CheckTitle(title: JString): (r: Result<string>)
    ensures r.Ok? <==> title.Some? && |title.value| > 0
    ensures r.Ok? ==> r.value == title.value
    ensures r.Err? ==> r.msg == TITLE_ERROR
  {
    if title.None? || title.value == "" then Err(TITLE_ERROR) else Ok(title.value)
  }

  /** `setTitle` on an existing activity: on success only the title
      changes. */
  function SetTitle(a: Activity, title: JString): (r: Result<Activity>)
    ensures r.Ok? <==> title.Some? && |title.value| > 0
    ensures r.Ok? ==> r.value.title == title.value && r.value.(title := a.title) == a
    ensures r.Err? ==> r.msg == TITLE_ERROR
  {
    var t :- CheckTitle(title);
    Ok(a.(title := t))
  }

  /** `checkConflict` between two activities: throws the default conflict
      exception exactly when the meeting test as written fires. What that
      test means is proved in `Meetings`: its closed form
      (`ConflictsAsWrittenClosedForm`), its symmetry
      (`ConflictsAsWrittenSymmetric`) and how it differs from a shared-day
      conflict (`AsWrittenVersusSharedDay`). */
  function CheckConflict(a: Activity, b: Activity): (r: Outcome)
    ensures r.Fail? <==> ConflictsAsWritten(a.meeting, b.meeting)
    ensures r.Fail? ==> r.msg == CONFLICT_MESSAGE
  {
    if ConflictsAsWritten(a.meeting, b.meeting) then Fail(CONFLICT_MESSAGE) else Pass
  }
}

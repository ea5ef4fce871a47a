/** The Event variant of an Activity: free-form details, meeting on any
    of the seven day letters, never arranged. */
module Events {

  import opened Results
  import opened Text
  import opened Meetings
  import opened Activities

  const DETAILS_ERROR := "Invalid event details."

  /** `setEventDetails`: only null throws; the empty string is kept. */
  function CheckDetails(details: JString): (r: Result<string>)
    ensures r.Ok? <==> details.Some?
    ensures r.Ok? ==> r.value == details.value
    ensures r.Err? ==> r.msg == DETAILS_ERROR
  {
    if details.None? then Err(DETAILS_ERROR) else Ok(details.value)
  }

  /** The counting loop of Event's meeting override from position `i`.
      Its closing brace sits after the call to Activity's check, so each
      pass counts one more letter, throws on a repeat among the letters
      counted so far, and then runs Activity's check on the whole
      argument, which stores the meeting when it passes. Returns the
      stored meeting after the loop and whether it threw. */
  function DayLoop(stored: Meeting, days: string, start: int, end: int, i: nat): (Meeting, Outcome)
    requires i <= |days|
    decreases |days| - i
  {
    if i == |days| then (stored, Pass)
    else if days[i] !in WEEK || !Distinct(days[..i + 1]) then (stored, Fail(MEETING_ERROR))
    else
      match ActivityMeeting(Some(days), start, end)
      case Err(msg) => (stored, Fail(msg))
      case Ok(m) => DayLoop(m, days, start, end, i + 1)
  }

  /** Once Activity's check has passed and stored the meeting, the
      remaining passes change nothing. */
  lemma {:induction false} DayLoopAfterSuccess(days: string, start: int, end: int, i: nat)
    requires i <= |days| && days != ARRANGED && DrawnFrom(days, WEEK)
    requires ActivityMeeting(Some(days), start, end).Ok?
    ensures DayLoop(Meeting(days, start, end), days, start, end, i) == (Meeting(days, start, end), Pass)
    decreases |days| - i
  {
    if i < |days| {
      var pre := days[..i + 1];
      assert forall p, q :: 0 <= p < q < |pre| ==> pre[p] == days[p] && pre[q] == days[q];
      DayLoopAfterSuccess(days, start, end, i + 1);
    }
  }

  /** The misplaced brace does not break all-or-nothing: the loop either
      stores exactly the new meeting, or throws and leaves the stored
      meeting as it was, and it passes exactly when one run of Activity's
      check passes. */
  lemma DayLoopAllOrNothing(stored: Meeting, days: string, start: int, end: int)
    requires |days| > 0 && DrawnFrom(days, WEEK)
    ensures DayLoop(stored, days, start, end, 0) ==
      if ActivityMeeting(Some(days), start, end).Ok? then (Meeting(days, start, end), Pass)
      else (stored, Fail(MEETING_ERROR))
  {
    assert days[0] in WEEK;
    assert days != ARRANGED;
    if ActivityMeeting(Some(days), start, end).Ok? {
      DayLoopAfterSuccess(days, start, end, 1);
    }
  }

  /** Event's `setMeetingDaysAndTime` on an event whose stored meeting is
      `stored`: null or empty days throw, a letter outside the seven day
      letters throws (so the sentinel "A" always does), then the counting
      loop. Returns the stored meeting afterwards and whether it threw. */
  function EventMeeting(stored: Meeting, days: JString, start: int, end: int): (r: (Meeting, Outcome))
    ensures r.1.Pass? <==> days.Some? && days.value != ARRANGED && WellFormed(Meeting(days.value, start, end), WEEK)
    ensures r.1.Pass? ==> r.0 == Meeting(days.value, start, end)
    ensures r.1.Fail? ==> r.0 == stored && r.1.msg == MEETING_ERROR
  {
    if days.None? || |days.value| == 0 then (stored, Fail(MEETING_ERROR))
    else if !DrawnFrom(days.value, WEEK) then (stored, Fail(MEETING_ERROR))
    else
      DayLoopAllOrNothing(stored, days.value, start, end);
      assert days.value[0] in WEEK;
      DayLoop(stored, days.value, start, end, 0)
  }

  /** Every field of a constructed Event satisfies its setter's rule. */
  predicate ValidEvent(a: Activity) {
    && a.Event?
    && |a.title| > 0
    && a.meeting.days != ARRANGED
    && WellFormed(a.meeting, WEEK)
  }

  /** The constructor: Activity's constructor (title, then Event's meeting
      check), then the details; the first failing check's message is the
      error. */
  function NewEvent(title: JString, days: JString, start: int, end: int, details: JString): (r: Result<Activity>)
    ensures r.Ok? <==>
      && CheckTitle(title).Ok?
      && days.Some? && days.value != ARRANGED && WellFormed(Meeting(days.value, start, end), WEEK)
      && details.Some?
    ensures r.Ok? ==> ValidEvent(r.value)
    ensures r.Ok? ==> r.value == Event(title.value, Meeting(days.value, start, end), details.value)
    ensures r.Err? ==>
              r.msg == (if CheckTitle(title).Err? then TITLE_ERROR
                        else if EventMeeting(Meeting("", 0, 0), days, start, end).1.Fail? then MEETING_ERROR
                        else DETAILS_ERROR)
  {
    var t :- CheckTitle(title);
    // A fresh object has no days and zero times; it is dropped on an error.
    var (m, out) := EventMeeting(Meeting("", 0, 0), days, start, end);
    if out.Fail? then Err(out.msg)
    else
      var d :- CheckDetails(details);
      Ok(Event(t, m, d))
  }

  /** Constructing an Event from the fields of a valid Event gives it
      back. */
  lemma NewEventAcceptsValid(e: Activity)
    requires ValidEvent(e)
    ensures NewEvent(Some(e.title), Some(e.meeting.days), e.meeting.start, e.meeting.end, Some(e.details)) == Ok(e)
  {
  }

  /** `setMeetingDaysAndTime` on an existing Event: a rejected call leaves
      the event exactly as it was, an accepted one replaces the meeting. */
  function SetMeetingDaysAndTime(a: Activity, days: JString, start: int, end: int): (r: (Activity, Outcome))
    requires a.Event?
    ensures r.1.Fail? ==> r.0 == a
    ensures r.1.Pass? <==> days.Some? && days.value != ARRANGED && WellFormed(Meeting(days.value, start, end), WEEK)
    ensures r.1.Pass? ==> r.0 == Event(a.title, Meeting(days.value, start, end), a.details)
    ensures r.1.Fail? ==> r.1.msg == MEETING_ERROR
    ensures ValidEvent(a) ==> ValidEvent(r.0)
  {
    var (m, out) := EventMeeting(a.meeting, days, start, end);
    (Event(a.title, m, a.details), out)
  }

  /** `setEventDetails` on an existing Event. */
  function SetEventDetails(a: Activity, details: JString): (r: Result<Activity>)
    requires a.Event?
    ensures r.Ok? <==> details.Some?
    ensures r.Ok? ==> r.value == Event(a.title, a.meeting, details.value)
    ensures r.Err? ==> r.msg == DETAILS_ERROR
    ensures ValidEvent(a) && r.Ok? ==> ValidEvent(r.value)
  {
    var d :- CheckDetails(details);
    Ok(Event(a.title, a.meeting, d))
  }

  /** Event's `isDuplicate`: another Event with the same title; never a
      Course. */
  function IsDuplicate(e: Activity, other: Activity): bool
    requires e.Event?
  {
    other.Event? && e.title == other.title
  }

  /** The comma-separated fields of `toString`. */
  function Fields(e: Activity): seq<string>
    requires e.Event?
  {
    [e.title, e.meeting.days, IntToString(e.meeting.start), IntToString(e.meeting.end), e.details]
  }

  function ToString(e: Activity): string
    requires e.Event?
  {
    Join(Fields(e), ',')
  }

  /** `getShortDisplayArray`: two empty columns, title, meeting string. */
  function ShortRow(e: Activity): seq<string>
    requires e.Event?
  {
    ["", "", e.title, MeetingString(e.meeting)]
  }

  /** `getLongDisplayArray`: empty course columns, title, meeting string
      and details. */
  function LongRow(e: Activity): seq<string>
    requires e.Event?
  {
    ["", "", e.title, "", "", MeetingString(e.meeting), e.details]
  }

  /** Reading `toString` back: when title and details hold no comma,
      splitting at commas yields the five fields in order, with both
      times readable again. */
  lemma ToStringRoundTrip(e: Activity)
    requires ValidEvent(e) && NoComma(e.title) && NoComma(e.details)
    ensures var f := Split(ToString(e), ',');
      && |f| == 5 && f[0] == e.title && f[1] == e.meeting.days
      && ParseInt(f[2]) == Some(e.meeting.start) && ParseInt(f[3]) == Some(e.meeting.end)
      && f[4] == e.details
  {
    var f := Fields(e);
    forall i | 0 <= i < |e.meeting.days| ensures e.meeting.days[i] != ',' {
      assert e.meeting.days[i] in WEEK;
    }
    DigitsLack(NatToString(e.meeting.start), ',');
    DigitsLack(NatToString(e.meeting.end), ',');
    assert forall i :: 0 <= i < |f| ==> ',' !in f[i];
    SplitJoin(f, ',');
    ParseIntToString(e.meeting.start);
    ParseIntToString(e.meeting.end);
  }
}

/** The earlier, standalone Course class: the same field rules as the
    Activity-based Course, with its own copy of the meeting check and two
    unchecked time setters. */
module LegacyCourse {

  import opened Results
  import opened Text
  import opened Clock
  import opened Meetings
  import Activities
  import Courses

  datatype Course = Course(name: string, title: string, section: string, credits: int, instructorId: string,
                           days: string, start: int, end: int)

  function MeetingOf(c: Course): Meeting {
    Meeting(c.days, c.start, c.end)
  }

  /** Every field satisfies its setter's rule. */
  predicate Valid(c: Course) {
    && Courses.NameShape(c.name)
    && |c.title| > 0
    && |c.section| == Courses.SECTION_LENGTH && AllDigits(c.section)
    && Courses.MIN_CREDITS <= c.credits <= Courses.MAX_CREDITS
    && |c.instructorId| > 0
    && WellFormed(MeetingOf(c), WEEKDAYS)
  }

  /** This class's own `setMeetingDaysAndTime` check: the arranged
      sentinel only with zero times; otherwise a day switch over `MTWHF`
      whose default case throws, the repeat count, the hour and minute
      ranges and the order of the bounds. */
  function CheckMeeting(days: JString, start: int, end: int): (r: Result<Meeting>)
    ensures r.Ok? <==> days.Some? && WellFormed(Meeting(days.value, start, end), WEEKDAYS)
    ensures r.Ok? ==> r.value == Meeting(days.value, start, end)
    ensures r.Err? ==> r.msg == MEETING_ERROR
    ensures r == Courses.CourseMeeting(days, start, end)
  {
    ValidTimeIsClockTime(start);
    ValidTimeIsClockTime(end);
    if days.None? || |days.value| == 0 then Err(MEETING_ERROR)
    else if days.value == ARRANGED then
      if start != 0 || end != 0 then Err(MEETING_ERROR) else Ok(Meeting(ARRANGED, 0, 0))
    else if !DrawnFrom(days.value, WEEKDAYS) || !Distinct(days.value) then Err(MEETING_ERROR)
    else if !ValidTime(start) || !ValidTime(end) then Err(MEETING_ERROR)
    else if start > end then Err(MEETING_ERROR)
    else Ok(Meeting(days.value, start, end))
  }

  /** `setStartTime`: stores the value without any check. */
  function SetStartTime(c: Course, start: int): Course {
    c.(start := start)
  }

  /** `setEndTime`: stores the value without any check. */
  function SetEndTime(c: Course, end: int): Course {
    c.(end := end)
  }

  /** The unchecked setters can leave the meeting invariant: a valid
      Monday 10:00-11:00 course with its start set to 2500 is invalid. */
  lemma UncheckedSetterBreaksValidity()
    ensures Valid(Course("CSC 216", "Software Development", "001", 3, "jdyoung", "M", 1000, 1100))
    ensures !Valid(SetStartTime(Course("CSC 216", "Software Development", "001", 3, "jdyoung", "M", 1000, 1100), 2500))
  {
    var c := Course("CSC 216", "Software Development", "001", 3, "jdyoung", "M", 1000, 1100);
    assert c.name[..3] == "CSC" && c.name[4..] == "216";
  }

  /** The eight-argument constructor: name, title, section, credits,
      instructor, then the meeting check, and finally the two unchecked
      setters with the times just validated. */
  function NewCourse(name: JString, title: JString, section: JString, credits: int, instructorId: JString,
                     days: JString, start: int, end: int): (r: Result<Course>)
    ensures r.Ok? <==>
      && Courses.CheckName(name).Ok? && Activities.CheckTitle(title).Ok? && Courses.CheckSection(section).Ok?
      && Courses.CheckCredits(credits).Ok? && Courses.CheckInstructorId(instructorId).Ok?
      && CheckMeeting(days, start, end).Ok?
    ensures r.Ok? ==> Valid(r.value)
    ensures r.Ok? ==> r.value == Course(name.value, title.value, section.value, credits, instructorId.value,
                                         days.value, start, end)
    ensures r.Err? ==>
              r.msg == (if Courses.CheckName(name).Err? then Courses.NAME_ERROR
                        else if Activities.CheckTitle(title).Err? then Activities.TITLE_ERROR
                        else if Courses.CheckSection(section).Err? then Courses.SECTION_ERROR
                        else if Courses.CheckCredits(credits).Err? then Courses.CREDITS_ERROR
                        else if Courses.CheckInstructorId(instructorId).Err? then Courses.INSTRUCTOR_ERROR
                        else MEETING_ERROR)
  {
    var n :- Courses.CheckName(name);
    var t :- Activities.CheckTitle(title);
    var s :- Courses.CheckSection(section);
    var c :- Courses.CheckCredits(credits);
    var i :- Courses.CheckInstructorId(instructorId);
    var m :- CheckMeeting(days, start, end);
    Ok(SetEndTime(SetStartTime(Course(n, t, s, c, i, m.days, m.start, m.end), start), end))
  }

  /** The six-argument constructor for arranged courses passes zero times,
      so any weekday letters without repeats are accepted as well as the
      sentinel. */
  function NewArrangedCourse(name: JString, title: JString, section: JString, credits: int,
                             instructorId: JString, days: JString): (r: Result<Course>)
    ensures r.Ok? <==>
      && Courses.CheckName(name).Ok? && Activities.CheckTitle(title).Ok? && Courses.CheckSection(section).Ok?
      && Courses.CheckCredits(credits).Ok? && Courses.CheckInstructorId(instructorId).Ok?
      && days.Some? && (days.value == ARRANGED
                        || (|days.value| > 0 && DrawnFrom(days.value, WEEKDAYS) && Distinct(days.value)))
    ensures r.Ok? ==> Valid(r.value)
    ensures r.Ok? ==> r.value == Course(name.value, title.value, section.value, credits, instructorId.value,
                                         days.value, 0, 0)
    ensures r.Err? ==>
              r.msg == (if Courses.CheckName(name).Err? then Courses.NAME_ERROR
                        else if Activities.CheckTitle(title).Err? then Activities.TITLE_ERROR
                        else if Courses.CheckSection(section).Err? then Courses.SECTION_ERROR
                        else if Courses.CheckCredits(credits).Err? then Courses.CREDITS_ERROR
                        else if Courses.CheckInstructorId(instructorId).Err? then Courses.INSTRUCTOR_ERROR
                        else MEETING_ERROR)
  {
    NewCourse(name, title, section, credits, instructorId, days, 0, 0)
  }

  /** The standalone Course accepts exactly what the Activity-based Course
      accepts and stores the same field values; only the order of the
      checks (and so the message when several fields are wrong) differs. */
  lemma AgreesWithActivityCourse(name: JString, title: JString, section: JString, credits: int,
                                 instructorId: JString, days: JString, start: int, end: int)
    ensures var legacy := NewCourse(name, title, section, credits, instructorId, days, start, end);
            var current := Courses.NewCourse(name, title, section, credits, instructorId, days, start, end);
            && (legacy.Ok? <==> current.Ok?)
            && (legacy.Ok? ==> && legacy.value.name == current.value.name
                               && legacy.value.title == current.value.title
                               && legacy.value.section == current.value.section
                               && legacy.value.credits == current.value.credits
                               && legacy.value.instructorId == current.value.instructorId
                               && MeetingOf(legacy.value) == current.value.meeting)
  {
  }

  /** `setTitle`: only the title changes. */
  function SetTitle(c: Course, title: JString): (r: Result<Course>)
    ensures r.Ok? <==> title.Some? && |title.value| > 0
    ensures r.Ok? ==> r.value == c.(title := title.value)
    ensures r.Err? ==> r.msg == Activities.TITLE_ERROR
    ensures Valid(c) && r.Ok? ==> Valid(r.value)
  {
    var t :- Activities.CheckTitle(title);
    Ok(c.(title := t))
  }

  /** `setSection`: only the section changes. */
  function SetSection(c: Course, section: JString): (r: Result<Course>)
    ensures r.Ok? <==> section.Some? && |section.value| == Courses.SECTION_LENGTH && AllDigits(section.value)
    ensures r.Ok? ==> r.value == c.(section := section.value)
    ensures r.Err? ==> r.msg == Courses.SECTION_ERROR
    ensures Valid(c) && r.Ok? ==> Valid(r.value)
  {
    var s :- Courses.CheckSection(section);
    Ok(c.(section := s))
  }

  /** `setCredits`: only the credits change. */
  function SetCredits(c: Course, credits: int): (r: Result<Course>)
    ensures r.Ok? <==> Courses.MIN_CREDITS <= credits <= Courses.MAX_CREDITS
    ensures r.Ok? ==> r.value == c.(credits := credits)
    ensures r.Err? ==> r.msg == Courses.CREDITS_ERROR
    ensures Valid(c) && r.Ok? ==> Valid(r.value)
  {
    var n :- Courses.CheckCredits(credits);
    Ok(c.(credits := n))
  }

  /** `setInstructorId`: only the instructor changes. */
  function SetInstructorId(c: Course, instructorId: JString): (r: Result<Course>)
    ensures r.Ok? <==> instructorId.Some? && |instructorId.value| > 0
    ensures r.Ok? ==> r.value == c.(instructorId := instructorId.value)
    ensures r.Err? ==> r.msg == Courses.INSTRUCTOR_ERROR
    ensures Valid(c) && r.Ok? ==> Valid(r.value)
  {
    var i :- Courses.CheckInstructorId(instructorId);
    Ok(c.(instructorId := i))
  }

  /** `setMeetingDaysAndTime` on an existing course: every check precedes
      the update. */
  function SetMeetingDaysAndTime(c: Course, days: JString, start: int, end: int): (r: Result<Course>)
    ensures r.Ok? <==> days.Some? && WellFormed(Meeting(days.value, start, end), WEEKDAYS)
    ensures r.Ok? ==> r.value == c.(days := days.value, start := start, end := end)
    ensures r.Err? ==> r.msg == MEETING_ERROR
    ensures Valid(c) && r.Ok? ==> Valid(r.value)
  {
    var m :- CheckMeeting(days, start, end);
    Ok(c.(days := m.days, start := m.start, end := m.end))
  }

  /** `equals`: compares the eight fields one by one. */
  function Equals(a: Course, b: Course): (r: bool)
    ensures r <==> a == b
  {
    && a.credits == b.credits
    && a.end == b.end
    && a.instructorId == b.instructorId
    && a.days == b.days
    && a.name == b.name
    && a.section == b.section
    && a.start == b.start
    && a.title == b.title
  }

  /** The comma-separated fields of `toString`: six when arranged, eight
      otherwise. */
  function Fields(c: Course): seq<string> {
    var head := [c.name, c.title, c.section, IntToString(c.credits), c.instructorId, c.days];
    if c.days == ARRANGED then head else head + [IntToString(c.start), IntToString(c.end)]
  }

  function ToString(c: Course): string {
    Join(Fields(c), ',')
  }

  /** `getMeetingString`, the same text Activity renders. */
  function MeetingString(c: Course): string {
    Meetings.MeetingString(MeetingOf(c))
  }

  /** The record line and meeting string of a standalone Course are those
      of the Activity-based Course with the same fields. */
  lemma RenderingAgreesWithActivityCourse(c: Course)
    ensures var a := Activities.Course(c.title, MeetingOf(c), c.name, c.section, c.credits, c.instructorId);
            ToString(c) == Courses.ToString(a) && MeetingString(c) == Courses.ShortRow(a)[3]
  {
  }

  /** Reading `toString` back gives the fields again, when title and
      instructor hold no comma. */
  lemma ToStringRoundTrip(c: Course)
    requires Valid(c) && NoComma(c.title) && NoComma(c.instructorId)
    ensures var f := Split(ToString(c), ',');
      && |f| == (if c.days == ARRANGED then 6 else 8)
      && f[0] == c.name && f[1] == c.title && f[2] == c.section
      && ParseInt(f[3]) == Some(c.credits) && f[4] == c.instructorId && f[5] == c.days
      && (c.days != ARRANGED ==> ParseInt(f[6]) == Some(c.start) && ParseInt(f[7]) == Some(c.end))
  {
    var a := Activities.Course(c.title, MeetingOf(c), c.name, c.section, c.credits, c.instructorId);
    Courses.ToStringRoundTrip(a);
  }
}

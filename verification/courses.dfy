/** The Course variant of an Activity: catalog name, section, credits and
    instructor, meeting on weekdays only. */
module Courses {

  import opened Results
  import opened Text
  import opened Meetings
  import opened Activities

  const MIN_NAME_LENGTH := 5
  const MAX_NAME_LENGTH := 8
  const MIN_LETTER_COUNT := 1
  const MAX_LETTER_COUNT := 4
  const DIGIT_COUNT := 3
  const SECTION_LENGTH := 3
  const MIN_CREDITS := 1
  const MAX_CREDITS := 5

  const NAME_ERROR := "Invalid course name."
  const SECTION_ERROR := "Invalid section."
  const CREDITS_ERROR := "Invalid credits."
  const INSTRUCTOR_ERROR := "Invalid instructor id."

  /** A course name: one to four letters, a space, then exactly three
      digits (so five to eight characters in all). */
  predicate NameShape(name: string) {
    var k := |name| - 4;
    && MIN_LETTER_COUNT <= k <= MAX_LETTER_COUNT
    && AllLetters(name[..k])
    && name[k] == ' '
    && AllDigits(name[k + 1..])
  }

  /** The character loop of `setName` from position `i`: letters are
      counted until the first space, digits after it, and any other
      character throws (`false`). At the end the letter and digit counts
      are checked. */
  function NameScan(name: string, i: nat, letters: nat, digits: nat, spaceFound: bool): bool
    requires i <= |name|
    decreases |name| - i
  {
    if i == |name| then MIN_LETTER_COUNT <= letters <= MAX_LETTER_COUNT && digits == DIGIT_COUNT
    else if !spaceFound then
      if IsLetter(name[i]) then NameScan(name, i + 1, letters + 1, digits, false)
      else if name[i] == ' ' then NameScan(name, i + 1, letters, digits, true)
      else false
    else if IsDigit(name[i]) then NameScan(name, i + 1, letters, digits + 1, true)
    else false
  }

  /** After the space the loop accepts exactly a run of digits that
      brings the digit count to three. */
  lemma {:induction false} NameScanAfterSpace(name: string, i: nat, letters: nat, digits: nat)
    requires i <= |name|
    ensures NameScan(name, i, letters, digits, true) <==>
      AllDigits(name[i..]) && MIN_LETTER_COUNT <= letters <= MAX_LETTER_COUNT && digits + |name| - i == DIGIT_COUNT
    decreases |name| - i
  {
    if i < |name| {
      NameScanAfterSpace(name, i + 1, letters, digits + 1);
      assert name[i..] == [name[i]] + name[i + 1..];
    }
  }

  /** A name made of letters only has no space, so it has no course-name
      shape. */
  lemma AllLettersNoShape(name: string)
    requires AllLetters(name)
    ensures !NameShape(name)
  {
    var k := |name| - 4;
    if MIN_LETTER_COUNT <= k {
      assert IsLetter(name[k]);
    }
  }

  /** When `name[i]` is the first non-letter, the name has the course-name
      shape exactly when that character is the space at position
      `|name| - 4` and digits follow it. */
  lemma ShapeAtFirstNonLetter(name: string, i: nat)
    requires i < |name| && AllLetters(name[..i]) && !IsLetter(name[i])
    ensures NameShape(name) <==>
      i == |name| - 4 && MIN_LETTER_COUNT <= i <= MAX_LETTER_COUNT && name[i] == ' ' && AllDigits(name[i + 1..])
  {
    var k := |name| - 4;
    if 0 <= k < i {
      assert name[..i][k] == name[k];
    } else if i < k {
      assert name[..k][i] == name[i];
    }
  }

  /** Before the space, with every character so far a letter, the loop
      accepts exactly the names of `NameShape`. */
  lemma {:induction false} NameScanBeforeSpace(name: string, i: nat)
    requires i <= |name| && AllLetters(name[..i])
    ensures NameScan(name, i, i, 0, false) <==> NameShape(name)
    decreases |name| - i
  {
    if i == |name| {
      assert name[..i] == name;
      AllLettersNoShape(name);
    } else if IsLetter(name[i]) {
      assert name[..i + 1] == name[..i] + [name[i]];
      NameScanBeforeSpace(name, i + 1);
    } else {
      ShapeAtFirstNonLetter(name, i);
      if name[i] == ' ' {
        NameScanAfterSpace(name, i + 1, i, 0);
      }
    }
  }

  /** `setName`: null or a length outside [5,8] throws, then the
      character loop decides. */
  function CheckName(name: JString): (r: Result<string>)
    ensures r.Ok? <==> name.Some? && NameShape(name.value)
    ensures r.Ok? ==> r.value == name.value
    ensures r.Err? ==> r.msg == NAME_ERROR
  {
    if name.None? || |name.value| > MAX_NAME_LENGTH || |name.value| < MIN_NAME_LENGTH then Err(NAME_ERROR)
    else
      NameScanBeforeSpace(name.value, 0);
      if !NameScan(name.value, 0, 0, 0, false) then Err(NAME_ERROR) else Ok(name.value)
  }

  /** `setSection`: exactly three characters, all digits. */
  function CheckSection(section: JString): (r: Result<string>)
    ensures r.Ok? <==> section.Some? && |section.value| == SECTION_LENGTH && AllDigits(section.value)
    ensures r.Ok? ==> r.value == section.value
    ensures r.Err? ==> r.msg == SECTION_ERROR
  {
    if section.None? || |section.value| != SECTION_LENGTH then Err(SECTION_ERROR)
    else if !AllDigits(section.value) then Err(SECTION_ERROR)
    else Ok(section.value)
  }

  /** `setCredits`: between one and five. */
  function CheckCredits(credits: int): (r: Result<int>)
    ensures r.Ok? <==> MIN_CREDITS <= credits <= MAX_CREDITS
    ensures r.Ok? ==> r.value == credits
    ensures r.Err? ==> r.msg == CREDITS_ERROR
  {
    if credits < MIN_CREDITS || credits > MAX_CREDITS then Err(CREDITS_ERROR) else Ok(credits)
  }

  /** `setInstructorId`: null and the empty string throw. */
  function CheckInstructorId(instructorId: JString): (r: Result<string>)
    ensures r.Ok? <==> instructorId.Some? && |instructorId.value| > 0
    ensures r.Ok? ==> r.value == instructorId.value
    ensures r.Err? ==> r.msg == INSTRUCTOR_ERROR
  {
    if instructorId.None? || instructorId.value == "" then Err(INSTRUCTOR_ERROR) else Ok(instructorId.value)
  }

  /** Course's override of the meeting check: the arranged sentinel only
      with zero times, otherwise letters of `WEEKDAYS` without repeats,
      and then Activity's own check. */
  function CourseMeeting(days: JString, start: int, end: int): (r: Result<Meeting>)
    ensures r.Ok? <==> days.Some? && WellFormed(Meeting(days.value, start, end), WEEKDAYS)
    ensures r.Ok? ==> r.value == Meeting(days.value, start, end)
    ensures r.Err? ==> r.msg == MEETING_ERROR
  {
    if days.None? || |days.value| == 0 then Err(MEETING_ERROR)
    else if days.value == ARRANGED then
      if start != 0 || end != 0 then Err(MEETING_ERROR) else ActivityMeeting(days, start, end)
    else if !DrawnFrom(days.value, WEEKDAYS) then Err(MEETING_ERROR)
    else if !Distinct(days.value) then Err(MEETING_ERROR)
    else ActivityMeeting(days, start, end)
  }

  /** Every field of a constructed Course satisfies its setter's rule. */
  predicate ValidCourse(a: Activity) {
    && a.Course?
    && |a.title| > 0
    && WellFormed(a.meeting, WEEKDAYS)
    && NameShape(a.name)
    && |a.section| == SECTION_LENGTH && AllDigits(a.section)
    && MIN_CREDITS <= a.credits <= MAX_CREDITS
    && |a.instructorId| > 0
  }

  /** The eight-argument constructor. Activity's constructor runs first
      (title, then Course's meeting check), then name, section, credits
      and instructor; the first failing check's message is the error. */
  function NewCourse(name: JString, title: JString, section: JString, credits: int, instructorId: JString,
                     days: JString, start: int, end: int): (r: Result<Activity>)
    ensures r.Ok? <==>
      && CheckTitle(title).Ok? && CourseMeeting(days, start, end).Ok? && CheckName(name).Ok?
      && CheckSection(section).Ok? && CheckCredits(credits).Ok? && CheckInstructorId(instructorId).Ok?
    ensures r.Ok? ==> ValidCourse(r.value)
    ensures r.Ok? ==> r.value == Course(title.value, Meeting(days.value, start, end), name.value,
                                         section.value, credits, instructorId.value)
    ensures r.Err? ==>
              r.msg == (if CheckTitle(title).Err? then TITLE_ERROR
                        else if CourseMeeting(days, start, end).Err? then MEETING_ERROR
                        else if CheckName(name).Err? then NAME_ERROR
                        else if CheckSection(section).Err? then SECTION_ERROR
                        else if CheckCredits(credits).Err? then CREDITS_ERROR
                        else INSTRUCTOR_ERROR)
  {
    var t :- CheckTitle(title);
    var m :- CourseMeeting(days, start, end);
    var n :- CheckName(name);
    var s :- CheckSection(section);
    var c :- CheckCredits(credits);
    var i :- CheckInstructorId(instructorId);
    Ok(Course(t, m, n, s, c, i))
  }

  /** The six-argument constructor for arranged courses passes zero times.
      Zero times pass every time check, so any weekday letters without
      repeats are accepted too, not only the sentinel. */
  function NewArrangedCourse(name: JString, title: JString, section: JString, credits: int,
                             instructorId: JString, days: JString): (r: Result<Activity>)
    ensures r.Ok? <==>
      && CheckTitle(title).Ok? && CheckName(name).Ok? && CheckSection(section).Ok?
      && CheckCredits(credits).Ok? && CheckInstructorId(instructorId).Ok?
      && days.Some? && (days.value == ARRANGED
                        || (|days.value| > 0 && DrawnFrom(days.value, WEEKDAYS) && Distinct(days.value)))
    ensures r.Ok? ==> ValidCourse(r.value)
    ensures r.Ok? ==> r.value == Course(title.value, Meeting(days.value, 0, 0), name.value,
                                         section.value, credits, instructorId.value)
    ensures r.Err? ==>
              r.msg == (if CheckTitle(title).Err? then TITLE_ERROR
                        else if !(days.Some? && (days.value == ARRANGED
                                  || (|days.value| > 0 && DrawnFrom(days.value, WEEKDAYS) && Distinct(days.value))))
                        then MEETING_ERROR
                        else if CheckName(name).Err? then NAME_ERROR
                        else if CheckSection(section).Err? then SECTION_ERROR
                        else if CheckCredits(credits).Err? then CREDITS_ERROR
                        else INSTRUCTOR_ERROR)
  {
    NewCourse(name, title, section, credits, instructorId, days, 0, 0)
  }

  /** Constructing a Course from the fields of a valid Course gives it
      back: the constructor rejects nothing a Course may hold. */
  lemma NewCourseAcceptsValid(c: Activity)
    requires ValidCourse(c)
    ensures NewCourse(Some(c.name), Some(c.title), Some(c.section), c.credits, Some(c.instructorId),
                      Some(c.meeting.days), c.meeting.start, c.meeting.end) == Ok(c)
  {
  }

  /** `setSection` on a Course: only the section changes, and a valid
      course stays valid. */
  function SetSection(a: Activity, section: JString): (r: Result<Activity>)
    requires a.Course?
    ensures r.Ok? <==> CheckSection(section).Ok?
    ensures r.Ok? ==> r.value == a.(section := section.value)
    ensures r.Err? ==> r.msg == SECTION_ERROR
    ensures ValidCourse(a) && r.Ok? ==> ValidCourse(r.value)
  {
    var s :- CheckSection(section);
    Ok(a.(section := s))
  }

  /** `setCredits` on a Course. */
  function SetCredits(a: Activity, credits: int): (r: Result<Activity>)
    requires a.Course?
    ensures r.Ok? <==> MIN_CREDITS <= credits <= MAX_CREDITS
    ensures r.Ok? ==> r.value == a.(credits := credits)
    ensures r.Err? ==> r.msg == CREDITS_ERROR
    ensures ValidCourse(a) && r.Ok? ==> ValidCourse(r.value)
  {
    var c :- CheckCredits(credits);
    Ok(a.(credits := c))
  }

  /** `setInstructorId` on a Course. */
  function SetInstructorId(a: Activity, instructorId: JString): (r: Result<Activity>)
    requires a.Course?
    ensures r.Ok? <==> CheckInstructorId(instructorId).Ok?
    ensures r.Ok? ==> r.value == a.(instructorId := instructorId.value)
    ensures r.Err? ==> r.msg == INSTRUCTOR_ERROR
    ensures ValidCourse(a) && r.Ok? ==> ValidCourse(r.value)
  {
    var i :- CheckInstructorId(instructorId);
    Ok(a.(instructorId := i))
  }

  /** Course's `setMeetingDaysAndTime`: all checks precede the update, so
      on an error the course keeps its old meeting. */
  function SetMeetingDaysAndTime(a: Activity, days: JString, start: int, end: int): (r: Result<Activity>)
    requires a.Course?
    ensures r.Ok? <==> days.Some? && WellFormed(Meeting(days.value, start, end), WEEKDAYS)
    ensures r.Ok? ==> r.value == Course(a.title, Meeting(days.value, start, end), a.name, a.section, a.credits, a.instructorId)
    ensures r.Err? ==> r.msg == MEETING_ERROR
    ensures ValidCourse(a) && r.Ok? ==> ValidCourse(r.value)
  {
    var m :- CourseMeeting(days, start, end);
    Ok(Course(a.title, m, a.name, a.section, a.credits, a.instructorId))
  }

  /** Course's `isDuplicate`: another Course with the same name, whatever
      its section; never an Event. */
  function IsDuplicate(c: Activity, other: Activity): bool
    requires c.Course?
  {
    other.Course? && c.name == other.name
  }

  /** The comma-separated fields of `toString`: six for an arranged course,
      eight (with both times) otherwise. */
  function Fields(c: Activity): seq<string>
    requires c.Course?
  {
    var head := [c.name, c.title, c.section, IntToString(c.credits), c.instructorId, c.meeting.days];
    if c.meeting.days == ARRANGED then head
    else head + [IntToString(c.meeting.start), IntToString(c.meeting.end)]
  }

  function ToString(c: Activity): string
    requires c.Course?
  {
    Join(Fields(c), ',')
  }

  /** `getShortDisplayArray`: name, section, title, meeting string. */
  function ShortRow(c: Activity): seq<string>
    requires c.Course?
  {
    [c.name, c.section, c.title, MeetingString(c.meeting)]
  }

  /** `getLongDisplayArray`: the short columns plus credits and instructor,
      and an empty details column. */
  function LongRow(c: Activity): seq<string>
    requires c.Course?
  {
    [c.name, c.section, c.title, IntToString(c.credits), c.instructorId, MeetingString(c.meeting), ""]
  }

  lemma IntToStringHasNoComma(i: int)
    ensures NoComma(IntToString(i))
  {
    if i < 0 {
      DigitsLack(NatToString(-i), ',');
    } else {
      DigitsLack(NatToString(i), ',');
    }
  }

  lemma NameHasNoComma(name: string)
    requires NameShape(name)
    ensures NoComma(name)
  {
    var k := |name| - 4;
    assert name == name[..k] + [' '] + name[k + 1..];
    forall i | 0 <= i < |name| ensures name[i] != ',' {
      if i < k {
        assert name[..k][i] == name[i];
      } else if i > k {
        assert name[k + 1..][i - k - 1] == name[i];
      }
    }
  }

  lemma WeekdaysHaveNoComma(days: string)
    requires DrawnFrom(days, WEEKDAYS)
    ensures NoComma(days)
  {
    forall i | 0 <= i < |days| ensures days[i] != ',' {
      assert days[i] in WEEKDAYS;
    }
  }

  /** No field of a valid course's line holds the separator. */
  lemma FieldsHaveNoComma(c: Activity)
    requires ValidCourse(c) && NoComma(c.title) && NoComma(c.instructorId)
    ensures forall i :: 0 <= i < |Fields(c)| ==> ',' !in Fields(c)[i]
  {
    NameHasNoComma(c.name);
    DigitsLack(c.section, ',');
    IntToStringHasNoComma(c.credits);
    IntToStringHasNoComma(c.meeting.start);
    IntToStringHasNoComma(c.meeting.end);
    if c.meeting.days != ARRANGED {
      WeekdaysHaveNoComma(c.meeting.days);
    }
  }

  /** Reading `toString` back: when the title and instructor hold no
      comma, splitting at commas yields the course's fields in order,
      six of them when arranged and eight otherwise, with the numbers
      readable again. */
  lemma ToStringRoundTrip(c: Activity)
    requires ValidCourse(c) && NoComma(c.title) && NoComma(c.instructorId)
    ensures var f := Split(ToString(c), ',');
      && |f| == (if c.meeting.days == ARRANGED then 6 else 8)
      && f[0] == c.name && f[1] == c.title && f[2] == c.section
      && ParseInt(f[3]) == Some(c.credits) && f[4] == c.instructorId && f[5] == c.meeting.days
      && (c.meeting.days != ARRANGED ==> ParseInt(f[6]) == Some(c.meeting.start) && ParseInt(f[7]) == Some(c.meeting.end))
  {
    var f := Fields(c);
    FieldsHaveNoComma(c);
    SplitJoin(f, ',');
    assert Split(ToString(c), ',') == f;
    assert f[3] == IntToString(c.credits);
    ParseIntToString(c.credits);
    ParseIntToString(c.meeting.start);
    ParseIntToString(c.meeting.end);
  }
}

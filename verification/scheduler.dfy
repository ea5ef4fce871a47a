/** The scheduler: a read-only catalog of courses, an ordered schedule of
    courses and events, and a schedule title. Each operation either fails
    and changes nothing, or performs one append, one removal or one reset. */
module Scheduler {

  import opened Results
  import opened Meetings
  import opened Activities
  import Courses
  import Events
  import opened Dispatch
  import opened Schedules

  const COURSE_CONFLICT_ERROR := "The course cannot be added due to a conflict."
  const EVENT_CONFLICT_ERROR := "The event cannot be added due to a conflict."

  function EventDuplicateError(title: string): string {
    "You have already created an event called " + title
  }

  /** Catalog and schedule hold activities; the catalog holds only
      courses. */
  type WolfScheduler = Schedule<Activity>

  /** The state every operation preserves: the catalog holds valid courses,
      the schedule holds valid activities, every scheduled course comes
      from the catalog, and no two scheduled entries are duplicates or in
      conflict (in either order). */
  predicate Inv(s: WolfScheduler) {
    && (forall i :: 0 <= i < |s.catalog| ==> Courses.ValidCourse(s.catalog[i]))
    && (forall i :: 0 <= i < |s.schedule| ==> Valid(s.schedule[i]))
    && (forall i :: 0 <= i < |s.schedule| && s.schedule[i].Course? ==> s.schedule[i] in s.catalog)
    && (forall i, j :: 0 <= i < |s.schedule| && 0 <= j < |s.schedule| && i != j ==>
          !IsDuplicate(s.schedule[i], s.schedule[j]) && !ConflictsAsWritten(s.schedule[i].meeting, s.schedule[j].meeting))
  }

  lemma NewSchedulerInv(catalog: seq<Activity>)
    requires forall i :: 0 <= i < |catalog| ==> Courses.ValidCourse(catalog[i])
    ensures Inv(NewSchedule(catalog))
  {
  }

  /** A catalog entry matching both name and section; a null argument
      matches nothing. */
  predicate Matches(c: Activity, name: JString, section: JString) {
    c.Course? && name.Some? && section.Some? && c.name == name.value && c.section == section.value
  }

  /** `getCourseFromCatalog`: the first catalog course with this name and
      section, or null. */
  function GetCourseFromCatalog(s: WolfScheduler, name: JString, section: JString): (r: Option<Activity>)
    ensures name.None? || section.None? ==> r.None?
    ensures name.Some? && section.Some? ==>
              (r.None? <==> forall i :: 0 <= i < |s.catalog| ==>
                              !(s.catalog[i].Course? && s.catalog[i].name == name.value
                                && s.catalog[i].section == section.value))
    ensures r.Some? ==>
              && r.value.Course? && r.value.name == name.value && r.value.section == section.value
              && exists k :: 0 <= k < |s.catalog| && s.catalog[k] == r.value
                             && forall j :: 0 <= j < k ==> !Matches(s.catalog[j], name, section)
  {
    FirstMatch(s.catalog, c => Matches(c, name, section))
  }

  /** The entry `x` cannot join alongside `a`. */
  predicate Clashes(a: Activity, x: Activity) {
    IsDuplicate(a, x) || ConflictsAsWritten(a.meeting, x.meeting)
  }

  /** The position of the first scheduled entry `x` clashes with, or
      `|schedule|`. */
  function FirstClash(schedule: seq<Activity>, x: Activity): (k: nat)
    ensures k <= |schedule|
    ensures k < |schedule| ==> Clashes(schedule[k], x)
    ensures forall j :: 0 <= j < k ==> !Clashes(schedule[j], x)
  {
    if schedule == [] then 0
    else if Clashes(schedule[0], x) then 0
    else 1 + FirstClash(schedule[1..], x)
  }

  /** The enrollment loop: for each scheduled entry in order, a duplicate
      throws `dupMsg`, then a conflict throws `conflictMsg`. The first
      clashing entry decides the error. */
  function Scan(schedule: seq<Activity>, x: Activity, dupMsg: string, conflictMsg: string): (r: Outcome)
    ensures r.Pass? <==> forall i :: 0 <= i < |schedule| ==> !Clashes(schedule[i], x)
    ensures r.Fail? ==>
              var k := FirstClash(schedule, x);
              k < |schedule| && r.msg == (if IsDuplicate(schedule[k], x) then dupMsg else conflictMsg)
  {
    if schedule == [] then Pass
    else if IsDuplicate(schedule[0], x) then Fail(dupMsg)
    else if CheckConflict(schedule[0], x).Fail? then Fail(conflictMsg)
    else Scan(schedule[1..], x, dupMsg, conflictMsg)
  }

  /** `addCourseToSchedule`: `Ok((false, s))` when the catalog has no such
      course, an error and no change when some scheduled entry clashes
      with it, otherwise the catalog course appended and `true`. */
  function AddCourseToSchedule(s: WolfScheduler, name: JString, section: JString): (r: Result<(bool, WolfScheduler)>)
    ensures GetCourseFromCatalog(s, name, section).None? ==> r == Ok((false, s))
    ensures GetCourseFromCatalog(s, name, section).Some? ==>
              var c := GetCourseFromCatalog(s, name, section).value;
              && (r.Ok? <==> forall i :: 0 <= i < |s.schedule| ==> !Clashes(s.schedule[i], c))
              && (r.Ok? ==> r.value == (true, s.(schedule := s.schedule + [c])))
              && (r.Err? ==> var k := FirstClash(s.schedule, c);
                             k < |s.schedule|
                             && r.msg == (if IsDuplicate(s.schedule[k], c) then CourseDuplicateError(name.value)
                                          else COURSE_CONFLICT_ERROR))
  {
    match GetCourseFromCatalog(s, name, section)
    case None => Ok((false, s))
    case Some(c) =>
      match Scan(s.schedule, c, CourseDuplicateError(name.value), COURSE_CONFLICT_ERROR)
      case Fail(msg) => Err(msg)
      case Pass => Ok((true, s.(schedule := s.schedule + [c])))
  }

  /** `addEventToSchedule`: the event is built (and validated) first, then
      checked against every scheduled entry, then appended. */
  function AddEventToSchedule(s: WolfScheduler, title: JString, days: JString, start: int, end: int,
                              details: JString): (r: Result<WolfScheduler>)
    ensures Events.NewEvent(title, days, start, end, details).Err? ==>
              r == Err(Events.NewEvent(title, days, start, end, details).msg)
    ensures Events.NewEvent(title, days, start, end, details).Ok? ==>
              var e := Events.NewEvent(title, days, start, end, details).value;
              && (r.Ok? <==> forall i :: 0 <= i < |s.schedule| ==> !Clashes(s.schedule[i], e))
              && (r.Ok? ==> r.value == s.(schedule := s.schedule + [e]))
              && (r.Err? ==> var k := FirstClash(s.schedule, e);
                             k < |s.schedule|
                             && r.msg == (if IsDuplicate(s.schedule[k], e) then EventDuplicateError(title.value)
                                          else EVENT_CONFLICT_ERROR))
  {
    var e :- Events.NewEvent(title, days, start, end, details);
    match Scan(s.schedule, e, EventDuplicateError(title.value), EVENT_CONFLICT_ERROR)
    case Fail(msg) => Err(msg)
    case Pass => Ok(s.(schedule := s.schedule + [e]))
  }

  /** `removeActivityFromSchedule`: an index inside the schedule deletes
      exactly that entry and keeps the rest in order; any other index
      changes nothing and answers false. */
  function RemoveActivityFromSchedule(s: WolfScheduler, idx: int): (r: (bool, WolfScheduler))
    ensures r.0 <==> 0 <= idx < |s.schedule|
    ensures !r.0 ==> r.1 == s
    ensures r.1.catalog == s.catalog && r.1.title == s.title
    ensures r.0 ==> && |r.1.schedule| == |s.schedule| - 1
                    && (forall j :: 0 <= j < idx ==> r.1.schedule[j] == s.schedule[j])
                    && (forall j :: idx <= j < |r.1.schedule| ==> r.1.schedule[j] == s.schedule[j + 1])
                    && multiset(r.1.schedule) + multiset{s.schedule[idx]} == multiset(s.schedule)
  {
    if 0 <= idx < |s.schedule| then
      assert s.schedule == s.schedule[..idx] + [s.schedule[idx]] + s.schedule[idx + 1..];
      (true, s.(schedule := s.schedule[..idx] + s.schedule[idx + 1..]))
    else (false, s)
  }

  /** The rows of `getCourseCatalog` (over the catalog) and
      `getScheduledActivities` (over the schedule): one short row per
      entry, in order. */
  method ShortRows(items: seq<Activity>) returns (rows: seq<seq<string>>)
    ensures |rows| == |items|
    ensures forall i :: 0 <= i < |items| ==> rows[i] == ShortRow(items[i])
  {
    rows := [];
    var i := 0;
    while i < |items|
      invariant 0 <= i <= |items|
      invariant |rows| == i
      invariant forall j :: 0 <= j < i ==> rows[j] == ShortRow(items[j])
    {
      rows := rows + [ShortRow(items[i])];
      i := i + 1;
    }
  }

  /** The rows of `getFullScheduledActivities`: one long row per scheduled
      entry, in order. */
  method LongRows(items: seq<Activity>) returns (rows: seq<seq<string>>)
    ensures |rows| == |items|
    ensures forall i :: 0 <= i < |items| ==> rows[i] == LongRow(items[i])
  {
    rows := [];
    var i := 0;
    while i < |items|
      invariant 0 <= i <= |items|
      invariant |rows| == i
      invariant forall j :: 0 <= j < i ==> rows[j] == LongRow(items[j])
    {
      rows := rows + [LongRow(items[i])];
      i := i + 1;
    }
  }

  /** Appending an entry that clashes with nothing already scheduled keeps
      the invariant; the pairs with the new entry last hold by the scan,
      the pairs with it first by symmetry of both tests. */
  lemma AppendKeepsInv(s: WolfScheduler, x: Activity)
    requires Inv(s) && Valid(x) && (x.Course? ==> x in s.catalog)
    requires forall i :: 0 <= i < |s.schedule| ==> !Clashes(s.schedule[i], x)
    ensures Inv(s.(schedule := s.schedule + [x]))
  {
    var t := s.schedule + [x];
    var n := |s.schedule|;
    forall i, j | 0 <= i < |t| && 0 <= j < |t| && i != j
      ensures !IsDuplicate(t[i], t[j]) && !ConflictsAsWritten(t[i].meeting, t[j].meeting)
    {
      if j == n {
        assert !Clashes(s.schedule[i], x);
      } else if i == n {
        assert !Clashes(s.schedule[j], x);
        IsDuplicateCharacterised(x, t[j]);
        ConflictSymmetric(x, t[j]);
      } else {
        assert t[i] == s.schedule[i] && t[j] == s.schedule[j];
      }
    }
  }

  lemma AddCourseKeepsInv(s: WolfScheduler, name: JString, section: JString)
    requires Inv(s)
    ensures AddCourseToSchedule(s, name, section).Ok? ==> Inv(AddCourseToSchedule(s, name, section).value.1)
  {
    var found := GetCourseFromCatalog(s, name, section);
    if found.Some? && AddCourseToSchedule(s, name, section).Ok? {
      AppendKeepsInv(s, found.value);
    }
  }

  lemma AddEventKeepsInv(s: WolfScheduler, title: JString, days: JString, start: int, end: int, details: JString)
    requires Inv(s)
    ensures AddEventToSchedule(s, title, days, start, end, details).Ok? ==>
              Inv(AddEventToSchedule(s, title, days, start, end, details).value)
  {
    var e := Events.NewEvent(title, days, start, end, details);
    if e.Ok? && AddEventToSchedule(s, title, days, start, end, details).Ok? {
      AppendKeepsInv(s, e.value);
    }
  }

  lemma RemoveKeepsInv(s: WolfScheduler, idx: int)
    requires Inv(s)
    ensures Inv(RemoveActivityFromSchedule(s, idx).1)
  {
    if 0 <= idx < |s.schedule| {
      var t := RemoveActivityFromSchedule(s, idx).1.schedule;
      forall i | 0 <= i < |t| ensures t[i] == s.schedule[if i < idx then i else i + 1] {
      }
    }
  }

  lemma ResetKeepsInv(s: WolfScheduler)
    requires Inv(s)
    ensures Inv(ResetSchedule(s))
  {
  }

  lemma SetTitleKeepsInv(s: WolfScheduler, title: JString)
    requires Inv(s)
    ensures SetScheduleTitle(s, title).Ok? ==> Inv(SetScheduleTitle(s, title).value)
  {
  }

  /** CSC 216 on MW 10:00-11:00 and CSC 226 on TH 11:00-12:00: one ends
      the minute the other starts, on disjoint days. */
  const SOFTWARE_DEVELOPMENT: Activity :=
    Course("Software Development", Meeting("MW", 1000, 1100), "CSC 216", "001", 3, "sesmith5")
  const DISCRETE_MATH: Activity :=
    Course("Discrete Mathematics", Meeting("TH", 1100, 1200), "CSC 226", "001", 3, "jtking")
  const TOUCHING_STATE: WolfScheduler :=
    Schedule([SOFTWARE_DEVELOPMENT, DISCRETE_MATH], [SOFTWARE_DEVELOPMENT], DEFAULT_TITLE)

  lemma TouchingStateValid()
    ensures Inv(TOUCHING_STATE)
  {
    var a, b := SOFTWARE_DEVELOPMENT, DISCRETE_MATH;
    assert a.name[..3] == "CSC" && a.name[4..] == "216";
    assert b.name[..3] == "CSC" && b.name[4..] == "226";
  }

  lemma TouchingStateLookup()
    ensures GetCourseFromCatalog(TOUCHING_STATE, Some("CSC 226"), Some("001")) == Some(DISCRETE_MATH)
  {
    var s := TOUCHING_STATE;
    assert !Matches(s.catalog[0], Some("CSC 226"), Some("001"));
    assert Matches(s.catalog[1], Some("CSC 226"), Some("001"));
    var found := GetCourseFromCatalog(s, Some("CSC 226"), Some("001"));
    var k :| 0 <= k < |s.catalog| && s.catalog[k] == found.value && Matches(found.value, Some("CSC 226"), Some("001"));
  }

  /** What the precedence of the conflict test means for a student: with
      CSC 216 on MW 10:00-11:00 enrolled, CSC 226 on TH 11:00-12:00 is
      refused as a conflict although the two never meet on the same day. */
  lemma TouchingCourseRefused()
    ensures Inv(TOUCHING_STATE)
    ensures !SharedDayConflict(SOFTWARE_DEVELOPMENT.meeting, DISCRETE_MATH.meeting)
    ensures AddCourseToSchedule(TOUCHING_STATE, Some("CSC 226"), Some("001")) == Err(COURSE_CONFLICT_ERROR)
  {
    TouchingStateValid();
    TouchingStateLookup();
    TouchingWithoutSharedDay();
    assert !IsDuplicate(SOFTWARE_DEVELOPMENT, DISCRETE_MATH);
    assert Clashes(TOUCHING_STATE.schedule[0], DISCRETE_MATH);
    assert FirstClash(TOUCHING_STATE.schedule, DISCRETE_MATH) == 0;
  }

  /** A schedule kept by the check as written is also free of every
      conflict in the shared-day sense. */
  lemma InvExcludesSharedDayConflicts(s: WolfScheduler)
    requires Inv(s)
    ensures forall i, j :: 0 <= i < |s.schedule| && 0 <= j < |s.schedule| && i != j ==>
              !SharedDayConflict(s.schedule[i].meeting, s.schedule[j].meeting)
  {
    forall i, j | 0 <= i < |s.schedule| && 0 <= j < |s.schedule| && i != j
      ensures !SharedDayConflict(s.schedule[i].meeting, s.schedule[j].meeting)
    {
      var a, b := s.schedule[i], s.schedule[j];
      if a.Course? {
        WeekdaysWithinWeek(a.meeting);
      }
      if b.Course? {
        WeekdaysWithinWeek(b.meeting);
      }
      AsWrittenVersusSharedDay(a.meeting, b.meeting);
    }
  }
}

/** The earlier, course-only scheduler: a catalog and a schedule of
    standalone courses. Enrollment refuses a second section of a course
    already taken but does not compare meeting times; removal is by name
    and section. */
module LegacyScheduler {

  import opened Results
  import opened Text
  import opened LegacyCourse
  import opened Schedules

  type WolfScheduler = Schedule<Course>

  /** The state every operation preserves: valid catalog courses, every
      scheduled course taken from the catalog, and no course name
      scheduled twice. */
  predicate Inv(s: WolfScheduler) {
    && (forall i :: 0 <= i < |s.catalog| ==> Valid(s.catalog[i]))
    && (forall i :: 0 <= i < |s.schedule| ==> s.schedule[i] in s.catalog)
    && (forall i, j :: 0 <= i < j < |s.schedule| ==> s.schedule[i].name != s.schedule[j].name)
  }

  lemma NewSchedulerInv(catalog: seq<Course>)
    requires forall i :: 0 <= i < |catalog| ==> Valid(catalog[i])
    ensures Inv(NewSchedule(catalog))
  {
  }

  /** Name and section both equal; a null argument matches nothing. */
  predicate Matches(c: Course, name: JString, section: JString) {
    name.Some? && section.Some? && c.name == name.value && c.section == section.value
  }

  /** `getCourseFromCatalog`: the first catalog course with this name and
      section, or null. */
  function GetCourseFromCatalog(s: WolfScheduler, name: JString, section: JString): (r: Option<Course>)
    ensures name.None? || section.None? ==> r.None?
    ensures name.Some? && section.Some? ==>
              (r.None? <==> forall i :: 0 <= i < |s.catalog| ==>
                              !(s.catalog[i].name == name.value && s.catalog[i].section == section.value))
    ensures r.Some? ==>
              && r.value.name == name.value && r.value.section == section.value
              && exists k :: 0 <= k < |s.catalog| && s.catalog[k] == r.value
                             && forall j :: 0 <= j < k ==> !Matches(s.catalog[j], name, section)
  {
    FirstMatch(s.catalog, c => Matches(c, name, section))
  }

  /** Some scheduled course carries this name. */
  predicate Enrolled(schedule: seq<Course>, name: string) {
    exists i :: 0 <= i < |schedule| && schedule[i].name == name
  }

  /** The enrollment loop: the first scheduled course whose name equals
      the requested name throws. */
  function NameScan(schedule: seq<Course>, name: string): (r: Outcome)
    ensures r.Pass? <==> !Enrolled(schedule, name)
    ensures r.Fail? ==> r.msg == CourseDuplicateError(name)
  {
    if schedule == [] then Pass
    else if schedule[0].name == name then Fail(CourseDuplicateError(name))
    else
      var rest := NameScan(schedule[1..], name);
      assert Enrolled(schedule, name) <==> Enrolled(schedule[1..], name) by {
        if Enrolled(schedule, name) {
          var i :| 0 <= i < |schedule| && schedule[i].name == name;
          assert schedule[1..][i - 1] == schedule[i];
        }
        if Enrolled(schedule[1..], name) {
          var i :| 0 <= i < |schedule[1..]| && schedule[1..][i].name == name;
          assert schedule[i + 1] == schedule[1..][i];
        }
      }
      rest
  }

  /** `addCourseToSchedule`: `Ok((false, s))` when the catalog has no such
      course; an error and no change when a course of that name is already
      scheduled (whatever its section or meeting); otherwise the catalog
      course appended and `true`. Meeting times are never compared. */
  function AddCourseToSchedule(s: WolfScheduler, name: JString, section: JString): (r: Result<(bool, WolfScheduler)>)
    ensures GetCourseFromCatalog(s, name, section).None? ==> r == Ok((false, s))
    ensures GetCourseFromCatalog(s, name, section).Some? ==>
              var c := GetCourseFromCatalog(s, name, section).value;
              && (r.Ok? <==> !Enrolled(s.schedule, c.name))
              && (r.Ok? ==> r.value == (true, s.(schedule := s.schedule + [c])))
              && (r.Err? ==> r.msg == CourseDuplicateError(name.value))
  {
    match GetCourseFromCatalog(s, name, section)
    case None => Ok((false, s))
    case Some(c) =>
      match NameScan(s.schedule, name.value)
      case Fail(msg) => Err(msg)
      case Pass => Ok((true, s.(schedule := s.schedule + [c])))
  }

  /** Without a time check, two different courses meeting at the same time
      on the same day are both accepted. */
  lemma OverlappingCoursesBothAccepted()
    ensures var a := Course("CSC 216", "Software Development", "001", 3, "sesmith5", "MW", 1330, 1445);
            var b := Course("MA 141", "Calculus I", "001", 4, "jdyoung", "MW", 1330, 1445);
            var s0 := NewSchedule([a, b]);
            var r1 := AddCourseToSchedule(s0, Some("CSC 216"), Some("001"));
            r1.Ok? && r1.value.0
            && var r2 := AddCourseToSchedule(r1.value.1, Some("MA 141"), Some("001"));
               r2.Ok? && r2.value.0 && r2.value.1.schedule == [a, b]
  {
    var a := Course("CSC 216", "Software Development", "001", 3, "sesmith5", "MW", 1330, 1445);
    var b := Course("MA 141", "Calculus I", "001", 4, "jdyoung", "MW", 1330, 1445);
    var s0 := NewSchedule([a, b]);

    var s1 := s0.(schedule := [a]);

    assert !Enrolled(s1.schedule, "MA 141") by {
      assert s1.schedule[0].name == "CSC 216";
    }
  }

  /** `removeCourseFromSchedule`: the first scheduled course with this
      name and section is removed, the rest keep their order; without a
      match nothing changes and the answer is false. */
  function RemoveCourseFromSchedule(s: WolfScheduler, name: JString, section: JString): (r: (bool, WolfScheduler))
    ensures r.0 <==> exists i :: 0 <= i < |s.schedule| && Matches(s.schedule[i], name, section)
    ensures !r.0 ==> r.1 == s
    ensures r.1.catalog == s.catalog && r.1.title == s.title
    ensures r.0 ==> exists k :: 0 <= k < |s.schedule| && Matches(s.schedule[k], name, section)
                                && (forall j :: 0 <= j < k ==> !Matches(s.schedule[j], name, section))
                                && r.1.schedule == s.schedule[..k] + s.schedule[k + 1..]
  {
    match FindFirst(s.schedule, c => Matches(c, name, section))
    case None => (false, s)
    case Some(k) => (true, s.(schedule := s.schedule[..k] + s.schedule[k + 1..]))
  }

  /** Name, section and title: the three columns of `getCourseCatalog` and
      `getScheduledCourses`. */
  function ShortRow(c: Course): seq<string> {
    [c.name, c.section, c.title]
  }

  /** The six columns of `getFullScheduledCourses`. */
  function FullRow(c: Course): seq<string> {
    [c.name, c.section, c.title, IntToString(c.credits), c.instructorId, MeetingString(c)]
  }

  /** The short row is the first half of the full row. */
  lemma ShortRowProjectsFullRow(c: Course)
    ensures |ShortRow(c)| == 3 && |FullRow(c)| == 6 && FullRow(c)[..3] == ShortRow(c)
  {
  }

  /** `getCourseCatalog` and `getScheduledCourses`: one short row per
      course, in order (an empty list gives no rows). */
  method ShortRows(items: seq<Course>) returns (rows: seq<seq<string>>)
    ensures |rows| == |items|
    ensures forall i :: 0 <= i < |items| ==> rows[i] == [items[i].name, items[i].section, items[i].title]
  {
    rows := [];
    var i := 0;
    while i < |items|
      invariant 0 <= i <= |items|
      invariant |rows| == i
      invariant forall j :: 0 <= j < i ==> rows[j] == [items[j].name, items[j].section, items[j].title]
    {
      rows := rows + [ShortRow(items[i])];
      i := i + 1;
    }
  }

  /** `getFullScheduledCourses`: one full row per scheduled course, in
      order; the last column is the meeting text. */
  method FullRows(items: seq<Course>) returns (rows: seq<seq<string>>)
    ensures |rows| == |items|
    ensures forall i :: 0 <= i < |items| ==> |rows[i]| == 6 && rows[i][..3] == ShortRow(items[i])
                                              && rows[i][3] == IntToString(items[i].credits)
                                              && rows[i][4] == items[i].instructorId
                                              && rows[i][5] == MeetingString(items[i])
  {
    rows := [];
    var i := 0;
    while i < |items|
      invariant 0 <= i <= |items|
      invariant |rows| == i
      invariant forall j :: 0 <= j < i ==> rows[j] == FullRow(items[j])
    {
      rows := rows + [FullRow(items[i])];
      i := i + 1;
    }
  }

  lemma AddCourseKeepsInv(s: WolfScheduler, name: JString, section: JString)
    requires Inv(s)
    ensures AddCourseToSchedule(s, name, section).Ok? ==> Inv(AddCourseToSchedule(s, name, section).value.1)
  {
    var found := GetCourseFromCatalog(s, name, section);
    if found.Some? && AddCourseToSchedule(s, name, section).Ok? {
      var c := found.value;
      var t := s.schedule + [c];
      forall i, j | 0 <= i < j < |t| ensures t[i].name != t[j].name {
        if j == |s.schedule| {
          assert t[i] == s.schedule[i];
        } else {
          assert t[i] == s.schedule[i] && t[j] == s.schedule[j];
        }
      }
    }
  }

  /** Deleting one scheduled course keeps the invariant: the survivors
      keep their order, so distinct names stay distinct. */
  lemma DeleteKeepsInv(s: WolfScheduler, k: nat)
    requires Inv(s) && k < |s.schedule|
    ensures Inv(s.(schedule := s.schedule[..k] + s.schedule[k + 1..]))
  {
    var t := s.schedule[..k] + s.schedule[k + 1..];
    forall i | 0 <= i < |t| ensures t[i] == s.schedule[if i < k then i else i + 1] {
    }
    forall i, j | 0 <= i < j < |t| ensures t[i].name != t[j].name {
      var i', j' := (if i < k then i else i + 1), (if j < k then j else j + 1);
      assert i' < j' && t[i] == s.schedule[i'] && t[j] == s.schedule[j'];
    }
  }

  lemma RemoveKeepsInv(s: WolfScheduler, name: JString, section: JString)
    requires Inv(s)
    ensures Inv(RemoveCourseFromSchedule(s, name, section).1)
  {
    match FindFirst(s.schedule, c => Matches(c, name, section))
    case None =>
    case Some(k) => DeleteKeepsInv(s, k);
  }

  lemma ResetKeepsInv(s: WolfScheduler)
    requires Inv(s)
    ensures Inv(ResetSchedule(s))
  {
  }

  lemma SetTitleKeepsInv(s: WolfScheduler, title: JString)
    requires Inv(s)
    ensures SetScheduleTitle(s, title).Ok? ==> Inv(SetScheduleTitle(s, title).value)
  {
  }
}

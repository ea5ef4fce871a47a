/** The calls Java resolves by the run-time class of an Activity:
    `equals`, `isDuplicate`, `toString` and the two display arrays. */
module Dispatch {

  import opened Meetings
  import opened Activities
  import Courses
  import Events

  predicate Valid(a: Activity) {
    Courses.ValidCourse(a) || Events.ValidEvent(a)
  }

  /** `equals`: Course adds its own four fields to Activity's test, and
      Event inherits Activity's test unchanged, so two events that differ
      only in their details are equal. */
  function Equals(a: Activity, b: Activity): (r: bool)
    ensures a.Course? && b.Course? ==> (r <==> a == b)
    ensures a.Event? && b.Event? ==> (r <==> a.(details := b.details) == b)
    ensures a.Course? != b.Course? ==> !r
  {
    && SameActivity(a, b)
    && match a
       case Course(_, _, name, section, credits, instructorId) =>
         b.credits == credits && b.instructorId == instructorId && b.name == name && b.section == section
       case Event(_, _, _) => true
  }

  function IsDuplicate(a: Activity, b: Activity): bool {
    match a
    case Course(_, _, _, _, _, _) => Courses.IsDuplicate(a, b)
    case Event(_, _, _) => Events.IsDuplicate(a, b)
  }

  function ToString(a: Activity): string {
    match a
    case Course(_, _, _, _, _, _) => Courses.ToString(a)
    case Event(_, _, _) => Events.ToString(a)
  }

  function ShortRow(a: Activity): seq<string> {
    match a
    case Course(_, _, _, _, _, _) => Courses.ShortRow(a)
    case Event(_, _, _) => Events.ShortRow(a)
  }

  function LongRow(a: Activity): seq<string> {
    match a
    case Course(_, _, _, _, _, _) => Courses.LongRow(a)
    case Event(_, _, _) => Events.LongRow(a)
  }

  /** `equals` is an equivalence relation. */
  lemma EqualsIsEquivalence(a: Activity, b: Activity, c: Activity)
    ensures Equals(a, a)
    ensures Equals(a, b) ==> Equals(b, a)
    ensures Equals(a, b) && Equals(b, c) ==> Equals(a, c)
  {
  }

  /** Two lunches that differ only in their details are equal under
      `equals`, though they are different values. */
  lemma EventEqualityIgnoresDetails()
    ensures Event("Lunch", Meeting("M", 1200, 1300), "a") != Event("Lunch", Meeting("M", 1200, 1300), "b")
    ensures Equals(Event("Lunch", Meeting("M", 1200, 1300), "a"), Event("Lunch", Meeting("M", 1200, 1300), "b"))
  {
  }

  /** An equal entry is also a duplicate: equal courses share the name and
      equal events share the title. */
  lemma EqualImpliesDuplicate(a: Activity, b: Activity)
    ensures Equals(a, b) ==> IsDuplicate(a, b)
  {
  }

  /** Duplicates are of the same kind and share their key (name for
      courses, title for events), so the relation is symmetric. */
  lemma IsDuplicateCharacterised(a: Activity, b: Activity)
    ensures IsDuplicate(a, b) <==>
      (a.Course? && b.Course? && a.name == b.name) || (a.Event? && b.Event? && a.title == b.title)
    ensures IsDuplicate(a, b) <==> IsDuplicate(b, a)
  {
  }

  /** Every validated activity has at least one day letter, so the
      conflict check as written is symmetric between any two of them. */
  lemma ConflictSymmetric(a: Activity, b: Activity)
    requires Valid(a) && Valid(b)
    ensures CheckConflict(a, b).Fail? <==> CheckConflict(b, a).Fail?
  {
    ConflictsAsWrittenSymmetric(a.meeting, b.meeting);
  }

  /** The short row is the long row's name, section, title and meeting
      columns; the long row has seven columns and the short one four. */
  lemma ShortRowProjectsLongRow(a: Activity)
    ensures |LongRow(a)| == 7
    ensures ShortRow(a) == [LongRow(a)[0], LongRow(a)[1], LongRow(a)[2], LongRow(a)[5]]
  {
  }

  /** The first display column tells the kinds apart: a course's name is
      never empty and an event's column is. */
  lemma RowsIdentifyKind(a: Activity)
    requires Valid(a)
    ensures |ShortRow(a)| == 4 && (ShortRow(a)[0] != "" <==> a.Course?)
    ensures ShortRow(a)[2] == a.title && ShortRow(a)[3] == MeetingString(a.meeting)
  {
  }
}

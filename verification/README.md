# WolfScheduler in Dafny

WolfScheduler is a student course scheduler. A read-only catalog of courses is loaded from a file. A student builds an ordered schedule of courses and personal events from it, and can retitle or reset that schedule. Every schedulable item is an *Activity*: a title plus a meeting. A meeting is a string of day letters (`M T W H F S U`) with a start and an end time written as `hour * 100 + minute`, or the sentinel `"A"` for an arranged meeting with no fixed time.

The model covers:

- **Validation and rendering of Activities.** The *Course* variant adds name, section, credits and instructor, and meets on weekdays only. The *Event* variant adds free-form details and may meet at weekends but is never arranged. Every setter checks everything before it changes anything. The 12-hour "meeting string" is shown to determine the meeting.
- **Conflict and duplicate tests.** The conflict test is modelled exactly as written, operator precedence included. A corrected, shared-day test sits beside it, with lemmas saying where the two differ.
- **The scheduler state machine.** Operations are catalog lookup, adding a course, adding an event, removing by index, reset and retitling. An invariant holds across all of them: every entry is valid, every scheduled course comes from the catalog, and no two entries are duplicates or in conflict.
- **The earlier standalone versions** of `Course` and `WolfScheduler` at the repository root. This is a course-only scheduler with no time-conflict check. Lemmas relate it to the Activity-based version.

Modules, one file each:

- `Results`: `Option` stands for a nullable Java reference (`JString` is a nullable string). `Result` and `Outcome` stand for a call that may throw `IllegalArgumentException`, and keep the source's message.
- `Text`: ASCII character classes, decimal rendering and parsing, and comma-separated fields.
- `Clock`: Java's truncating `/` and `%`, the hour and minute range checks, and 12-hour rendering.
- `Meetings`: meeting validation, the meeting string, and both conflict tests.
- `Activities`, `Courses`, `Events`: the Activity datatype and its two variants.
- `Dispatch`: the calls Java resolves by the run-time class.
- `Schedules`: the state and the operations both schedulers share.
- `Scheduler`: the Activity-based scheduler.
- `LegacyCourse`, `LegacyScheduler`: the standalone versions.

## Model

| member | source | states |
|---|---|---|
| Clock.ValidTimeIsClockTime | WolfScheduler/src/edu/ncsu/csc216/wolf_scheduler/course/Activity.java:145-155 | The hour/minute check on Java's truncating `/` and `%` accepts exactly the wall-clock times 0000..2359 with minutes below 60; every negative time is rejected whatever the rounding |
| Clock.HourRoundTrip | WolfScheduler/src/edu/ncsu/csc216/wolf_scheduler/course/Activity.java:173-190 | The printed 12-hour hour together with AM/PM identifies the 24-hour hour, for a start bound (hour 0 stays 0) and an end bound (hour 0 prints as 12) |
| Clock.MinuteStringRoundTrip | WolfScheduler/src/edu/ncsu/csc216/wolf_scheduler/course/Activity.java:180-193 | A minute in range prints as exactly two digits that read back as the minute |
| Clock.MidnightHourAsymmetry | WolfScheduler/src/edu/ncsu/csc216/wolf_scheduler/course/Activity.java:173-190 | 00:30 prints as `0:30AM` as a start and as `12:30AM` as an end |
| Meetings.CountDays | WolfScheduler/src/edu/ncsu/csc216/wolf_scheduler/course/Activity.java:110-142 | The day-counting loops (a switch whose default throws, then no count above one) accept exactly the day strings drawn from the alphabet with no letter repeated |
| Meetings.TallyDays | WolfScheduler/src/edu/ncsu/csc216/wolf_scheduler/course/Activity.java:110-136 | The per-letter tally fails exactly when a character outside the alphabet appears; when it succeeds, no tally exceeds one exactly when no day letter repeats |
| Meetings.AtMostOnce | WolfScheduler/src/edu/ncsu/csc216/wolf_scheduler/course/Activity.java:138-142 | The check over the seven tallies passes exactly when every tally is at most one |
| Meetings.ActivityMeeting | WolfScheduler/src/edu/ncsu/csc216/wolf_scheduler/course/Activity.java:96-162 | Activity's meeting check succeeds exactly for present days that are the arranged sentinel with zero times, or non-repeating letters of MTWHFSU with two wall-clock times in order; the stored meeting is then exactly the arguments, and every failure carries the meeting message |
| Meetings.WeekdaysWithinWeek | WolfScheduler/src/edu/ncsu/csc216/wolf_scheduler/course/Course.java:256-303 | A meeting valid for a Course is valid for Activity's own check |
| Meetings.ClockStringRoundTrip | WolfScheduler/src/edu/ncsu/csc216/wolf_scheduler/course/Activity.java:173-194 | One printed bound `h:mmAM` reads back to the hhmm time it came from |
| Meetings.MeetingStringRoundTrip | WolfScheduler/src/edu/ncsu/csc216/wolf_scheduler/course/Activity.java:167-197 | The meeting string determines the meeting: "Arranged" for the sentinel, otherwise days, space and the two bounds, which read back to the same days, start and end |
| Meetings.ConflictScanClosedForm | WolfScheduler/src/edu/ncsu/csc216/wolf_scheduler/course/Activity.java:243-249 | The per-day loop fires iff some day of this activity is shared with a strict overlap, or (with at least one day) the endpoints touch, on any days |
| Meetings.ConflictsAsWrittenClosedForm | WolfScheduler/src/edu/ncsu/csc216/wolf_scheduler/course/Activity.java:239-250 | As written, two timed meetings conflict iff they share a day and strictly overlap, or their endpoints touch whether or not a day is shared; arranged meetings never conflict |
| Meetings.ArrangedNeverConflicts | WolfScheduler/src/edu/ncsu/csc216/wolf_scheduler/course/Activity.java:240-242 | An arranged meeting conflicts with nothing, in either direction and under either test |
| Meetings.ConflictsAsWrittenSymmetric | WolfScheduler/src/edu/ncsu/csc216/wolf_scheduler/course/Activity.java:239-250 | The check as written gives the same answer with its arguments swapped, for meetings with at least one day letter |
| Meetings.AsWrittenVersusSharedDay | WolfScheduler/src/edu/ncsu/csc216/wolf_scheduler/course/Activity.java:244-246 | For validated meetings the check as written is the shared-day conflict plus touching endpoints on disjoint days, and nothing else |
| Meetings.TouchingWithoutSharedDay | WolfScheduler/src/edu/ncsu/csc216/wolf_scheduler/course/Activity.java:244-246 | MW 10:00-11:00 and TH 11:00-12:00 share no day, yet the check as written reports a conflict |
| Meetings.SharedDayConflictProperties | WolfScheduler/src/edu/ncsu/csc216/wolf_scheduler/course/Activity.java:239-250 | The shared-day test is symmetric, counts touching endpoints on a shared day, and never fires without a shared day |
| Activities.CheckTitle | WolfScheduler/src/edu/ncsu/csc216/wolf_scheduler/course/Activity.java:74-79 | Null and "" are rejected with the title message; any other title is kept unchanged |
| Activities.SetTitle | WolfScheduler/src/edu/ncsu/csc216/wolf_scheduler/course/Activity.java:74-79 | On success only the title changes; on failure nothing is returned in its place |
| Activities.CheckConflict | WolfScheduler/src/edu/ncsu/csc216/wolf_scheduler/course/Activity.java:239-250 | Throws the default conflict message exactly when the test as written fires |
| Courses.NameScanAfterSpace | WolfScheduler/src/edu/ncsu/csc216/wolf_scheduler/course/Course.java:120-147 | After the space, the loop accepts exactly an all-digit tail that brings the digit count to three, with the letter count in range |
| Courses.NameScanBeforeSpace | WolfScheduler/src/edu/ncsu/csc216/wolf_scheduler/course/Course.java:111-149 | The character loop with its count checks accepts exactly one to four letters, a space and three digits |
| Courses.CheckName | WolfScheduler/src/edu/ncsu/csc216/wolf_scheduler/course/Course.java:111-149 | A course name is accepted iff present and shaped as one to four ASCII letters, a space and three digits (a name with no space never passes) |
| Courses.CheckSection | WolfScheduler/src/edu/ncsu/csc216/wolf_scheduler/course/Course.java:164-174 | A section is accepted iff present, three characters long and all digits |
| Courses.CheckCredits | WolfScheduler/src/edu/ncsu/csc216/wolf_scheduler/course/Course.java:189-194 | Credits are accepted iff between 1 and 5 |
| Courses.CheckInstructorId | WolfScheduler/src/edu/ncsu/csc216/wolf_scheduler/course/Course.java:208-213 | Null and "" are rejected; any other id is kept |
| Courses.CourseMeeting | WolfScheduler/src/edu/ncsu/csc216/wolf_scheduler/course/Course.java:256-303 | Course's override accepts exactly the arranged sentinel with zero times or non-repeating letters of MTWHF with valid ordered times, so S and U are rejected |
| Courses.NewCourse | WolfScheduler/src/edu/ncsu/csc216/wolf_scheduler/course/Course.java:76-83 | The constructor succeeds iff every field check does, builds the course from the arguments, and reports the first failing check in the order title, meeting, name, section, credits, instructor |
| Courses.NewArrangedCourse | WolfScheduler/src/edu/ncsu/csc216/wolf_scheduler/course/Course.java:94-96 | The six-argument form passes zero times, so besides "A" any non-repeating weekday string is accepted; on success the course is valid and holds the arguments with the meeting at 0-0; a failure carries the first failing check's message in constructor order (title, meeting, name, section, credits, instructor) |
| Courses.NewCourseAcceptsValid | WolfScheduler/src/edu/ncsu/csc216/wolf_scheduler/course/Course.java:76-83 | Rebuilding any valid course from its own fields gives it back |
| Courses.SetSection | WolfScheduler/src/edu/ncsu/csc216/wolf_scheduler/course/Course.java:164-174 | Succeeds exactly when the section check passes; only the section changes and a valid course stays valid; a failure carries "Invalid section." |
| Courses.SetCredits | WolfScheduler/src/edu/ncsu/csc216/wolf_scheduler/course/Course.java:189-194 | Succeeds exactly for credits 1..5; only the credits change and a valid course stays valid; a failure carries "Invalid credits." |
| Courses.SetInstructorId | WolfScheduler/src/edu/ncsu/csc216/wolf_scheduler/course/Course.java:208-213 | Succeeds exactly when the instructor check passes; only the instructor changes and a valid course stays valid; a failure carries "Invalid instructor id." |
| Courses.SetMeetingDaysAndTime | WolfScheduler/src/edu/ncsu/csc216/wolf_scheduler/course/Course.java:256-303 | Succeeds exactly for a well-formed MTWHF meeting or "A" at 0-0; on success only the meeting changes and a valid course stays valid; a failure carries "Invalid meeting days and times." |
| Courses.ToStringRoundTrip | WolfScheduler/src/edu/ncsu/csc216/wolf_scheduler/course/Course.java:219-225 | Splitting `toString` at commas gives name, title, section, credits, instructor and days, plus start and end unless arranged (6 or 8 fields), when title and instructor hold no comma |
| Events.CheckDetails | WolfScheduler/src/edu/ncsu/csc216/wolf_scheduler/course/Event.java:27-32 | Only null details are rejected; the empty string is kept |
| Events.DayLoopAfterSuccess | WolfScheduler/src/edu/ncsu/csc216/wolf_scheduler/course/Event.java:88-121 | Once Activity's check has stored the meeting, the remaining passes of the misplaced loop change nothing |
| Events.DayLoopAllOrNothing | WolfScheduler/src/edu/ncsu/csc216/wolf_scheduler/course/Event.java:88-121 | Despite the brace placement, the loop either stores exactly the new meeting (when one Activity check passes) or throws and leaves the stored meeting as it was |
| Events.EventMeeting | WolfScheduler/src/edu/ncsu/csc216/wolf_scheduler/course/Event.java:76-121 | Event's override passes exactly for present, non-arranged, non-repeating letters of MTWHFSU with valid ordered times; on failure the stored meeting is unchanged |
| Events.NewEvent | WolfScheduler/src/edu/ncsu/csc216/wolf_scheduler/course/Event.java:41-44 | The constructor succeeds iff title, meeting and details checks do, and reports the first failure in that order |
| Events.NewEventAcceptsValid | WolfScheduler/src/edu/ncsu/csc216/wolf_scheduler/course/Event.java:41-44 | Rebuilding any valid event from its own fields gives it back |
| Events.SetMeetingDaysAndTime | WolfScheduler/src/edu/ncsu/csc216/wolf_scheduler/course/Event.java:76-121 | A rejected call leaves the event exactly as it was and reports "Invalid meeting days and times."; an accepted one replaces only the meeting; validity is preserved either way |
| Events.SetEventDetails | WolfScheduler/src/edu/ncsu/csc216/wolf_scheduler/course/Event.java:27-32 | Only null is rejected, with "Invalid event details."; otherwise only the details change and a valid event stays valid |
| Events.ToStringRoundTrip | WolfScheduler/src/edu/ncsu/csc216/wolf_scheduler/course/Event.java:70-74 | Splitting `toString` at commas gives title, days, start, end and details, when title and details hold no comma |
| Dispatch.IsDuplicateCharacterised | WolfScheduler/src/edu/ncsu/csc216/wolf_scheduler/course/Course.java:306-314 | Two activities are duplicates iff both are courses with one name or both are events with one title (Event.java:124-133 is the event half); the relation is symmetric |
| Dispatch.Equals | WolfScheduler/src/edu/ncsu/csc216/wolf_scheduler/course/Course.java:235-246 | Two courses are equal exactly when all their fields agree; two events are equal exactly when they agree on everything but details, since Event inherits Activity.java:220-231; a course never equals an event |
| Dispatch.EqualsIsEquivalence | WolfScheduler/src/edu/ncsu/csc216/wolf_scheduler/course/Activity.java:220-231 | `equals` is reflexive, symmetric and transitive over all activities |
| Dispatch.EventEqualityIgnoresDetails | WolfScheduler/src/edu/ncsu/csc216/wolf_scheduler/course/Activity.java:220-231 | Two "Lunch" events on M 12:00-13:00 with details "a" and "b" are different values yet equal under `equals` |
| Dispatch.EqualImpliesDuplicate | WolfScheduler/src/edu/ncsu/csc216/wolf_scheduler/course/Activity.java:220-231 | Equal activities are always duplicates of each other (same course name or same event title) |
| Dispatch.ConflictSymmetric | WolfScheduler/src/edu/ncsu/csc216/wolf_scheduler/course/Activity.java:239-250 | Between any two valid activities the conflict check gives the same answer in both directions |
| Dispatch.ShortRowProjectsLongRow | WolfScheduler/src/edu/ncsu/csc216/wolf_scheduler/course/Course.java:247-254 | The four-column short row is columns 0, 1, 2 and 5 of the seven-column long row, for both kinds |
| Dispatch.RowsIdentifyKind | WolfScheduler/src/edu/ncsu/csc216/wolf_scheduler/course/Event.java:45-55 | The first short column is empty exactly for events, and the title and meeting string sit in columns 2 and 3 |
| Schedules.NewSchedule | WolfScheduler/src/edu/ncsu/csc216/wolf_scheduler/scheduler/WolfScheduler.java:39-50 | A new scheduler holds the given catalog, an empty schedule and the title "My Schedule" (the standalone WolfScheduler.java:38-49 alike) |
| Scheduler.NewSchedulerInv | WolfScheduler/src/edu/ncsu/csc216/wolf_scheduler/scheduler/WolfScheduler.java:39-50 | A new scheduler over valid courses satisfies the invariant |
| Schedules.FindFirst | WolfScheduler/src/edu/ncsu/csc216/wolf_scheduler/scheduler/WolfScheduler.java:98-105 | The position returned is the first element satisfying the test; none means no element does |
| Schedules.FirstMatch | WolfScheduler/src/edu/ncsu/csc216/wolf_scheduler/scheduler/WolfScheduler.java:98-105 | The list search behind `getCourseFromCatalog` (the standalone WolfScheduler.java:123-130 alike): the first element passing the test, or nothing exactly when no element passes |
| Scheduler.GetCourseFromCatalog | WolfScheduler/src/edu/ncsu/csc216/wolf_scheduler/scheduler/WolfScheduler.java:98-105 | A null name or section finds nothing; otherwise the result is null exactly when no catalog course has both that name and that section, and a found course is the first such entry in catalog order |
| LegacyScheduler.GetCourseFromCatalog | WolfScheduler.java:123-130 | A null name or section finds nothing; otherwise the result is null exactly when no catalog course has both that name and that section, and a found course is the first such entry in catalog order |
| Scheduler.FirstClash | WolfScheduler/src/edu/ncsu/csc216/wolf_scheduler/scheduler/WolfScheduler.java:123-132 | The scan stops at the first scheduled entry that duplicates or conflicts with the newcomer |
| Scheduler.Scan | WolfScheduler/src/edu/ncsu/csc216/wolf_scheduler/scheduler/WolfScheduler.java:123-132 | The scan passes iff no scheduled entry clashes; the first clash decides the message, duplicate before conflict |
| Scheduler.AddCourseToSchedule | WolfScheduler/src/edu/ncsu/csc216/wolf_scheduler/scheduler/WolfScheduler.java:116-136 | Not found gives false and no change; a clash gives the duplicate or conflict message of the first clashing entry and no change; otherwise the catalog course is appended and true returned |
| Scheduler.AddEventToSchedule | WolfScheduler/src/edu/ncsu/csc216/wolf_scheduler/scheduler/WolfScheduler.java:208-221 | An invalid event fails with its constructor's message; a clash fails with the first clash's message; otherwise the event is appended; nothing changes on failure |
| Scheduler.RemoveActivityFromSchedule | WolfScheduler/src/edu/ncsu/csc216/wolf_scheduler/scheduler/WolfScheduler.java:144-151 | An index inside the schedule deletes exactly that entry and keeps the rest in order; any other index gives false and no change |
| Schedules.ResetSchedule | WolfScheduler/src/edu/ncsu/csc216/wolf_scheduler/scheduler/WolfScheduler.java:156-158 | The schedule empties; catalog and title stay (the standalone WolfScheduler.java:218-220 alike) |
| Schedules.SetScheduleTitle | WolfScheduler/src/edu/ncsu/csc216/wolf_scheduler/scheduler/WolfScheduler.java:190-196 | Null is rejected with its message; any other string, "" included, becomes the title and nothing else changes (the standalone WolfScheduler.java:206-213 alike) |
| Scheduler.ShortRows | WolfScheduler/src/edu/ncsu/csc216/wolf_scheduler/scheduler/WolfScheduler.java:56-76 | One short row per entry, in order |
| Scheduler.LongRows | WolfScheduler/src/edu/ncsu/csc216/wolf_scheduler/scheduler/WolfScheduler.java:83-89 | One long row per scheduled entry, in order |
| Scheduler.AppendKeepsInv | WolfScheduler/src/edu/ncsu/csc216/wolf_scheduler/scheduler/WolfScheduler.java:123-134 | Appending an entry that clashes with nothing keeps the pairwise invariant, by symmetry of both tests |
| Scheduler.AddCourseKeepsInv | WolfScheduler/src/edu/ncsu/csc216/wolf_scheduler/scheduler/WolfScheduler.java:116-136 | Adding a course preserves the invariant |
| Scheduler.AddEventKeepsInv | WolfScheduler/src/edu/ncsu/csc216/wolf_scheduler/scheduler/WolfScheduler.java:208-221 | Adding an event preserves the invariant |
| Scheduler.RemoveKeepsInv | WolfScheduler/src/edu/ncsu/csc216/wolf_scheduler/scheduler/WolfScheduler.java:144-151 | Removal preserves the invariant |
| Scheduler.ResetKeepsInv | WolfScheduler/src/edu/ncsu/csc216/wolf_scheduler/scheduler/WolfScheduler.java:156-158 | Reset preserves the invariant |
| Scheduler.SetTitleKeepsInv | WolfScheduler/src/edu/ncsu/csc216/wolf_scheduler/scheduler/WolfScheduler.java:190-196 | Retitling preserves the invariant |
| Scheduler.TouchingCourseRefused | WolfScheduler/src/edu/ncsu/csc216/wolf_scheduler/scheduler/WolfScheduler.java:123-131 | With CSC 216 on MW 10:00-11:00 enrolled, adding CSC 226 on TH 11:00-12:00 fails with the conflict message although the two share no day |
| Scheduler.InvExcludesSharedDayConflicts | WolfScheduler/src/edu/ncsu/csc216/wolf_scheduler/scheduler/WolfScheduler.java:123-134 | No two entries of a schedule the scheduler keeps are in conflict under the corrected, shared-day test either |
| LegacyCourse.CheckMeeting | Course.java:257-314 | The standalone meeting check accepts exactly what the Activity-based Course's check accepts: the sentinel with zero times or non-repeating weekday letters with valid ordered times |
| LegacyCourse.UncheckedSetterBreaksValidity | Course.java:327-343 | The time setters store anything: a valid course given start time 2500 is no longer valid |
| LegacyCourse.NewCourse | Course.java:92-102 | The constructor succeeds iff every field check does, reports the first failure in the order name, title, section, credits, instructor, meeting, and the later unchecked time setters leave a valid course |
| LegacyCourse.NewArrangedCourse | Course.java:114-116 | The six-argument form accepts exactly when name, title, section, credits and instructor pass and the days are "A" or non-repeating MTWHF letters; on success the course is valid and holds the arguments with both times 0; a failure carries the first failing check's message in the order name, title, section, credits, instructor, meeting |
| LegacyCourse.AgreesWithActivityCourse | Course.java:92-102 | The standalone constructor accepts exactly what the Activity-based one accepts and stores the same values |
| LegacyCourse.SetTitle | Course.java:182-187 | Null and "" are rejected; otherwise only the title changes |
| LegacyCourse.SetSection | Course.java:199-209 | Three digits are required; otherwise only the section changes |
| LegacyCourse.SetCredits | Course.java:221-226 | Credits between 1 and 5 are required; otherwise only the credits change |
| LegacyCourse.SetInstructorId | Course.java:238-243 | Null and "" are rejected; otherwise only the instructor changes |
| LegacyCourse.SetMeetingDaysAndTime | Course.java:257-314 | All checks precede the update; on success only days and times change and validity is kept; a failure carries "Invalid meeting days and times." |
| LegacyCourse.Equals | Course.java:372-412 | Field-by-field equality holds iff the two courses are equal |
| LegacyCourse.RenderingAgreesWithActivityCourse | Course.java:418-459 | `toString` and the meeting string equal those of the Activity-based Course with the same fields, so the same hour-0 asymmetry appears |
| LegacyCourse.ToStringRoundTrip | Course.java:418-424 | Splitting `toString` at commas gives the fields back, 6 when arranged and 8 otherwise |
| LegacyScheduler.NewSchedulerInv | WolfScheduler.java:38-49 | A new scheduler over valid courses satisfies the invariant |
| LegacyScheduler.NameScan | WolfScheduler.java:172-176 | The loop throws iff some scheduled course has the requested name |
| LegacyScheduler.AddCourseToSchedule | WolfScheduler.java:166-179 | Not found gives false and no change; a scheduled course of the same name (any section) gives the enrolled message and no change; otherwise the course is appended and true returned |
| LegacyScheduler.OverlappingCoursesBothAccepted | WolfScheduler.java:166-179 | Two courses meeting MW 13:30-14:45 are both enrolled, since meeting times are never compared |
| LegacyScheduler.RemoveCourseFromSchedule | WolfScheduler.java:188-198 | Removes only the first entry matching name and section, keeping the rest in order; without a match gives false and no change |
| LegacyScheduler.ShortRowProjectsFullRow | WolfScheduler.java:56-113 | The three-column row is the first half of the six-column row |
| LegacyScheduler.ShortRows | WolfScheduler.java:56-92 | One name/section/title row per course, in order |
| LegacyScheduler.FullRows | WolfScheduler.java:99-113 | One six-column row per scheduled course, in order, ending with credits, instructor and meeting string |
| LegacyScheduler.AddCourseKeepsInv | WolfScheduler.java:166-179 | Enrollment keeps scheduled names pairwise distinct and every scheduled course in the catalog |
| LegacyScheduler.RemoveKeepsInv | WolfScheduler.java:188-198 | Removal preserves the invariant |
| LegacyScheduler.ResetKeepsInv | WolfScheduler.java:218-220 | Reset preserves the invariant |
| LegacyScheduler.SetTitleKeepsInv | WolfScheduler.java:206-213 | Retitling preserves the invariant |

## Left out

- Loading the catalog and exporting the schedule. These are file I/O in `CourseRecordIO` and `ActivityRecordIO`, which are not part of this model. The catalog is a parameter of `Schedules.NewSchedule`, and `exportSchedule` and the "Cannot find file." error are not modelled.
- `hashCode` in every class. It is `int` overflow arithmetic and does not affect scheduling.
- `equals` is modelled (`Dispatch.Equals`) but nothing in the schedulers calls it: removal goes by index or by name and section, never through `ArrayList.remove(Object)`. The model's own `==` on activities is datatype equality, which unlike `equals` tells apart events that differ only in their details.
- Scheduler.GetCourseFromCatalog: skips a catalog entry that is not a course, where the source's cast would throw `ClassCastException`; the catalog only ever holds courses.
- `Activity.toString`. Both subclasses override it, so it never runs on an object.
- Getters. They return fields, and the datatypes expose those fields directly.
- `Conflict` and `ConflictException`. They hold no logic. A conflict is an `Outcome` failure carrying the default message "Schedule conflict.".
- Object aliasing. Catalog and schedule share mutable Course objects in Java, but the schedulers never mutate entries, so the model uses value semantics.
- `Character.isLetter` and `Character.isDigit`. These are Unicode-wide in Java and are modelled as ASCII letters and digits.
- Java `int` bounds. Times and credits are unbounded integers. Every accepted value is far inside 32 bits.
- For an empty list, the standalone `getCourseCatalog` and `getScheduledCourses` return `new String[0][0]` (WolfScheduler.java:57-58 and 79-80), while `getFullScheduledCourses` has no such branch and returns `new String[0][6]` (WolfScheduler.java:99). The model returns an empty sequence of rows in all three cases, so the column count of an empty result is not represented.
- `LegacyCourse.MeetingString` and `Dispatch` rendering have no contract of their own. Their behaviour is stated through `RenderingAgreesWithActivityCourse`, `ShortRowProjectsLongRow` and `RowsIdentifyKind`.

## Findings

| source | as written | input that shows it | evidently intended | confidence | as-written member | corrected member |
|---|---|---|---|---|---|---|
| WolfScheduler/src/edu/ncsu/csc216/wolf_scheduler/course/Activity.java:244-246 | The test reads `shared && a.start < b.end && a.end > b.start \|\| a.end == b.start \|\| a.start == b.end`. `&&` binds tighter than `\|\|`, so touching endpoints count as a conflict with no shared day | MW 1000-1100 against TH 1100-1200 | A conflict needs a shared day; within it, overlapping or touching intervals conflict | high (not executed) | Meetings.TouchingWithoutSharedDay | Meetings.SharedDayConflictProperties |

The Activity-based scheduler keeps the as-written test, because that is what its enrollment does. `Scheduler.InvExcludesSharedDayConflicts` proves that every schedule the scheduler keeps is also free of shared-day conflicts. `Meetings.AsWrittenVersusSharedDay` proves the only difference between the two tests is touching endpoints on disjoint days. `Scheduler.TouchingCourseRefused` shows the effect on enrollment.

/** The meeting part of an Activity: day letters plus start and end times,
    or the sentinel "A" for an arranged activity. Validation, the
    "meeting string" and the conflict test all live here. */
module Meetings {

  import opened Results
  import opened Text
  import opened Clock

  /** The day string of an arranged activity. */
  const ARRANGED := "A"
  /** The letters Activity's day switch counts. */
  const WEEK := "MTWHFSU"
  /** The letters a Course may meet on. */
  const WEEKDAYS := "MTWHF"
  const MEETING_ERROR := "Invalid meeting days and times."
  /** The default message of a conflict exception. */
  const CONFLICT_MESSAGE := "Schedule conflict."

  datatype Meeting = Meeting(days: string, start: int, end: int)

  predicate Distinct(s: string) {
    forall i, j :: 0 <= i < j < |s| ==> s[i] != s[j]
  }

  predicate DrawnFrom(s: string, alphabet: string) {
    forall i :: 0 <= i < |s| ==> s[i] in alphabet
  }

  /** The meeting invariant of an activity whose days come from `alphabet`:
      arranged with zero times, or a non-empty set of day letters with
      wall-clock bounds in order. */
  predicate WellFormed(m: Meeting, alphabet: string) {
    if m.days == ARRANGED then m.start == 0 && m.end == 0
    else
      && |m.days| > 0
      && DrawnFrom(m.days, alphabet)
      && Distinct(m.days)
      && ClockTime(m.start)
      && ClockTime(m.end)
      && m.start <= m.end
  }

  lemma WeekdaysWithinWeek(m: Meeting)
    requires WellFormed(m, WEEKDAYS)
    ensures WellFormed(m, WEEK)
  {
  }

  /** Appending a letter keeps a string repeat-free exactly when the
      letter does not occur in it yet. */
  lemma DistinctSnoc(s: string, c: char)
    ensures Distinct(s + [c]) <==> Distinct(s) && multiset(s)[c] == 0
  {
    var t := s + [c];
    assert forall p :: 0 <= p < |s| ==> t[p] == s[p];
    if Distinct(s) && c !in s {
      forall p, q | 0 <= p < q < |t| ensures t[p] != t[q] {
        if q == |s| {
          assert t[p] == s[p];
        } else {
          assert t[p] == s[p] && t[q] == s[q];
        }
      }
    }
    if c in s {
      var p :| 0 <= p < |s| && s[p] == c;
      assert t[p] == c && t[|s|] == c;
    }
  }

  /** Counting one more letter: the counter of that letter goes up by
      one, and the prefix stays repeat-free exactly when no counter
      exceeds one. */
  lemma CountStep(prefix: string, alphabet: string, counts: seq<int>, k: nat, next: seq<int>)
    requires Distinct(alphabet) && |counts| == |alphabet| && k < |alphabet|
    requires next == counts[k := counts[k] + 1]
    requires forall j :: 0 <= j < |alphabet| ==> counts[j] == multiset(prefix)[alphabet[j]]
    requires Distinct(prefix) <==> forall j :: 0 <= j < |alphabet| ==> counts[j] <= 1
    ensures forall j :: 0 <= j < |alphabet| ==> next[j] == multiset(prefix + [alphabet[k]])[alphabet[j]]
    ensures Distinct(prefix + [alphabet[k]]) <==> forall j :: 0 <= j < |alphabet| ==> next[j] <= 1
  {
    DistinctSnoc(prefix, alphabet[k]);
    forall j | 0 <= j < |alphabet|
      ensures next[j] == multiset(prefix + [alphabet[k]])[alphabet[j]]
    {
      assert multiset(prefix + [alphabet[k]]) == multiset(prefix) + multiset{alphabet[k]};
      if j != k {
        assert alphabet[j] != alphabet[k];
      }
    }
  }

  /** The switch loop: one counter per letter of `alphabet`, and a letter
      outside it throws at once (`ok` false). */
  method TallyDays(days: string, alphabet: string) returns (ok: bool, counts: seq<int>)
    requires Distinct(alphabet)
    ensures ok <==> DrawnFrom(days, alphabet)
    ensures ok ==> |counts| == |alphabet| && (Distinct(days) <==> forall k :: 0 <= k < |counts| ==> counts[k] <= 1)
  {
    counts := seq(|alphabet|, _ => 0);
    var i := 0;
    while i < |days|
      invariant 0 <= i <= |days|
      invariant |counts| == |alphabet|
      invariant DrawnFrom(days[..i], alphabet)
      invariant forall k :: 0 <= k < |alphabet| ==> counts[k] == multiset(days[..i])[alphabet[k]]
      invariant Distinct(days[..i]) <==> forall k :: 0 <= k < |alphabet| ==> counts[k] <= 1
    {
      var k := IndexOf(alphabet, days[i]);
      if k == |alphabet| {
        return false, counts;
      }
      assert days[..i + 1] == days[..i] + [alphabet[k]];
      var next := counts[k := counts[k] + 1];
      CountStep(days[..i], alphabet, counts, k, next);
      counts := next;
      i := i + 1;
    }
    assert days[..i] == days;
    return true, counts;
  }

  /** The loop over the counters: any counter above one throws. */
  method AtMostOnce(counts: seq<int>) returns (ok: bool)
    ensures ok <==> forall k :: 0 <= k < |counts| ==> counts[k] <= 1
  {
    var j := 0;
    while j < |counts|
      invariant 0 <= j <= |counts|
      invariant forall k :: 0 <= k < j ==> counts[k] <= 1
    {
      if counts[j] > 1 {
        return false;
      }
      j := j + 1;
    }
    return true;
  }

  /** The counting loops behind the "no repeated day" rule: a letter
      outside `alphabet` is rejected at once, and afterwards any counter
      above one is rejected. `false` stands for the exception. */
  method CountDays(days: string, alphabet: string) returns (ok: bool)
    requires Distinct(alphabet)
    ensures ok <==> DrawnFrom(days, alphabet) && Distinct(days)
  {
    var drawn, counts := TallyDays(days, alphabet);
    if !drawn {
      return false;
    }
    ok := AtMostOnce(counts);
  }

  /** Activity's meeting validation: the arranged sentinel only with zero
      times, otherwise non-repeating letters of `WEEK` and two valid times
      in order. All checks precede the update, so an error changes nothing. */
  function ActivityMeeting(days: JString, start: int, end: int): (r: Result<Meeting>)
    ensures r.Ok? <==> days.Some? && WellFormed(Meeting(days.value, start, end), WEEK)
    ensures r.Ok? ==> r.value == Meeting(days.value, start, end)
    ensures r.Err? ==> r.msg == MEETING_ERROR
  {
    ValidTimeIsClockTime(start);
    ValidTimeIsClockTime(end);
    if days.None? || |days.value| == 0 then Err(MEETING_ERROR)
    else if days.value == ARRANGED then
      if start != 0 || end != 0 then Err(MEETING_ERROR) else Ok(Meeting(ARRANGED, 0, 0))
    else if !DrawnFrom(days.value, WEEK) || !Distinct(days.value) then Err(MEETING_ERROR)
    else if !ValidTime(start) || !ValidTime(end) then Err(MEETING_ERROR)
    else if start > end then Err(MEETING_ERROR)
    else Ok(Meeting(days.value, start, end))
  }

  /** "Arranged", or the days, a space and the two 12-hour bounds joined
      by `-`. */
  function MeetingString(m: Meeting): string {
    if m.days == ARRANGED then "Arranged"
    else m.days + " " + ClockString(m.start, false) + "-" + ClockString(m.end, true)
  }

  /** The hhmm time a printed hour, minute and period stand for. */
  function ClockValue(hs: string, ms: string, p: string, isEnd: bool): int
    requires AllDigits(hs) && AllDigits(ms)
  {
    var h12, pm := ParseNat(hs), p == "PM";
    (if isEnd then EndHourFrom12(h12, pm) else StartHourFrom12(h12, pm)) * 100 + ParseNat(ms)
  }

  /** Reads one printed bound `h:mmAM` back into hhmm form. */
  function ParseClock(s: string, isEnd: bool): Option<int> {
    var k := IndexOf(s, ':');
    if k == 0 || k + 5 != |s| then None
    else if !AllDigits(s[..k]) || !AllDigits(s[k + 1..k + 3]) || (s[k + 3..] != "AM" && s[k + 3..] != "PM") then None
    else Some(ClockValue(s[..k], s[k + 1..k + 3], s[k + 3..], isEnd))
  }

  /** Reads the two printed bounds `h:mmAM-h:mmPM` of a meeting on
      `days`. */
  function ParseBounds(days: string, rest: string): Option<Meeting> {
    var d := IndexOf(rest, '-');
    if d == |rest| then None
    else
      match (ParseClock(rest[..d], false), ParseClock(rest[d + 1..], true))
      case (Some(a), Some(b)) => Some(Meeting(days, a, b))
      case _ => None
  }

  /** Reads a meeting string back into the meeting it describes. */
  function ParseMeetingString(s: string): Option<Meeting> {
    if s == "Arranged" then Some(Meeting(ARRANGED, 0, 0))
    else
      var sp := IndexOf(s, ' ');
      if sp == |s| then None else ParseBounds(s[..sp], s[sp + 1..])
  }

  /** A printed bound is its hour digits, `:`, two minute digits and the
      period, and holds neither a space nor a dash. */
  lemma ClockStringShape(t: int, isEnd: bool) returns (hs: string, ms: string, p: string)
    requires ClockTime(t)
    ensures ClockString(t, isEnd) == hs + ":" + ms + p
    ensures AllDigits(hs) && |hs| > 0 && AllDigits(ms) && |ms| == 2 && (p == "AM" || p == "PM")
    ensures ParseNat(ms) == Minute(t)
    ensures (if isEnd then EndHourFrom12(ParseNat(hs), p == "PM") else StartHourFrom12(ParseNat(hs), p == "PM")) == Hour(t)
    ensures ' ' !in ClockString(t, isEnd) && '-' !in ClockString(t, isEnd)
  {
    var h, mi := Hour(t), Minute(t);
    SplitOfClockTime(t);
    HourRoundTrip(h);
    MinuteStringRoundTrip(mi);
    var h12 := if isEnd then EndClockHour(h) else StartClockHour(h);
    hs, ms, p := NatToString(h12), MinuteString(mi), Period(h);
    ParseNatToString(h12);
    DigitsLack(hs, ' ');
    DigitsLack(hs, '-');
    DigitsLack(ms, ' ');
    DigitsLack(ms, '-');
  }

  lemma ParseClockParts(hs: string, ms: string, p: string, isEnd: bool)
    requires AllDigits(hs) && |hs| > 0 && AllDigits(ms) && |ms| == 2 && (p == "AM" || p == "PM")
    ensures ParseClock(hs + ":" + ms + p, isEnd) == Some(ClockValue(hs, ms, p, isEnd))
  {
    var s := hs + ":" + ms + p;
    assert s == hs + (":" + ms + p);
    DigitsLack(hs, ':');
    IndexOfAfter(hs, ":" + ms + p, ':');
    var k := |hs|;
    assert s[..k] == hs;
    assert s[k + 1..k + 3] == ms;
    assert s[k + 3..] == p;
  }

  lemma ClockStringRoundTrip(t: int, isEnd: bool)
    requires ClockTime(t)
    ensures ParseClock(ClockString(t, isEnd), isEnd) == Some(t)
  {
    var hs, ms, p := ClockStringShape(t, isEnd);
    SplitOfClockTime(t);
    ParseClockParts(hs, ms, p, isEnd);
  }

  /** Reading back `days + " " + c1 + "-" + c2` splits at the first space
      and the first dash. */
  lemma ParseMeetingParts(days: string, c1: string, c2: string)
    requires |days| > 0 && days[0] != 'A' && ' ' !in days && '-' !in c1
    ensures ParseMeetingString(days + " " + c1 + "-" + c2)
      == match (ParseClock(c1, false), ParseClock(c2, true))
         case (Some(a), Some(b)) => Some(Meeting(days, a, b))
         case _ => None
  {
    var s := days + " " + c1 + "-" + c2;
    var rest := c1 + "-" + c2;
    assert s == days + [' '] + rest;
    assert s[0] == days[0];
    CutAt(days, rest, ' ');
    assert ParseMeetingString(s) == ParseBounds(days, rest);
    CutAt(c1, c2, '-');
  }

  lemma DayLettersArePlain(days: string)
    requires |days| > 0 && DrawnFrom(days, WEEK)
    ensures ' ' !in days && days[0] != 'A'
  {
    assert days[0] in WEEK;
    forall i | 0 <= i < |days| ensures days[i] != ' ' {
      assert days[i] in WEEK;
    }
  }

  /** The meeting string determines the meeting: reading it back gives
      the days and both times again. */
  lemma MeetingStringRoundTrip(m: Meeting)
    requires WellFormed(m, WEEK)
    ensures ParseMeetingString(MeetingString(m)) == Some(m)
  {
    if m.days != ARRANGED {
      var c1, c2 := ClockString(m.start, false), ClockString(m.end, true);
      var _, _, _ := ClockStringShape(m.start, false);
      ClockStringRoundTrip(m.start, false);
      ClockStringRoundTrip(m.end, true);
      DayLettersArePlain(m.days);
      ParseMeetingParts(m.days, c1, c2);
      assert MeetingString(m) == m.days + " " + c1 + "-" + c2;
    }
  }

  // Conflict detection

  /** The loop of the conflict check over this activity's day letters
      `days`. The test in its body parses as
      `(shared && a.start < b.end && a.end > b.start) || a.end == b.start || a.start == b.end`,
      because `&&` binds tighter than `||`; the first hit throws. */
  function ConflictScan(days: string, a: Meeting, b: Meeting): bool {
    if days == [] then false
    else
      || (days[0] in b.days && a.start < b.end && a.end > b.start)
      || a.end == b.start
      || a.start == b.end
      || ConflictScan(days[1..], a, b)
  }

  /** `a.checkConflict(b)` as written: never when either side is arranged,
      otherwise the scan over `a`'s days. */
  predicate ConflictsAsWritten(a: Meeting, b: Meeting) {
    if a.days == ARRANGED || b.days == ARRANGED then false else ConflictScan(a.days, a, b)
  }

  predicate SharesDay(a: Meeting, b: Meeting) {
    exists i :: 0 <= i < |a.days| && a.days[i] in b.days
  }

  /** The closed intervals [start, end] of the two meetings meet. */
  predicate Overlaps(a: Meeting, b: Meeting) {
    a.start <= b.end && b.start <= a.end
  }

  /** One interval ends exactly where the other starts. */
  predicate Touches(a: Meeting, b: Meeting) {
    a.end == b.start || a.start == b.end
  }

  /** The conflict the check is meant to detect: two timed meetings that
      share a day and whose closed intervals meet, touching endpoints
      included. */
  predicate SharedDayConflict(a: Meeting, b: Meeting) {
    a.days != ARRANGED && b.days != ARRANGED && SharesDay(a, b) && Overlaps(a, b)
  }

  lemma {:induction false} ConflictScanClosedForm(days: string, a: Meeting, b: Meeting)
    ensures ConflictScan(days, a, b) <==>
      || (exists i :: 0 <= i < |days| && days[i] in b.days && a.start < b.end && a.end > b.start)
      || (|days| > 0 && Touches(a, b))
    decreases |days|
  {
    if days != [] {
      ConflictScanClosedForm(days[1..], a, b);
      if exists i :: 0 <= i < |days| && days[i] in b.days && a.start < b.end && a.end > b.start {
        var i :| 0 <= i < |days| && days[i] in b.days && a.start < b.end && a.end > b.start;
        if i > 0 {
          assert days[1..][i - 1] == days[i];
        }
      }
      if exists i :: 0 <= i < |days[1..]| && days[1..][i] in b.days && a.start < b.end && a.end > b.start {
        var i :| 0 <= i < |days[1..]| && days[1..][i] in b.days && a.start < b.end && a.end > b.start;
        assert days[i + 1] == days[1..][i];
      }
    }
  }

  /** As written, a conflict between timed meetings is a strict overlap on
      a shared day, or touching endpoints on any days at all. */
  lemma ConflictsAsWrittenClosedForm(a: Meeting, b: Meeting)
    requires |a.days| > 0
    ensures ConflictsAsWritten(a, b) <==>
      a.days != ARRANGED && b.days != ARRANGED
      && ((SharesDay(a, b) && a.start < b.end && a.end > b.start) || Touches(a, b))
  {
    ConflictScanClosedForm(a.days, a, b);
  }

  lemma SharesDaySymmetric(a: Meeting, b: Meeting)
    ensures SharesDay(a, b) <==> SharesDay(b, a)
  {
    if SharesDay(a, b) {
      var i :| 0 <= i < |a.days| && a.days[i] in b.days;
      var j :| 0 <= j < |b.days| && b.days[j] == a.days[i];
    }
    if SharesDay(b, a) {
      var i :| 0 <= i < |b.days| && b.days[i] in a.days;
      var j :| 0 <= j < |a.days| && a.days[j] == b.days[i];
    }
  }

  /** The check as written is symmetric for meetings with at least one
      day letter, which every validated meeting has. */
  lemma ConflictsAsWrittenSymmetric(a: Meeting, b: Meeting)
    requires |a.days| > 0 && |b.days| > 0
    ensures ConflictsAsWritten(a, b) <==> ConflictsAsWritten(b, a)
  {
    ConflictsAsWrittenClosedForm(a, b);
    ConflictsAsWrittenClosedForm(b, a);
    SharesDaySymmetric(a, b);
  }

  /** An arranged meeting conflicts with nothing, in either direction. */
  lemma ArrangedNeverConflicts(a: Meeting, b: Meeting)
    requires a.days == ARRANGED
    ensures !ConflictsAsWritten(a, b) && !ConflictsAsWritten(b, a)
    ensures !SharedDayConflict(a, b) && !SharedDayConflict(b, a)
  {
  }

  /** For validated meetings the check as written detects every conflict
      the shared-day rule does, and additionally flags touching endpoints
      whether or not a day is shared: that is the only difference. */
  lemma AsWrittenVersusSharedDay(a: Meeting, b: Meeting)
    requires WellFormed(a, WEEK) && WellFormed(b, WEEK)
    ensures ConflictsAsWritten(a, b) <==>
      SharedDayConflict(a, b) || (a.days != ARRANGED && b.days != ARRANGED && Touches(a, b))
  {
    ConflictsAsWrittenClosedForm(a, b);
  }

  /** A Monday-Wednesday 10:00-11:00 meeting and a Tuesday-Thursday
      11:00-12:00 meeting share no day, yet the check as written reports
      a conflict between them. */
  lemma TouchingWithoutSharedDay()
    ensures WellFormed(Meeting("MW", 1000, 1100), WEEKDAYS)
    ensures WellFormed(Meeting("TH", 1100, 1200), WEEKDAYS)
    ensures ConflictsAsWritten(Meeting("MW", 1000, 1100), Meeting("TH", 1100, 1200))
    ensures !SharedDayConflict(Meeting("MW", 1000, 1100), Meeting("TH", 1100, 1200))
  {
    var a, b := Meeting("MW", 1000, 1100), Meeting("TH", 1100, 1200);
    assert a.days[0] !in b.days && a.days[1] !in b.days;
    assert ConflictScan(a.days, a, b);
  }

  /** The shared-day rule is symmetric, flags touching endpoints on a
      shared day, and never fires without a shared day. */
  lemma SharedDayConflictProperties(a: Meeting, b: Meeting)
    ensures SharedDayConflict(a, b) <==> SharedDayConflict(b, a)
    ensures a.days != ARRANGED && b.days != ARRANGED && SharesDay(a, b) && a.start <= a.end && b.start <= b.end && Touches(a, b)
      ==> SharedDayConflict(a, b)
    ensures !SharesDay(a, b) ==> !SharedDayConflict(a, b)
  {
    SharesDaySymmetric(a, b);
  }
}

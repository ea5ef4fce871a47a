/** Times of day encoded as `hour * 100 + minute`, with Java's integer
    division, and their 12-hour rendering. */
module Clock {

  import opened Text

  const UPPER_HOUR := 24
  const UPPER_MINUTE := 60

  /** Java's `a / b` for a positive divisor: truncates toward zero. */
  function JavaDiv(a: int, b: int): int
    requires b > 0
  {
    if a >= 0 then a / b else -((-a) / b)
  }

  /** Java's `a % b` for a positive divisor: takes the sign of `a`. */
  function JavaRem(a: int, b: int): int
    requires b > 0
  {
    a - b * JavaDiv(a, b)
  }

  function Hour(t: int): int {
    JavaDiv(t, 100)
  }

  function Minute(t: int): int {
    JavaRem(t, 100)
  }

  /** The range check applied to each bound of a meeting: hour in [0,24)
      and minute in [0,60), both computed with Java's operators. */
  predicate ValidTime(t: int) {
    0 <= Hour(t) < UPPER_HOUR && 0 <= Minute(t) < UPPER_MINUTE
  }

  /** A wall-clock time written as hhmm, from 0000 to 2359. */
  predicate ClockTime(t: int) {
    0 <= t <= 2359 && t % 100 < 60
  }

  /** The Java range check accepts exactly the wall-clock times: every
      negative value fails it, whatever the rounding of `/` and `%`. */
  lemma ValidTimeIsClockTime(t: int)
    ensures ValidTime(t) <==> ClockTime(t)
  {
    if t < 0 {
      if t <= -100 {
        assert (-t) / 100 >= 1;
        assert Hour(t) < 0;
      } else {
        assert (-t) / 100 == 0;
        assert Minute(t) == t;
      }
    } else {
      assert t == 100 * (t / 100) + t % 100;
    }
  }

  /** On a non-negative time the Java split is the Euclidean one. */
  lemma SplitOfClockTime(t: int)
    requires t >= 0
    ensures Hour(t) == t / 100 && Minute(t) == t % 100
    ensures t == 100 * Hour(t) + Minute(t)
  {
  }

  /** The hour printed for a start time: hours past noon drop by 12 and
      hour 0 stays 0. */
  function StartClockHour(h: int): int {
    if h > 12 then h - 12 else h
  }

  /** The hour printed for an end time: hours past noon drop by 12 and
      hour 0 prints as 12. */
  function EndClockHour(h: int): int {
    if h > 12 then h - 12 else if h == 0 then 12 else h
  }

  function Period(h: int): string {
    if h >= 12 then "PM" else "AM"
  }

  /** Minutes below ten get a leading `0`. */
  function MinuteString(m: int): string {
    if m < 10 then "0" + IntToString(m) else IntToString(m)
  }

  /** `h:mmAM` or `h:mmPM` for one bound of a meeting. */
  function ClockString(t: int, isEnd: bool): string {
    var h := Hour(t);
    IntToString(if isEnd then EndClockHour(h) else StartClockHour(h)) + ":" + MinuteString(Minute(t)) + Period(h)
  }

  /** The 24-hour hour a printed start hour stands for. */
  function StartHourFrom12(h12: int, pm: bool): int {
    if pm && h12 != 12 then h12 + 12 else h12
  }

  /** The 24-hour hour a printed end hour stands for. */
  function EndHourFrom12(h12: int, pm: bool): int {
    if pm then (if h12 == 12 then 12 else h12 + 12)
    else (if h12 == 12 then 0 else h12)
  }

  /** Every 24-hour hour survives the 12-hour rendering of either bound. */
  lemma HourRoundTrip(h: int)
    requires 0 <= h < UPPER_HOUR
    ensures 0 <= StartClockHour(h) <= 12 && StartHourFrom12(StartClockHour(h), h >= 12) == h
    ensures 1 <= EndClockHour(h) <= 12 && EndHourFrom12(EndClockHour(h), h >= 12) == h
  {
  }

  /** A minute in range prints as exactly two digits that read back as it. */
  lemma MinuteStringRoundTrip(m: int)
    requires 0 <= m < UPPER_MINUTE
    ensures |MinuteString(m)| == 2 && AllDigits(MinuteString(m))
    ensures ParseNat(MinuteString(m)) == m
  {
    var s := MinuteString(m);
    ParseNatToString(m);
    if m < 10 {
      assert s == ['0', DigitChar(m)];
      assert s[..1] == "0";
    } else {
      assert NatToString(m) == NatToString(m / 10) + [DigitChar(m % 10)];
    }
  }

  /** Half past midnight prints as `0:30AM` when it starts a meeting and
      as `12:30AM` when it ends one. */
  lemma MidnightHourAsymmetry()
    ensures ClockString(30, false) == "0:30AM"
    ensures ClockString(30, true) == "12:30AM"
  {
    assert NatToString(3) == "3" && NatToString(0) == "0";
    assert NatToString(30) == NatToString(3) + "0";
    assert NatToString(1) == "1" && NatToString(2) == "2";
    assert NatToString(12) == NatToString(1) + "2";
  }
}

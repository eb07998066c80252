/**
 The search finds the least matching second.

 The argument is the one the comments of `Next` appeal to: a step skips only seconds whose
 offending field cannot match, and once a field has been incremented everything below the first
 field that does not match is at its minimum, so no step starts in the middle of a period.
 */
module NextCorrect {
  import opened Basics
  import opened Calendar
  import opened Words
  import opened SpecSchedules

  /** `r` is the first match in `from .. end`, or `None` when there is none. */
  ghost predicate IsFirstMatch(s: SpecSchedule, from: Clock, end: Clock, r: Option<Clock>) {
    match r
    case None => forall x :: from <= x < end ==> !Matches(s, x)
    case Some(c) => from <= c < end && Matches(s, c) && forall x :: from <= x < c ==> !Matches(s, x)
  }

  /** Below the first field that does not match, every field is at its minimum. */
  predicate Aligned(s: SpecSchedule, t: Clock) {
    && (MonthOk(s, t) || t == StartOfMonth(t))
    && (DayMatches(s, t) || t % DAY == 0)
    && (HourOk(s, t) || t % HOUR == 0)
    && (MinuteOk(s, t) || t % MINUTE == 0)
  }

  lemma Multiples(t: nat)
    ensures t % 86400 == 0 ==> t % 3600 == 0
    ensures t % 3600 == 0 ==> t % 60 == 0
  {
    if t % 86400 == 0 {
      assert t == t / 86400 * 24 * 3600;
    }
    if t % 3600 == 0 {
      assert t == t / 3600 * 60 * 60;
    }
  }

  lemma FirstOfMonthAligned(s: SpecSchedule, t: Clock)
    requires t == StartOfMonth(t)
    ensures Aligned(s, t)
  {
    StartOfMonthIs(t);
    assert t % DAY == 0;
    Multiples(t);
  }

  /** At the first second of the day after a day in an allowed month. */
  lemma DayBoundary(s: SpecSchedule, t: Clock, u: Clock)
    requires MonthOk(s, t) && u / DAY == t / DAY + 1 && u % DAY == 0
    ensures Aligned(s, u)
  {
    Multiples(u);
    if u / DAY == NextMonthDay(t / DAY) {
      FirstDayOfNextMonth(t / DAY);
      StartOfMonthIs(u);
      DayNumberOfDate(u / DAY);
    } else {
      SameMonth(t / DAY, u / DAY);
    }
  }

  // ---------- what each step skips, and where it lands ----------

  lemma MonthJump(s: SpecSchedule, t: Clock, added: bool)
    requires !MonthOk(s, t) && (added ==> Aligned(s, t))
    ensures var u := MonthStep(t, added);
            u == NextMonth(t) && Aligned(s, u) && forall x :: t <= x < u ==> !Matches(s, x)
  {
    var u := MonthStep(t, added);
    AddMonthFromStart(t);
    assert u / DAY == NextMonthDay(t / DAY);
    FirstDayOfNextMonth(t / DAY);
    StartOfMonthIs(u);
    DayNumberOfDate(u / DAY);
    FirstOfMonthAligned(s, u);
    forall x | t <= x < u ensures !Matches(s, x) {
      DayEnds(x, NextMonthDay(t / DAY));
      SameMonth(t / DAY, x / DAY);
    }
  }

  lemma DayJump(s: SpecSchedule, t: Clock, added: bool)
    requires MonthOk(s, t) && !DayMatches(s, t) && (added ==> Aligned(s, t))
    ensures var u := DayStep(t, added);
            u == NextDay(t) && Aligned(s, u) && forall x :: t <= x < u ==> !Matches(s, x)
  {
    var u := DayStep(t, added);
    AddDayIs(t);
    StartOfDayIs(t);
    AddDayIs(StartOfDay(t));
    DayBoundary(s, t, u);
    forall x | t <= x < u ensures !Matches(s, x) {
      assert x / DAY == t / DAY;
    }
  }

  lemma HourJump(s: SpecSchedule, off: int, t: Clock, added: bool)
    requires off % HOUR == 0
    requires MonthOk(s, t) && DayMatches(s, t) && !HourOk(s, t) && (added ==> Aligned(s, t))
    ensures var u := HourStep(off, t, added);
            u == NextHour(t) && Aligned(s, u) && forall x :: t <= x < u ==> !Matches(s, x)
  {
    hide Search, MonthOk, DayMatches;
    var u := HourStep(off, t, added);
    TruncateInRange(off, t);
    assert u == NextHour(t);
    Multiples(u);
    DayOfHour(t);
    DayOfHour(u);
    if u / DAY != t / DAY {
      DayBoundary(s, t, u);
    } else {
      SameDay(s, t, u);
    }
    forall x | t <= x < u ensures !Matches(s, x) {
      SameHour(t, x);
    }
  }

  lemma SameDay(s: SpecSchedule, t: Clock, x: Clock)
    requires x / DAY == t / DAY
    ensures MonthOk(s, x) == MonthOk(s, t) && DayMatches(s, x) == DayMatches(s, t)
  {}

  lemma MinuteJump(s: SpecSchedule, off: int, t: Clock, added: bool)
    requires off % HOUR == 0
    requires MonthOk(s, t) && DayMatches(s, t) && HourOk(s, t) && !MinuteOk(s, t)
    requires added ==> Aligned(s, t)
    ensures var u := MinuteStep(off, t, added);
            u == NextMinute(t) && Aligned(s, u) && forall x :: t <= x < u ==> !Matches(s, x)
  {
    hide Search, MonthOk, DayMatches;
    var u := MinuteStep(off, t, added);
    TruncateInRange(off, t);
    assert u == NextMinute(t);
    NextUnit(s, t, u);
    forall x | t <= x < u ensures !Matches(s, x) {
      SameMinute(t, x);
    }
  }

  lemma SecondJump(s: SpecSchedule, off: int, t: Clock, added: bool)
    requires off % HOUR == 0
    requires MonthOk(s, t) && DayMatches(s, t) && HourOk(s, t) && MinuteOk(s, t) && !SecondOk(s, t)
    ensures var u := SecondStep(off, t, added); u == t + 1 && Aligned(s, u) && !Matches(s, t)
  {
    hide Search, MonthOk, DayMatches;
    var u := SecondStep(off, t, added);
    TruncateInRange(off, t);
    if u / MINUTE == t / MINUTE {
      SameMinute(t, u);
      SameDay(s, t, u);
    } else {
      assert u % MINUTE == 0;
      NextUnit(s, t, u);
    }
  }

  /** At the first second of the minute after one in an allowed hour, day and month. */
  lemma NextUnit(s: SpecSchedule, t: Clock, u: Clock)
    requires MonthOk(s, t) && DayMatches(s, t) && HourOk(s, t) && u == NextMinute(t)
    ensures Aligned(s, u)
  {
    hide Search, MonthOk, DayMatches;
    HourOfMinute(t);
    HourOfMinute(u);
    DayOfHour(t);
    DayOfHour(u);
    if u / HOUR == t / HOUR {
      SameHour(t, u);
      SameDay(s, t, u);
    } else if u / DAY == t / DAY {
      SameDay(s, t, u);
    } else {
      DayBoundary(s, t, u);
    }
  }

  // ---------- the search is a search for the first match ----------

  lemma Skip(s: SpecSchedule, t: Clock, u: Clock, end: Clock, r: Option<Clock>)
    requires t <= u && IsFirstMatch(s, u, end, r) && forall x :: t <= x < u ==> !Matches(s, x)
    ensures IsFirstMatch(s, t, end, r)
  {}

  lemma {:induction false} SearchIsFirstMatch(s: SpecSchedule, off: int, t: Clock, added: bool, limit: nat)
    requires off % HOUR == 0 && limit >= 1 && (added ==> Aligned(s, t))
    ensures IsFirstMatch(s, t, EndOfYear(limit), Search(s, off, t, added, limit))
    decreases EndOfYear(limit) - t
  {
    hide Aligned, MonthStep, DayStep, HourStep, MinuteStep, SecondStep, Year;
    hide MonthOk, DayMatches, HourOk, MinuteOk, SecondOk;
    YearBefore(t, limit);
    StepsAdvance(off, t, added);
    if Year(t) <= limit && !Matches(s, t) {
      var u;
      if !MonthOk(s, t) {
        u := MonthStep(t, added);
        MonthJump(s, t, added);
      } else if !DayMatches(s, t) {
        u := DayStep(t, added);
        DayJump(s, t, added);
      } else if !HourOk(s, t) {
        u := HourStep(off, t, added);
        HourJump(s, off, t, added);
      } else if !MinuteOk(s, t) {
        u := MinuteStep(off, t, added);
        MinuteJump(s, off, t, added);
      } else {
        u := SecondStep(off, t, added);
        SecondJump(s, off, t, added);
      }
      SearchIsFirstMatch(s, off, u, true, limit);
      Skip(s, t, u, EndOfYear(limit), Search(s, off, u, true, limit));
    }
  }

  // ---------- instants ----------

  /** Instant `x`, in nanoseconds, is a whole second that the schedule allows. */
  predicate Fires(s: SpecSchedule, off: int, x: int) {
    x % NANOS == 0 && x / NANOS + off >= 0 && Matches(s, x / NANOS + off)
  }

  /** The end of the fifth year after the upcoming second's. */
  function Horizon(off: int, t: nat): int
    requires InCalendar(off, t)
  {
    (EndOfYear(Year(UpcomingSecond(off, t)) + 5) - off) * NANOS
  }

  /** `r` is the least firing instant after `t`; it is zero exactly when there is none before the horizon. */
  ghost predicate IsNext(s: SpecSchedule, off: int, t: nat, r: nat)
    requires InCalendar(off, t)
  {
    && (r == 0 ==> forall x :: t < x < Horizon(off, t) ==> !Fires(s, off, x))
    && (r != 0 ==> t < r < Horizon(off, t) && Fires(s, off, r) && forall x :: t < x < r ==> !Fires(s, off, x))
  }

  lemma WholeSecond(off: int, t: nat, x: int, c: int)
    requires x % NANOS == 0 && c == x / NANOS + off
    ensures x == (c - off) * NANOS
    ensures t < x <==> UpcomingSecond(off, t) <= c
  {}

  lemma NextTimeIsNext(s: SpecSchedule, off: int, t: nat)
    requires off % HOUR == 0 && InCalendar(off, t)
    ensures IsNext(s, off, t, NextTime(s, off, t))
  {
    hide Search, Matches, Year, EndOfYear;
    var u := UpcomingSecond(off, t);
    var limit := Year(u) + 5;
    var r := NextTime(s, off, t);
    SearchIsFirstMatch(s, off, u, false, limit);
    if r != 0 {
      WholeSecond(off, t, r, r / NANOS + off);
    }
    forall x | t < x < Horizon(off, t) && (r == 0 || x < r) ensures !Fires(s, off, x) {
      if x % NANOS == 0 {
        WholeSecond(off, t, x, x / NANOS + off);
      }
    }
  }

  // ---------- other offsets ----------

  const EVERY_DAY: Word := set i: Position | 1 <= i <= 31 || i == 63
  const EVERY_MONTH: Word := set i: Position | 1 <= i <= 12
  const EVERY_WEEKDAY: Word := set i: Position | i <= 6 || i == 63

  /** "0 0 1 * * *": every night at one. */
  const AT_ONE := SpecSchedule({0}, {0}, {1}, EVERY_DAY, EVERY_MONTH, EVERY_WEEKDAY)

  lemma AtOneMatches(t: Clock)
    ensures MonthOk(AT_ONE, t) && DayMatches(AT_ONE, t)
    ensures HourOk(AT_ONE, t) <==> Hour(t) == 1
    ensures Hour(t) == 1 && Minute(t) == 0 && Second(t) == 0 ==> Matches(AT_ONE, t)
  {
    TestIsMember(AT_ONE.month, Month(t));
    TestIsMember(AT_ONE.dom, Day(t));
    TestIsMember(AT_ONE.dow, Weekday(t));
    TestIsMember(AT_ONE.hour, Hour(t));
    TestIsMember(AT_ONE.minute, Minute(t));
    TestIsMember(AT_ONE.second, Second(t));
  }

  /** One o'clock on the day of `u`. */
  function OneOClock(u: Clock): Clock { u / DAY * DAY + HOUR }

  /** From the first hour of a day, rounding down in absolute time and adding hours steps over one o'clock. */
  lemma StepsOverOne(off: int, u: Clock)
    requires off % HOUR != 0 && InRange(off, u) && u % DAY < HOUR
    ensures var v := HourStep(off, u, false);
      && u < v != OneOClock(u) && (v < OneOClock(u) ==> v / DAY == u / DAY && v % DAY < HOUR)
      && OneOClock(u) < HourStep(off, v, true)
  {
    var v := HourStep(off, u, false);
    NotOnTheHour(off, u, v, u / 86400 * 86400 + 3600);
    FirstHour(u, v);
  }

  lemma FirstHour(u: nat, v: nat)
    requires u % 86400 < 3600 && u < v
    ensures u < u / 86400 * 86400 + 3600 < v + 3600
    ensures (u / 86400 * 86400 + 3600) % 3600 == 0
    ensures v < u / 86400 * 86400 + 3600 ==> v / 86400 == u / 86400 && v % 86400 < 3600
  {
    var w := u / 86400;
    assert u == w * 86400 + u % 86400;
    if v < w * 86400 + 3600 {
      assert v / 86400 == w;
    }
  }

  lemma NotOnTheHour(off: int, u: nat, v: nat, one: nat)
    requires off % 3600 != 0 && v == u - (u - off) % 3600 + 3600
    ensures u < v && (one % 3600 == 0 ==> v != one)
  {
    var q := (u - off) / 3600;
    assert v == off + (q + 1) * 3600;
    assert v % 3600 == off % 3600;
  }

  lemma OneIsOnTheHour(u: Clock)
    requires u % DAY < HOUR
    ensures OneOClock(u) % 3600 == 0 && u < OneOClock(u) && OneOClock(u) / DAY == u / DAY
    ensures Hour(OneOClock(u)) == 1 && Minute(OneOClock(u)) == 0 && Second(OneOClock(u)) == 0
    ensures Hour(u) == 0
  {
    JoinClock(u / DAY, 1, 0, 0);
  }

  lemma SkewedSearch(off: int, u: Clock, limit: nat)
    requires off % HOUR != 0 && InRange(off, u) && u % DAY < HOUR && limit == Year(u) + 5
    ensures OneOClock(u) < EndOfYear(limit)
    ensures var r := Search(AT_ONE, off, u, false, limit); r.None? || OneOClock(u) < r.value
  {
    hide Year, EndOfYear, MonthOk, DayMatches, MinuteOk, SecondOk, HourOk, HourStep, OneOClock;
    OneIsOnTheHour(u);
    StepsOverOne(off, u);
    SameYear(u, OneOClock(u));
    YearBefore(OneOClock(u), limit);
    AtOneMatches(u);
    var v := HourStep(off, u, false);
    assert Search(AT_ONE, off, u, false, limit) == Search(AT_ONE, off, v, true, limit);
    if v < OneOClock(u) {
      SameYear(u, v);
      OneIsOnTheHour(v);
      AtOneMatches(v);
      assert Search(AT_ONE, off, v, true, limit) == Search(AT_ONE, off, HourStep(off, v, true), true, limit);
    }
  }

  lemma SameYear(t: Clock, u: Clock)
    requires t / DAY == u / DAY
    ensures Year(t) == Year(u)
  {}

  /** An instant and a second of the local clock, in either unit. */
  lemma InstantOf(off: int, t: nat, c: Clock)
    requires UpcomingSecond(off, t) < c
    ensures var x := (c - off) * NANOS; t < x && x % NANOS == 0 && x / NANOS + off == c
  {
    assert (c - off) * NANOS / NANOS == c - off;
  }

  /**
   When the offset is not a whole number of hours, `Truncate` stops past the start of the local hour.
   Asked at any time in the first hour of any day, `Next` misses the nightly job at one.
   */
  lemma SkewedOffsetMisses(off: int, t: nat)
    requires off % HOUR != 0 && InCalendar(off, t) && UpcomingSecond(off, t) % DAY < HOUR
    ensures var x, r := (OneOClock(UpcomingSecond(off, t)) - off) * NANOS, NextTime(AT_ONE, off, t);
      && t < x < Horizon(off, t) && Fires(AT_ONE, off, x) && (r == 0 || x < r)
    ensures !IsNext(AT_ONE, off, t, NextTime(AT_ONE, off, t))
  {
    hide Search, Year, EndOfYear, Matches, MonthOk, DayMatches, HourOk, MinuteOk, SecondOk, OneOClock;
    hide Hour, Minute, Second;
    var u: Clock := UpcomingSecond(off, t);
    OneIsOnTheHour(u);
    SkewedSearch(off, u, Year(u) + 5);
    InstantOf(off, t, OneOClock(u));
    AtOneMatches(OneOClock(u));
  }

  /** `Next` is right for every schedule and instant exactly when the offset is whole hours. */
  lemma RightIffWholeHourOffset(off: int)
    requires -DAY < off < DAY
    ensures off % HOUR == 0
       <==> forall s, t: nat :: InCalendar(off, t) ==> IsNext(s, off, t, NextTime(s, off, t))
  {
    if off % HOUR == 0 {
      forall s, t: nat | InCalendar(off, t) ensures IsNext(s, off, t, NextTime(s, off, t)) {
        NextTimeIsNext(s, off, t);
      }
    } else {
      var t: nat := (DAY - off) * NANOS;
      assert UpcomingSecond(off, t) == DAY + 1 by {
        assert t / NANOS == DAY - off;
      }
      SkewedOffsetMisses(off, t);
    }
  }
}

/** When the five-year limit of `Next` is far enough, and when it gives up too early. */
module HorizonLimits {
  import opened Calendar
  import opened Words
  import opened SpecSchedules
  import opened NextCorrect

  predicate SomeIn(mask: Word, lo: nat, hi: nat) { exists i: Position :: lo <= i <= hi && i in mask }

  predicate AllIn(mask: Word, lo: nat, hi: nat) { forall i: Position :: lo <= i <= hi ==> i in mask }

  /** The schedules whose every month holds an allowed day. */
  predicate MonthlyDays(s: SpecSchedule) {
    || (AllIn(s.dow, 0, 6) && SomeIn(s.dom, 1, 28))
    || (AllIn(s.dom, 1, 31) && SomeIn(s.dow, 0, 6))
    || (!HasStar(s.dom) && !HasStar(s.dow) && (SomeIn(s.dom, 1, 28) || SomeIn(s.dow, 0, 6)))
  }

  predicate Inhabited(s: SpecSchedule) {
    SomeIn(s.second, 0, 59) && SomeIn(s.minute, 0, 59) && SomeIn(s.hour, 0, 23) && SomeIn(s.month, 1, 12)
  }

  /** Any weekday occurs among the first seven days of any month. */
  lemma WeekdayInFirstWeek(n: nat, w: nat) returns (k: nat)
    requires w < 7
    ensures k < 7 && WeekdayOf(n + k) == w
  {
    k := (w - WeekdayOf(n)) % 7;
  }

  lemma DayInMonth(s: SpecSchedule, y: nat, m: nat) returns (d: nat)
    requires MonthlyDays(s) && y >= 1 && 1 <= m <= 12
    ensures 1 <= d <= 28
    ensures forall t: Clock :: t / DAY == DayNumber(y, m, d) ==> DayMatches(s, t)
  {
    hide YearOf, MonthOf, DaysBeforeYear, DaysBeforeMonth, Test;
    if SomeIn(s.dom, 1, 28) && !(AllIn(s.dom, 1, 31) && SomeIn(s.dow, 0, 6)) {
      d :| 1 <= d <= 28 && d in s.dom;
    } else {
      var w: Position :| w <= 6 && w in s.dow;
      var k := WeekdayInFirstWeek(DayNumber(y, m, 1), w);
      d := k + 1;
    }
    var n := DayNumber(y, m, d);
    DateOfDayNumber(y, m, d);
    TestIsMember(s.dom, DayOf(n));
    TestIsMember(s.dow, WeekdayOf(n));
  }

  /** On each day of an allowed month there is a second at which all but the day is sure to match. */
  lemma SecondOnDay(s: SpecSchedule, y: nat, m: Position, d: nat) returns (c: Clock)
    requires SomeIn(s.second, 0, 59) && SomeIn(s.minute, 0, 59) && SomeIn(s.hour, 0, 23)
    requires y >= 1 && 1 <= m <= 12 && m in s.month && 1 <= d <= DaysIn(y, m)
    ensures Year(c) == y && Day(c) == d && c / DAY == DayNumber(y, m, d)
    ensures MonthOk(s, c) && HourOk(s, c) && MinuteOk(s, c) && SecondOk(s, c)
  {
    hide YearOf, MonthOf, DayOf, DayNumber, DaysIn;
    var h: Position :| h <= 23 && h in s.hour;
    var min: Position :| min <= 59 && min in s.minute;
    var sec: Position :| sec <= 59 && sec in s.second;
    var n := DayNumber(y, m, d);
    c := n * DAY + h * HOUR + min * MINUTE + sec;
    JoinClock(n, h, min, sec);
    DateOfDayNumber(y, m, d);
    assert c / DAY == n;
    TestIsMember(s.month, m);
    TestIsMember(s.hour, h);
    TestIsMember(s.minute, min);
    TestIsMember(s.second, sec);
  }

  /** Every year has a match. */
  lemma MatchInYear(s: SpecSchedule, y: nat) returns (c: Clock)
    requires Inhabited(s) && MonthlyDays(s) && y >= 1
    ensures Matches(s, c) && Year(c) == y
  {
    hide MonthOk, DayMatches, HourOk, MinuteOk, SecondOk, DayNumber;
    var m: Position :| 1 <= m <= 12 && m in s.month;
    var d := DayInMonth(s, y, m);
    c := SecondOnDay(s, y, m, d);
  }

  /** Such a schedule never gives up: it fires no later than the year after the upcoming second's. */
  lemma HorizonSuffices(s: SpecSchedule, off: int, t: nat)
    requires off % HOUR == 0 && InCalendar(off, t) && Inhabited(s) && MonthlyDays(s)
    ensures NextTime(s, off, t) != 0
    ensures Year(NextTime(s, off, t) / NANOS + off) <= Year(UpcomingSecond(off, t)) + 1
  {
    hide Matches, Search, Inhabited, MonthlyDays, Year, EndOfYear;
    var u: Clock := UpcomingSecond(off, t);
    var y := Year(u);
    var c := MatchInYear(s, y + 1);
    YearBefore(u, y);
    YearBefore(c, y);
    YearBefore(c, y + 1);
    YearBefore(c, y + 5);
    SearchIsFirstMatch(s, off, u, false, y + 5);
    var r := Search(s, off, u, false, y + 5);
    assert r.Some? && r.value <= c;
    LaterInstant(off, t, r.value);
    YearBefore(r.value, y + 1);
  }

  // ---------- giving up too early ----------

  /** "0 0 0 29 2 *" */
  const LEAP_DAY := SpecSchedule({0}, {0}, {0}, {29}, {2}, EVERY_WEEKDAY)

  lemma LeapDayMatches(t: Clock)
    ensures Matches(LEAP_DAY, t) <==> IsLeap(Year(t)) && t == Date(Year(t), 2, 29, 0, 0, 0)
  {
    hide YearOf, MonthOf, DayOf;
    TestIsMember(LEAP_DAY.month, Month(t));
    TestIsMember(LEAP_DAY.dom, Day(t));
    TestIsMember(LEAP_DAY.dow, Weekday(t));
    HasStarIsMember(LEAP_DAY.dow);
    TestIsMember(LEAP_DAY.hour, Hour(t));
    TestIsMember(LEAP_DAY.minute, Minute(t));
    TestIsMember(LEAP_DAY.second, Second(t));
    SecondsOfFieldsOf(t);
    if IsLeap(Year(t)) && t == Date(Year(t), 2, 29, 0, 0, 0) {
      FieldsOfSecondsOf(Fields(Year(t), 2, 29, 0, 0, 0));
    }
  }

  predicate NoLeapDayAhead(u: Clock) {
    forall y :: Year(u) <= y <= Year(u) + 5 && IsLeap(y) ==> Date(y, 2, 29, 0, 0, 0) < u
  }

  /** The leap-day schedule is given up exactly when no leap day lies ahead through the fifth year. */
  lemma LeapDayGivenUp(off: int, t: nat)
    requires off % HOUR == 0 && InCalendar(off, t)
    ensures NextTime(LEAP_DAY, off, t) == 0 <==> NoLeapDayAhead(UpcomingSecond(off, t))
  {
    hide Matches, Search, Year, EndOfYear, Date;
    var u: Clock := UpcomingSecond(off, t);
    var limit := Year(u) + 5;
    SearchIsFirstMatch(LEAP_DAY, off, u, false, limit);
    var r := Search(LEAP_DAY, off, u, false, limit);
    if r.Some? {
      LaterInstant(off, t, r.value);
      LeapDayMatches(r.value);
      YearBefore(r.value, limit);
      YearsNotBefore(u, r.value);
    }
    forall y | Year(u) <= y <= limit && IsLeap(y) && r.None?
      ensures Date(y, 2, 29, 0, 0, 0) < u
    {
      var c := Date(y, 2, 29, 0, 0, 0);
      LeapDayYear(y);
      LeapDayMatches(c);
      YearBefore(c, limit);
    }
  }

  lemma LeapDayYear(y: nat)
    requires IsLeap(y) && y >= 1
    ensures Year(Date(y, 2, 29, 0, 0, 0)) == y
  {
    FieldsOfSecondsOf(Fields(y, 2, 29, 0, 0, 0));
  }

  lemma YearsNotBefore(t: Clock, u: Clock)
    requires t <= u
    ensures Year(t) <= Year(u)
  {
    YearBefore(u, Year(u));
    YearBefore(t, Year(u));
  }

  lemma LeapDayDue(y: nat)
    requires IsLeap(y) && y >= 1
    ensures Matches(LEAP_DAY, Date(y, 2, 29, 0, 0, 0))
  {
    LeapDayYear(y);
    LeapDayMatches(Date(y, 2, 29, 0, 0, 0));
  }

  /** Asked in 2097 or 2098, `Next` reports "never" for a job that is due on 2104-02-29. */
  lemma LeapDayMissedBefore2104(t: nat)
    requires InCalendar(0, t) && 2097 <= Year(UpcomingSecond(0, t)) <= 2098
    ensures NextTime(LEAP_DAY, 0, t) == 0
    ensures Matches(LEAP_DAY, Date(2104, 2, 29, 0, 0, 0))
  {
    hide Date, Year, Matches, NextTime;
    LeapDayGivenUp(0, t);
    LeapDayDue(2104);
  }
}

/**
 The cron schedule of crons/spec.go: six bit masks, and the search for the next matching second.

 `off` is the fixed offset, in seconds, of the schedule's location from UTC.  All fields are read
 on the local wall clock; only `Truncate` works on absolute time.
 */
module SpecSchedules {
  import opened Basics
  import opened Calendar
  import opened Words

  datatype SpecSchedule = SpecSchedule(second: Word, minute: Word, hour: Word,
                                       dom: Word, month: Word, dow: Word)

  predicate DayMatches(s: SpecSchedule, t: Clock) {
    var domMatch := Test(s.dom, Day(t));
    var dowMatch := Test(s.dow, Weekday(t));
    if HasStar(s.dom) || HasStar(s.dow) then domMatch && dowMatch else domMatch || dowMatch
  }

  predicate MonthOk(s: SpecSchedule, t: Clock) { Test(s.month, Month(t)) }

  predicate HourOk(s: SpecSchedule, t: Clock) { Test(s.hour, Hour(t)) }

  predicate MinuteOk(s: SpecSchedule, t: Clock) { Test(s.minute, Minute(t)) }

  predicate SecondOk(s: SpecSchedule, t: Clock) { Test(s.second, Second(t)) }

  /** The instants a schedule stands for. */
  predicate Matches(s: SpecSchedule, t: Clock) {
    MonthOk(s, t) && DayMatches(s, t) && HourOk(s, t) && MinuteOk(s, t) && SecondOk(s, t)
  }

  // ---------- one step of each of the five loops ----------

  /** Truncation cannot leave the calendar: whole-hour offsets, or a clock past its first hour. */
  predicate InRange(off: int, t: Clock) { off % HOUR == 0 || t >= HOUR }

  /** `t.Truncate(d)`: rounds absolute time, `t - off`, down to a multiple of `d`. */
  function Truncate(off: int, t: Clock, d: nat): Clock
    requires d == HOUR || d == MINUTE || d == 1
    requires InRange(off, t)
  {
    TruncateInRange(off, t);
    t - (t - off) % d
  }

  lemma TruncateInRange(off: int, t: Clock)
    requires InRange(off, t)
    ensures (t - off) % 3600 <= t && (t - off) % 60 <= t && (t - off) % 1 == 0
    ensures off % 3600 == 0 ==> (t - off) % 3600 == t % 3600 && (t - off) % 60 == t % 60
  {
    if off % 3600 == 0 {
      var k := off / 3600;
      assert (t - k * 3600) % 3600 == t % 3600;
      assert (t - (k * 60) * 60) % 60 == t % 60;
    }
  }

  /** It is the last second up to `t` at which a whole number of the unit has passed in absolute time. */
  lemma TruncateIs(off: int, t: Clock, d: nat)
    requires (d == HOUR || d == MINUTE || d == 1) && InRange(off, t)
    ensures var r := Truncate(off, t, d); r <= t < r + d && (r - off) % d == 0
  {
    var q := (t - off) / d;
    assert t - off == q * d + (t - off) % d;
    WholeUnits(q, d);
  }

  lemma WholeUnits(q: int, d: nat)
    requires d == 3600 || d == 60 || d == 1
    ensures q * d % d == 0
  {}

  function MonthStep(t: Clock, added: bool): Clock {
    AddDate(if added then t else StartOfMonth(t), 0, 1, 0)
  }

  function DayStep(t: Clock, added: bool): Clock {
    AddDate(if added then t else StartOfDay(t), 0, 0, 1)
  }

  function HourStep(off: int, t: Clock, added: bool): Clock
    requires InRange(off, t)
  {
    (if added then t else Truncate(off, t, HOUR)) + HOUR
  }

  function MinuteStep(off: int, t: Clock, added: bool): Clock
    requires InRange(off, t)
  {
    (if added then t else Truncate(off, t, MINUTE)) + MINUTE
  }

  function SecondStep(off: int, t: Clock, added: bool): Clock
    requires InRange(off, t)
  {
    (if added then t else Truncate(off, t, 1)) + 1
  }

  lemma StepsAdvance(off: int, t: Clock, added: bool)
    requires InRange(off, t)
    ensures t < MonthStep(t, added) && t < DayStep(t, added) <= t + DAY
    ensures t < HourStep(off, t, added) <= t + HOUR
    ensures t < MinuteStep(off, t, added) <= t + MINUTE
    ensures t < SecondStep(off, t, added) <= t + 1
  {
    AddMonthIs(t);
    AddMonthFromStart(t);
    AddDayIs(t);
    StartOfDayIs(t);
    AddDayIs(StartOfDay(t));
    TruncateInRange(off, t);
  }

  // ---------- the search ----------

  /**
   What the loops compute from clock value `t`: increment the first field that does not match,
   clearing the fields below it the first time, until all match or the year limit is passed.
   */
  function Search(s: SpecSchedule, off: int, t: Clock, added: bool, limit: nat): (r: Option<Clock>)
    requires limit >= 1 && InRange(off, t)
    ensures r.Some? ==> t <= r.value < EndOfYear(limit) && Matches(s, r.value)
    decreases EndOfYear(limit) - t
  {
    YearBefore(t, limit);
    StepsAdvance(off, t, added);
    if Year(t) > limit then None
    else if !MonthOk(s, t) then Search(s, off, MonthStep(t, added), true, limit)
    else if !DayMatches(s, t) then Search(s, off, DayStep(t, added), true, limit)
    else if !HourOk(s, t) then Search(s, off, HourStep(off, t, added), true, limit)
    else if !MinuteOk(s, t) then Search(s, off, MinuteStep(off, t, added), true, limit)
    else if !SecondOk(s, t) then Search(s, off, SecondStep(off, t, added), true, limit)
    else Some(t)
  }

  lemma MonthStepLength(t: Clock, added: bool)
    ensures t / DAY <= MonthStep(t, added) / DAY <= t / DAY + 31
  {
    var u := MonthStep(t, added);
    AddMonthIs(t);
    AddMonthFromStart(t);
    StartOfMonthIs(t);
    assert t < u <= t + 31 * 86400;
  }

  lemma MonthStepStays(t: Clock, added: bool)
    ensures Month(MonthStep(t, added)) != 1 ==> Year(MonthStep(t, added)) == Year(t)
  {
    var u := MonthStep(t, added);
    MonthStepLength(t, added);
    AtMostAMonthLater(t / DAY, u / DAY - t / DAY);
  }

  lemma DayStepStays(t: Clock, added: bool)
    ensures Day(DayStep(t, added)) != 1
        ==> Year(DayStep(t, added)) == Year(t) && Month(DayStep(t, added)) == Month(t)
  {
    var u := DayStep(t, added);
    AddDayIs(t);
    StartOfDayIs(t);
    AddDayIs(StartOfDay(t));
    assert u / DAY == t / DAY + 1;
    if u / DAY == NextMonthDay(t / DAY) {
      FirstDayOfNextMonth(t / DAY);
    } else {
      SameMonth(t / DAY, u / DAY);
    }
  }

  /** A step that stays within the enclosing period leaves every field above it as it was. */
  lemma ClockStepsStay(off: int, t: Clock, added: bool)
    requires InRange(off, t)
    ensures Hour(HourStep(off, t, added)) != 0 ==> HourStep(off, t, added) / DAY == t / DAY
    ensures Minute(MinuteStep(off, t, added)) != 0 ==> MinuteStep(off, t, added) / HOUR == t / HOUR
    ensures Second(SecondStep(off, t, added)) != 0 ==> SecondStep(off, t, added) / MINUTE == t / MINUTE
  {
    StepsAdvance(off, t, added);
    StaysBelow(t, HourStep(off, t, added), MinuteStep(off, t, added), SecondStep(off, t, added));
  }

  lemma StaysBelow(t: nat, h: nat, m: nat, s: nat)
    requires t < h <= t + 3600 && t < m <= t + 60 && t < s <= t + 1
    ensures h % 86400 / 3600 != 0 ==> h / 86400 == t / 86400
    ensures m % 3600 / 60 != 0 ==> m / 3600 == t / 3600
    ensures s % 60 != 0 ==> s / 60 == t / 60
  {}

  // One turn of each loop: the target is kept, and without a wrap the fields above stay matched.

  lemma MonthTurn(s: SpecSchedule, off: int, t: Clock, added: bool, limit: nat)
    requires limit >= 1 && InRange(off, t) && Year(t) <= limit && !MonthOk(s, t)
    ensures t < EndOfYear(limit)
    ensures var u := MonthStep(t, added);
            && t < u && InRange(off, u) && (Month(u) != 1 ==> Year(u) <= limit)
            && Search(s, off, u, true, limit) == Search(s, off, t, added, limit)
  {
    hide MonthStep, DayStep, HourStep, MinuteStep, SecondStep;
    YearBefore(t, limit);
    StepsAdvance(off, t, added);
    MonthStepStays(t, added);
  }

  lemma DayTurn(s: SpecSchedule, off: int, t: Clock, added: bool, limit: nat)
    requires limit >= 1 && InRange(off, t) && Year(t) <= limit && MonthOk(s, t) && !DayMatches(s, t)
    ensures t < EndOfYear(limit)
    ensures var u := DayStep(t, added);
            && t < u && InRange(off, u) && (Day(u) != 1 ==> Year(u) <= limit && MonthOk(s, u))
            && Search(s, off, u, true, limit) == Search(s, off, t, added, limit)
  {
    hide MonthStep, DayStep, HourStep, MinuteStep, SecondStep;
    YearBefore(t, limit);
    StepsAdvance(off, t, added);
    DayStepStays(t, added);
  }

  lemma HourTurn(s: SpecSchedule, off: int, t: Clock, added: bool, limit: nat)
    requires limit >= 1 && InRange(off, t) && Year(t) <= limit
    requires MonthOk(s, t) && DayMatches(s, t) && !HourOk(s, t)
    ensures t < EndOfYear(limit)
    ensures var u := HourStep(off, t, added);
            && t < u && InRange(off, u)
            && (Hour(u) != 0 ==> Year(u) <= limit && MonthOk(s, u) && DayMatches(s, u))
            && Search(s, off, u, true, limit) == Search(s, off, t, added, limit)
  {
    hide MonthStep, DayStep, HourStep, MinuteStep, SecondStep;
    YearBefore(t, limit);
    StepsAdvance(off, t, added);
    ClockStepsStay(off, t, added);
  }

  lemma MinuteTurn(s: SpecSchedule, off: int, t: Clock, added: bool, limit: nat)
    requires limit >= 1 && InRange(off, t) && Year(t) <= limit
    requires MonthOk(s, t) && DayMatches(s, t) && HourOk(s, t) && !MinuteOk(s, t)
    ensures t < EndOfYear(limit)
    ensures var u := MinuteStep(off, t, added);
            && t < u && InRange(off, u)
            && (Minute(u) != 0 ==> Year(u) <= limit && MonthOk(s, u) && DayMatches(s, u) && HourOk(s, u))
            && Search(s, off, u, true, limit) == Search(s, off, t, added, limit)
  {
    hide MonthStep, DayStep, HourStep, MinuteStep, SecondStep;
    YearBefore(t, limit);
    StepsAdvance(off, t, added);
    ClockStepsStay(off, t, added);
    if Minute(MinuteStep(off, t, added)) != 0 {
      SameHour(t, MinuteStep(off, t, added));
    }
  }

  lemma SecondTurn(s: SpecSchedule, off: int, t: Clock, added: bool, limit: nat)
    requires limit >= 1 && InRange(off, t) && Year(t) <= limit
    requires MonthOk(s, t) && DayMatches(s, t) && HourOk(s, t) && MinuteOk(s, t) && !SecondOk(s, t)
    ensures t < EndOfYear(limit)
    ensures var u := SecondStep(off, t, added);
            && t < u && InRange(off, u)
            && (Second(u) != 0 ==>
                  && Year(u) <= limit && MonthOk(s, u) && DayMatches(s, u)
                  && HourOk(s, u) && MinuteOk(s, u))
            && Search(s, off, u, true, limit) == Search(s, off, t, added, limit)
  {
    hide MonthStep, DayStep, HourStep, MinuteStep, SecondStep;
    YearBefore(t, limit);
    StepsAdvance(off, t, added);
    ClockStepsStay(off, t, added);
    if Second(SecondStep(off, t, added)) != 0 {
      SameMinute(t, SecondStep(off, t, added));
    }
  }

  lemma SearchEnds(s: SpecSchedule, off: int, t: Clock, added: bool, limit: nat)
    requires limit >= 1 && InRange(off, t)
    ensures Year(t) > limit ==> Search(s, off, t, added, limit) == None
    ensures Year(t) <= limit && Matches(s, t) ==> Search(s, off, t, added, limit) == Some(t)
  {}

  // ---------- the method ----------

  const NANOS := 1_000_000_000

  /** The wall clock of the second that starts after instant `t`, given in nanoseconds. */
  function UpcomingSecond(off: int, t: nat): int { t / NANOS + 1 + off }

  /** The instants `Next` can be asked about: those in year 1 or later on the local clock. */
  predicate InCalendar(off: int, t: nat) {
    t / NANOS + off >= 0 && InRange(off, UpcomingSecond(off, t))
  }

  lemma LaterInstant(off: int, t: nat, c: Clock)
    requires UpcomingSecond(off, t) <= c
    ensures t < (c - off) * NANOS && (c - off) * NANOS % NANOS == 0
  {}

  lemma RoundUp(t: nat)
    ensures (t + NANOS - t % NANOS) / NANOS == t / NANOS + 1
  {}

  /** The instant `Next` returns, in nanoseconds; the zero time stands for "none". */
  function NextTime(s: SpecSchedule, off: int, t: nat): (r: nat)
    requires InCalendar(off, t)
    ensures r == 0 || (t < r && r % NANOS == 0)
  {
    var u := UpcomingSecond(off, t);
    match Search(s, off, u, false, Year(u) + 5)
    case None => 0
    case Some(c) => LaterInstant(off, t, c); (c - off) * NANOS
  }

  /** `SpecSchedule.Next`, with its labelled jumps back to WRAP. */
  method Next(s: SpecSchedule, off: int, time: nat) returns (r: nat)
    requires InCalendar(off, time)
    ensures r == NextTime(s, off, time)
  {
    hide Search, MonthOk, DayMatches, HourOk, MinuteOk, SecondOk, InRange;
    hide Year, Month, Day, Hour, Minute, Second, EndOfYear, AddDate, StartOfMonth, StartOfDay, Truncate;
    // t.Add(1*time.Second - t.Nanosecond()) is the start of the upcoming second
    RoundUp(time);
    var t: Clock := (time + NANOS - time % NANOS) / NANOS + off;
    var added := false;
    var yearLimit := Year(t) + 5;
    ghost var target := Search(s, off, t, false, yearLimit);

    label WRAP:
    while true
      invariant InRange(off, t) && yearLimit >= 1
      invariant Search(s, off, t, added, yearLimit) == target
      decreases EndOfYear(yearLimit) - t
    {
      ghost var atWrap := t;
      if Year(t) > yearLimit {
        SearchEnds(s, off, t, added, yearLimit);
        r := 0;
        break;
      }

      while !MonthOk(s, t)
        invariant InRange(off, t) && atWrap <= t && Year(t) <= yearLimit
        invariant Search(s, off, t, added, yearLimit) == target
        decreases EndOfYear(yearLimit) - t
      {
        MonthTurn(s, off, t, added, yearLimit);
        if !added {
          added := true;
          t := StartOfMonth(t);
        }
        t := AddDate(t, 0, 1, 0);
        if Month(t) == 1 {
          continue WRAP;
        }
      }

      while !DayMatches(s, t)
        invariant InRange(off, t) && atWrap <= t && Year(t) <= yearLimit && MonthOk(s, t)
        invariant Search(s, off, t, added, yearLimit) == target
        decreases EndOfYear(yearLimit) - t
      {
        DayTurn(s, off, t, added, yearLimit);
        if !added {
          added := true;
          t := StartOfDay(t);
        }
        t := AddDate(t, 0, 0, 1);
        if Day(t) == 1 {
          continue WRAP;
        }
      }

      while !HourOk(s, t)
        invariant InRange(off, t) && atWrap <= t && Year(t) <= yearLimit
        invariant MonthOk(s, t) && DayMatches(s, t)
        invariant Search(s, off, t, added, yearLimit) == target
        decreases EndOfYear(yearLimit) - t
      {
        HourTurn(s, off, t, added, yearLimit);
        if !added {
          added := true;
          t := Truncate(off, t, HOUR);
        }
        t := t + HOUR;
        if Hour(t) == 0 {
          continue WRAP;
        }
      }

      while !MinuteOk(s, t)
        invariant InRange(off, t) && atWrap <= t && Year(t) <= yearLimit
        invariant MonthOk(s, t) && DayMatches(s, t) && HourOk(s, t)
        invariant Search(s, off, t, added, yearLimit) == target
        decreases EndOfYear(yearLimit) - t
      {
        MinuteTurn(s, off, t, added, yearLimit);
        if !added {
          added := true;
          t := Truncate(off, t, MINUTE);
        }
        t := t + MINUTE;
        if Minute(t) == 0 {
          continue WRAP;
        }
      }

      while !SecondOk(s, t)
        invariant InRange(off, t) && atWrap <= t && Year(t) <= yearLimit
        invariant MonthOk(s, t) && DayMatches(s, t) && HourOk(s, t) && MinuteOk(s, t)
        invariant Search(s, off, t, added, yearLimit) == target
        decreases EndOfYear(yearLimit) - t
      {
        SecondTurn(s, off, t, added, yearLimit);
        if !added {
          added := true;
          t := Truncate(off, t, 1);
        }
        t := t + 1;
        if Second(t) == 0 {
          continue WRAP;
        }
      }

      SearchEnds(s, off, t, added, yearLimit);
      r := (t - off) * NANOS;
      break;
    }
  }
}

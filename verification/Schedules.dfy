/** The two kinds of schedule: crontab masks, and the constant delay of crons/constantdelay.go. */
module Schedules {
  import opened Basics
  import opened Calendar
  import opened SpecSchedules
  import opened NextCorrect

  /** `delay` is in nanoseconds. */
  datatype Schedule = Spec(spec: SpecSchedule) | ConstantDelay(delay: nat)

  /** `Every`: at least a second, and no fraction of one. */
  function Every(duration: int): (r: Schedule)
    ensures r.ConstantDelay? && r.delay >= NANOS && r.delay % NANOS == 0
    ensures if duration < NANOS then r.delay == NANOS else duration - NANOS < r.delay <= duration
  {
    var d := if duration < NANOS then NANOS else duration;
    ConstantDelay(d - d % NANOS)
  }

  function DelayNext(delay: nat, t: nat): int { t + (delay - t % NANOS) }

  /** Delays that `Every` can produce. */
  predicate ValidSchedule(s: Schedule) {
    s.ConstantDelay? ==> s.delay >= NANOS && s.delay % NANOS == 0
  }

  lemma DelayNextIs(delay: nat, t: nat)
    requires delay >= NANOS && delay % NANOS == 0
    ensures var r := DelayNext(delay, t);
            && t < r <= t + delay && r % NANOS == 0
            && r == t / NANOS * NANOS + delay
  {}

  /** `Schedule.Next` */
  function NextOf(s: Schedule, off: int, t: nat): (r: nat)
    requires ValidSchedule(s) && InCalendar(off, t)
    ensures r == 0 || (t < r && r % NANOS == 0)
    ensures s.ConstantDelay? ==> r != 0
  {
    match s
    case Spec(spec) => NextTime(spec, off, t)
    case ConstantDelay(delay) => DelayNextIs(delay, t); DelayNext(delay, t)
  }

  lemma LaterInCalendar(off: int, t: nat, u: nat)
    requires InCalendar(off, t) && t <= u
    ensures InCalendar(off, u)
  {}

  /** `now.AddDate(10, 0, 0)`, which keeps the fraction of a second. */
  function TenYearsAfter(off: int, now: nat): (r: nat)
    requires InCalendar(off, now)
    ensures r > now
  {
    var c: Clock := now / NANOS + off;
    TenYearsLater(c);
    now + (AddDate(c, 10, 0, 0) - c) * NANOS
  }

  lemma TenYearsLater(c: Clock)
    ensures AddDate(c, 10, 0, 0) > c
  {
    hide DaysBeforeYear, DaysBeforeMonth, YearOf, MonthOf, DayOf;
    DateInRange(Year(c) + 10, Month(c), Day(c), Hour(c), Minute(c), Second(c));
    YearsInOrder(Year(c), Year(c) + 10);
    SplitClock(c);
  }

  /** Ten years on the date is the same, but for a leap day, as the tenth year after a leap year is none. */
  lemma TenYearsOn(off: int, now: nat)
    requires InCalendar(off, now)
    ensures var c, d := now / NANOS + off, TenYearsAfter(off, now) / NANOS + off;
      && TenYearsAfter(off, now) % NANOS == now % NANOS
      && Year(d) == Year(c) + 10 && Hour(d) == Hour(c) && Minute(d) == Minute(c) && Second(d) == Second(c)
      && if Month(c) == 2 && Day(c) == 29 then Month(d) == 3 && Day(d) == 1
         else Month(d) == Month(c) && Day(d) == Day(c)
  {
    hide Year, Month, Day, Hour, Minute, Second, Date;
    var c: Clock := now / NANOS + off;
    var d := AddDate(c, 10, 0, 0);
    TenYearsLater(c);
    WholeSecondsOn(now, d - c);
    assert FieldsOf(c).Valid();
    var f := FieldsOf(c).(year := Year(c) + 10);
    if Month(c) == 2 && Day(c) == 29 {
      LeapDayCarries(Year(c) + 10, Hour(c), Minute(c), Second(c));
      f := f.(month := 3, day := 1);
    }
    FieldsOfSecondsOf(f);
    assert FieldsOf(d) == f;
  }

  lemma WholeSecondsOn(now: nat, k: int)
    ensures (now + k * NANOS) % NANOS == now % NANOS && (now + k * NANOS) / NANOS == now / NANOS + k
  {}

  lemma LeapDayCarries(y: nat, h: nat, min: nat, sec: nat)
    requires y >= 1 && !IsLeap(y)
    ensures Date(y, 2, 29, h, min, sec) == Date(y, 3, 1, h, min, sec)
  {}

  // ---------- the instants a schedule stands for ----------

  /** Whole seconds since the start of the second of `start`. */
  function Since(start: nat, x: int): int { x - start / NANOS * NANOS }

  /** Instant `x` is due, for a schedule that was put in force at `start`. */
  predicate Due(s: Schedule, off: int, start: nat, x: int)
    requires ValidSchedule(s)
  {
    match s
    case Spec(spec) => start < x && Fires(spec, off, x)
    case ConstantDelay(delay) => start < x && Since(start, x) % delay == 0
  }

  /** Up to where `Next`, asked at `a`, has settled which instants are due. */
  function Frontier(s: Schedule, off: int, a: nat): int
    requires ValidSchedule(s) && InCalendar(off, a)
  {
    var r := NextOf(s, off, a);
    if r == 0 && s.Spec? then Horizon(off, a) else r
  }

  /** `Next`, asked at the start or at a due instant, returns the first due instant after it. */
  lemma NextIsLeastDue(s: Schedule, off: int, start: nat, a: nat)
    requires off % HOUR == 0 && ValidSchedule(s) && InCalendar(off, start) && InCalendar(off, a)
    requires a == start || Due(s, off, start, a)
    ensures var r := NextOf(s, off, a);
      && (r != 0 ==> Due(s, off, start, r))
      && forall x: int :: a < x < Frontier(s, off, a) ==> !Due(s, off, start, x)
  {
    hide NextTime, Fires, Horizon;
    match s
    case Spec(spec) => NextTimeIsNext(spec, off, a);
    case ConstantDelay(delay) =>
      var r := NextOf(s, off, a);
      DelayNextIs(delay, a);
      forall x: int | a < x < r ensures !Due(s, off, start, x) {
        DelaySteps(delay, start, a, x);
      }
      DelaySteps(delay, start, a, r);
  }

  /** From a multiple of the delay the next one is exactly one delay further on. */
  lemma DelaySteps(delay: nat, start: nat, a: nat, x: int)
    requires delay >= NANOS && delay % NANOS == 0 && start <= a < x
    requires a == start || Since(start, a) % delay == 0
    ensures x == DelayNext(delay, a) ==> Since(start, x) % delay == 0
    ensures x < DelayNext(delay, a) ==> Since(start, x) % delay != 0
  {
    var base := start / NANOS * NANOS;
    if a == start {
      assert a + (delay - a % NANOS) == base + delay;
      Multiple(delay, 0, x - base);
    } else {
      var q := Since(start, a) / delay;
      WholeMultiple(start / NANOS, delay, q, a);
      Multiple(delay, q, x - base);
    }
  }

  /** Between two neighbouring multiples of `d` there is no third. */
  lemma Multiple(d: nat, q: nat, n: nat)
    requires d >= 1 && q * d < n
    ensures n == q * d + d ==> n % d == 0
    ensures n < q * d + d ==> n % d != 0
  {
    if n == q * d + d {
      Division(n, d, q + 1, 0);
    } else if n < q * d + d {
      Division(n, d, q, n - q * d);
    }
  }

  lemma WholeMultiple(w: nat, delay: nat, q: nat, a: nat)
    requires delay % NANOS == 0 && a == w * NANOS + q * delay
    ensures a % NANOS == 0
  {
    var k := delay / NANOS;
    assert q * delay == q * k * NANOS;
    Division(a, NANOS, w + q * k, 0);
  }
}

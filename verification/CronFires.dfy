/**
 The event loop with the real schedules: which instants every entry is started at.
 Parser, `Next` and the loop meet here.
 */
module CronFires {
  import opened Basics
  import opened Calendar
  import opened SpecSchedules
  import opened NextCorrect
  import opened Schedules
  import opened Parser
  import opened ParserLaws
  import opened CronModel

  function EnvAt(off: int): Env {
    Env((s: Schedule, t: nat) => if ValidSchedule(s) && InCalendar(off, t) then NextOf(s, off, t) else 0,
        (t: nat) => if InCalendar(off, t) then TenYearsAfter(off, t) else t + 1)
  }

  lemma EnvIsLawful(off: int)
    ensures EnvAt(off).Lawful()
  {
    hide NextTime, TenYearsAfter, InCalendar, ValidSchedule;
  }

  /** An admitted entry whose schedule and admission time the calendar covers. */
  predicate Covered(off: int, e: Entry) { ValidSchedule(e.schedule) && InCalendar(off, e.admitted) }

  /** The instants of a chain are all the due instants up to its end. */
  lemma {:induction false} ChainIsComplete(off: int, s: Schedule, start: nat, fired: seq<nat>)
    requires off % HOUR == 0 && ValidSchedule(s) && InCalendar(off, start)
    requires Chain(EnvAt(off), s, start, fired)
    ensures var a := AnchorOf(start, fired);
      && InCalendar(off, a) && (a == start || Due(s, off, start, a))
      && forall x: int :: start < x <= a ==> (Due(s, off, start, x) <==> x in fired)
  {
    hide NextOf, Due;
    EnvIsLawful(off);
    ChainIncreases(EnvAt(off), s, start, fired);
    if fired != [] {
      var front, a := fired[..|fired| - 1], fired[|fired| - 1];
      var b := AnchorOf(start, front);
      ChainIsComplete(off, s, start, front);
      ChainIncreases(EnvAt(off), s, start, front);
      NextIsLeastDue(s, off, start, b);
      LaterInCalendar(off, start, a);
      assert fired == front + [a];
      forall x: int | start < x <= a ensures Due(s, off, start, x) <==> x in fired {
        if x <= b {
          assert x in fired <==> x in front;
        }
      }
    }
  }

  /** Up to where the entry's instants are settled: its next time, or the horizon once it has none. */
  function Settled(off: int, e: Entry): int
    requires Covered(off, e) && InCalendar(off, e.Anchor())
  {
    Frontier(e.schedule, off, e.Anchor())
  }

  /** In a valid state an entry has been started at exactly its due instants, up to `Settled`. */
  lemma FiredExactly(off: int, e: Entry, st: State)
    requires off % HOUR == 0 && Valid(EnvAt(off), st) && e in st.entries && Covered(off, e)
    ensures InCalendar(off, e.Anchor())
    ensures e.next != 0 ==> Settled(off, e) == e.next
    ensures forall x: int :: e.admitted < x < Settled(off, e) ==>
              (Due(e.schedule, off, e.admitted, x) <==> x in e.fired)
  {
    hide NextOf, Due;
    ChainIsComplete(off, e.schedule, e.admitted, e.fired);
    ChainIncreases(EnvAt(off), e.schedule, e.admitted, e.fired) by { EnvIsLawful(off); }
    NextIsLeastDue(e.schedule, off, e.admitted, e.Anchor());
    assert e.next == NextOf(e.schedule, off, e.Anchor());
  }

  /**
   The entry's job was started at exactly the instants due after its admission (or the last start of the
   loop), each once and in increasing order: through the last tick, and, once `Next` has answered
   "never", through the five-year horizon.
   */
  ghost predicate FiredAsDue(off: int, e: Entry, lastTick: nat) {
    && ValidSchedule(e.schedule) && InCalendar(off, e.Anchor())
    && Increasing(e.fired) && (forall x <- e.fired :: Due(e.schedule, off, e.admitted, x))
    && (e.next != 0 ==>
          forall x: int :: e.admitted < x <= lastTick ==> (Due(e.schedule, off, e.admitted, x) <==> x in e.fired))
    && (e.next == 0 ==>
          && e.schedule.Spec?
          && forall x: int :: e.admitted < x < Horizon(off, e.Anchor()) ==>
               (Due(e.schedule, off, e.admitted, x) <==> x in e.fired))
  }

  /** So it is in every state of every run of the loop, for a loop started within the calendar. */
  lemma EveryRunFiresExactlyOnce(off: int, events: seq<Event>, states: seq<State>, i: nat, e: Entry)
    requires off % HOUR == 0 && IsRun(EnvAt(off), events, states) && InCalendar(off, states[0].now)
    requires i < |states| && e in states[i].entries && ValidSchedule(e.schedule)
    ensures InCalendar(off, e.admitted) && FiredAsDue(off, e, states[i].LastTick())
    ensures forall x <- e.fired :: x in states[i].ticks
  {
    hide NextOf, Due, Horizon, InCalendar, IsRun;
    EnvIsLawful(off);
    AdmittedSinceStart(EnvAt(off), events, states, i);
    LaterInCalendar(off, states[0].now, e.admitted);
    RunIsValid(EnvAt(off), events, states, i);
    NoInstantTwice(EnvAt(off), events, states, i);
    FiredExactly(off, e, states[i]);
    ChainIsComplete(off, e.schedule, e.admitted, e.fired);
    ChainIncreases(EnvAt(off), e.schedule, e.admitted, e.fired);
    assert e.next == NextOf(e.schedule, off, e.Anchor());
  }

  /** Instant `x` is a whole second that the fields of a spec, as written, allow. */
  ghost predicate TextAllows(fields: seq<string>, off: int, x: int)
    requires |fields| == 6
  {
    x % NANOS == 0 && x / NANOS + off >= 0 && SpecAllows(fields, x / NANOS + off)
  }

  lemma TextIsDue(fields: seq<string>, off: int, start: nat, x: int)
    requires |fields| == 6 && FieldMasks(fields, 6).Value? && start < x
    ensures Due(Spec(ScheduleOf(FieldMasks(fields, 6).value)), off, start, x) <==> TextAllows(fields, off, x)
  {
    hide FieldMasks, ScheduleOf, Matches, SpecAllows;
    if x / NANOS + off >= 0 {
      SpecMeaning(fields, x / NANOS + off);
    }
  }

  /**
   All layers together.  The instants at which the job of an entry that was scheduled with a six- or
   five-field spec was started, in any run of the loop, are exactly the whole seconds after its
   admission, through the last tick, that the text of the spec allows.  Once the entry has no next
   time, that holds through the five-year horizon.
   */
  lemma TextDecidesWhatFires(off: int, spec: string, parseDuration: string -> Option<int>,
                             events: seq<Event>, states: seq<State>, i: nat, e: Entry)
    requires off % HOUR == 0 && IsRun(EnvAt(off), events, states) && InCalendar(off, states[0].now)
    requires i < |states| && e in states[i].entries
    requires spec != "" && spec[0] != '@' && Parse(spec, parseDuration) == Value(e.schedule)
    ensures SplitSpec(spec).Some? && InCalendar(off, e.Anchor())
    ensures forall x: int ::
              e.admitted < x && (if e.next != 0 then x <= states[i].LastTick() else x < Horizon(off, e.Anchor())) ==>
                (x in e.fired <==> TextAllows(SplitSpec(spec).value, off, x))
  {
    hide SplitSpec, FieldMasks, Due, TextAllows, InCalendar, IsRun, EnvAt, Horizon;
    ParsedIsValid(spec, parseDuration);
    var fields := SplitSpec(spec).value;
    assert e.schedule == Spec(ScheduleOf(FieldMasks(fields, 6).value));
    EveryRunFiresExactlyOnce(off, events, states, i, e);
    forall x: int | e.admitted < x ensures Due(e.schedule, off, e.admitted, x) <==> TextAllows(fields, off, x) {
      TextIsDue(fields, off, e.admitted, x);
    }
  }
}

/** The scheduler object of crons/cron.go, proved against the state machine of `CronModel`. */
module Crons {
  import opened Basics
  import opened Calendar
  import opened SpecSchedules
  import opened Schedules
  import opened CronFires
  import M = CronModel

  class Entry {
    const schedule: Schedule
    /** The `JobKey` of the job to run. */
    const key: int
    var next: nat
    var prev: nat
    ghost var admitted: nat
    ghost var fired: seq<nat>

    constructor (schedule: Schedule, key: int)
      ensures View() == M.WaitingEntry(schedule, key)
    {
      this.schedule, this.key, next, prev := schedule, key, 0, 0;
      admitted, fired := 0, [];
    }

    ghost function View(): M.Entry
      reads this
    {
      M.Entry(schedule, next, prev, key, admitted, fired)
    }

    method Copy() returns (copy: Entry)
      ensures fresh(copy) && copy.View() == View()
    {
      copy := new Entry(schedule, key);
      copy.next, copy.prev, copy.admitted, copy.fired := next, prev, admitted, fired;
    }
  }

  ghost function Views(es: seq<Entry>): (vs: seq<M.Entry>)
    reads es
    ensures |vs| == |es| && forall i :: 0 <= i < |es| ==> vs[i] == es[i].View()
  {
    if es == [] then [] else [es[0].View()] + Views(es[1..])
  }

  /** The interface call `Schedule.Next`. */
  method CallNext(s: Schedule, off: int, t: nat) returns (r: nat)
    requires ValidSchedule(s) && InCalendar(off, t)
    ensures r == EnvAt(off).next(s, t)
  {
    match s
    case Spec(spec) => r := Next(spec, off, t);
    case ConstantDelay(delay) =>
      DelayNextIs(delay, t);
      r := DelayNext(delay, t);
  }

  // ---------- sort.Sort(byTime(c.entries)) ----------

  method Less(a: Entry, b: Entry) returns (less: bool)
    ensures less == M.Less(a.View(), b.View())
  {
    if a.next == 0 {
      return false;
    }
    if b.next == 0 {
      return true;
    }
    return a.next < b.next;
  }

  function Swapped<T>(s: seq<T>, i: nat, j: nat): (r: seq<T>)
    requires i < j < |s|
    ensures multiset(r) == multiset(s) && |r| == |s|
    ensures forall k :: 0 <= k < |s| ==> r[k] == s[if k == i then j else if k == j then i else k]
  {
    s[i := s[j]][j := s[i]]
  }

  /** An insertion sort stands for Go's: nothing but a sorted permutation is promised. */
  method SortByTime(es: seq<Entry>) returns (r: seq<Entry>)
    ensures multiset(r) == multiset(es)
    ensures M.IsSortOf(Views(es), Views(r))
  {
    hide Views;
    r := es;
    var i := 0;
    while i < |r|
      invariant i <= |r|
      invariant multiset(r) == multiset(es) && multiset(Views(r)) == multiset(Views(es))
      invariant M.Sorted(Views(r)[..i])
    {
      r := Insert(r, i);
      i := i + 1;
    }
    assert Views(r)[..i] == Views(r);
  }

  method Insert(es: seq<Entry>, i: nat) returns (r: seq<Entry>)
    requires i < |es| && M.Sorted(Views(es)[..i])
    ensures |r| == |es| && multiset(r) == multiset(es) && multiset(Views(r)) == multiset(Views(es))
    ensures M.Sorted(Views(r)[..i + 1])
  {
    hide *;
    r := es;
    var j := i;
    OneMore(Views(es), i);
    while j > 0
      invariant 0 <= j <= i < |r| && |r| == |es|
      invariant multiset(r) == multiset(es) && multiset(Views(r)) == multiset(Views(es))
      invariant SortedExcept(Views(r), i + 1, j)
    {
      var less := Less(r[j], r[j - 1]);
      if !less {
        break;
      }
      SwapStep(r, i + 1, j);
      r := Swapped(r, j - 1, j);
      j := j - 1;
    }
    Settle(Views(r), i + 1, j);
  }

  lemma SwapStep(es: seq<Entry>, n: nat, j: nat)
    requires 0 < j < n <= |es|
    requires SortedExcept(Views(es), n, j) && M.Less(es[j].View(), es[j - 1].View())
    ensures multiset(Views(Swapped(es, j - 1, j))) == multiset(Views(es))
    ensures SortedExcept(Views(Swapped(es, j - 1, j)), n, j - 1)
  {
    hide *;
    SwapViews(es, j - 1, j);
    SwapDown(Views(es), n, j);
  }

  lemma SwapViews(es: seq<Entry>, i: nat, j: nat)
    requires i < j < |es|
    ensures Views(Swapped(es, i, j)) == Swapped(Views(es), i, j)
  {
    hide Views, Swapped;
    var a, b := Views(Swapped(es, i, j)), Swapped(Views(es), i, j);
    assert |a| == |b|;
    forall k | 0 <= k < |a| ensures a[k] == b[k] {
      assert a[k] == Swapped(es, i, j)[k].View();
    }
  }

  /** The first `n` are sorted but for the entry at `j`, which may belong further down. */
  predicate SortedExcept(s: seq<M.Entry>, n: nat, j: nat)
    requires n <= |s|
  {
    forall x, y :: 0 <= x < y < n && y != j ==> !M.Less(s[y], s[x])
  }

  lemma OneMore(s: seq<M.Entry>, i: nat)
    requires i < |s| && M.Sorted(s[..i])
    ensures SortedExcept(s, i + 1, i)
  {
    forall x, y | 0 <= x < y < i ensures !M.Less(s[y], s[x]) {
      assert s[..i][x] == s[x] && s[..i][y] == s[y];
    }
  }

  lemma SwapDown(s: seq<M.Entry>, n: nat, j: nat)
    requires 0 < j < n <= |s| && SortedExcept(s, n, j) && M.Less(s[j], s[j - 1])
    ensures SortedExcept(Swapped(s, j - 1, j), n, j - 1)
  {
    var t := Swapped(s, j - 1, j);
    forall x, y | 0 <= x < y < n && y != j - 1 ensures !M.Less(t[y], t[x]) {
      var x' := if x == j then j - 1 else if x == j - 1 then j else x;
      if y != j {
        assert !M.Less(s[y], s[x']);
      } else if x < j - 1 {
        assert !M.Less(s[j - 1], s[x]);
      }
    }
  }

  lemma Settle(s: seq<M.Entry>, n: nat, j: nat)
    requires j < n <= |s| && SortedExcept(s, n, j) && (j > 0 ==> !M.Less(s[j], s[j - 1]))
    ensures M.Sorted(s[..n])
  {
    forall x, y | 0 <= x < y < n ensures !M.Less(s[y], s[x]) {
      if y == j && x < j - 1 {
        assert !M.Less(s[j - 1], s[x]);
        M.LessIsStrictWeakOrder(s[x], s[j - 1], s[j]);
      }
    }
  }

  class Cron {
    /** The location's offset from UTC. */
    const off: int
    var entries: seq<Entry>
    var running: bool
    /** The local variable `now` of `run`. */
    var now: nat
    ghost var ticks: seq<nat>

    ghost function State(): M.State
      reads this, entries
    {
      M.State(Views(entries), now, ticks)
    }

    /** No entry is listed twice, and all schedules come from the parser. */
    predicate WellFormed()
      reads this, entries
    {
      Distinct(entries) && forall e <- entries :: ValidSchedule(e.schedule)
    }

    ghost function Objects(): set<Entry>
      reads this
    {
      set e | e in entries
    }

    /** The loop is running, and its state is one of the valid ones. */
    ghost predicate Valid()
      reads this, entries
    {
      WellFormed() && running && InCalendar(off, now) && M.Valid(EnvAt(off), State())
    }

    /** The loop is not running; its last `now` and the ticks so far are kept. */
    ghost predicate Stopped()
      reads this, entries
    {
      WellFormed() && !running && M.Increasing(ticks) && State().LastTick() <= now
    }

    constructor (off: int)
      ensures Stopped() && this.off == off && State() == M.State([], 0, [])
    {
      this.off, entries, running, now, ticks := off, [], false, 0, [];
    }

    /** `Schedule` while the loop is not running. */
    method AddStopped(schedule: Schedule, key: int)
      requires Stopped() && ValidSchedule(schedule)
      modifies this`entries
      ensures Stopped() && fresh(Objects() - old(Objects()))
      ensures State() == old(State()).(entries := old(State()).entries + [M.WaitingEntry(schedule, key)])
    {
      hide ValidSchedule, Views, M.Increasing;
      var entry := new Entry(schedule, key);
      ViewsAppend(entries, entry);
      entries := entries + [entry];
    }

    // ---------- the branches of the select statement ----------

    /** The timer: start every entry due at `effective`; break at the first that is not. */
    method RunDue(effective: nat)
      requires WellFormed() && InCalendar(off, effective)
      modifies Objects()`next, Objects()`prev, Objects()`fired
      ensures WellFormed() && Views(entries) == M.FireDue(EnvAt(off), old(Views(entries)), effective)
    {
      hide EnvAt, Views, ValidSchedule, InCalendar, M.FireDue;
      var i := 0;
      while i < |entries|
        invariant i <= |entries|
        invariant forall k :: 0 <= k < i ==>
                    && old(entries[k].View()).next == effective
                    && entries[k].View() == M.Fire(EnvAt(off), old(entries[k].View()), effective)
        invariant forall k :: i <= k < |entries| ==> entries[k].View() == old(entries[k].View())
      {
        var e := entries[i];
        if e.next != effective {
          break;
        }
        e.fired := e.fired + [effective];
        e.prev := e.next;
        e.next := CallNext(e.schedule, off, effective);
        i := i + 1;
      }
      M.FireDuePrefix(EnvAt(off), old(Views(entries)), effective, i, Views(entries));
    }

    /** A new entry: its next time is computed from the loop's last `now`. */
    method Admit(schedule: Schedule, key: int)
      requires WellFormed() && InCalendar(off, now) && ValidSchedule(schedule)
      modifies this`entries
      ensures WellFormed() && fresh(Objects() - old(Objects()))
      ensures Views(entries) == old(Views(entries)) + [M.NewEntry(EnvAt(off), schedule, key, now)]
    {
      hide ValidSchedule, Views, InCalendar, EnvAt;
      var entry := new Entry(schedule, key);
      entry.next := CallNext(schedule, off, now);
      entry.admitted := now;
      ViewsAppend(entries, entry);
      entries := entries + [entry];
    }

    /** Removal: the entries that the callback does not select are kept, in order. */
    method RemoveWhere(remove: M.RemoveCheck)
      requires WellFormed()
      modifies this`entries
      ensures WellFormed() && Objects() <= old(Objects())
      ensures Views(entries) == M.Keep(old(Views(entries)), remove)
    {
      hide ValidSchedule, Views, M.Keep;
      var es, newEntries: seq<Entry> := entries, [];
      ghost var all := Views(es);
      M.KeepNothing(remove);
      for i := 0 to |es|
        invariant Distinct(newEntries)
        invariant forall e <- newEntries :: e in es[..i]
        invariant Views(newEntries) == M.Keep(all[..i], remove)
      {
        var e := es[i];
        M.KeepAppend(all[..i], all[i], remove);
        assert all[..i + 1] == all[..i] + [all[i]];
        assert e !in es[..i];
        if !remove(e.schedule, e.next, e.prev, e.key) {
          ViewsAppend(newEntries, e);
          newEntries := newEntries + [e];
        }
      }
      assert all[..|es|] == all;
      entries := newEntries;
    }

    /** `entrySnapshot`: fresh copies of all entries. */
    method EntrySnapshot() returns (copies: seq<Entry>)
      ensures forall e <- copies :: fresh(e)
      ensures Views(copies) == Views(entries)
    {
      hide Views;
      copies := [];
      for i := 0 to |entries|
        invariant forall e <- copies :: fresh(e)
        invariant Views(copies) == Views(entries)[..i]
      {
        var copy := entries[i].Copy();
        ViewsAppend(copies, copy);
        copies := copies + [copy];
      }
    }

    // ---------- run ----------

    /** `Start`, and what `run` does before its loop; the clock has not gone back since the last run. */
    method Start(clock: nat)
      requires Stopped() && InCalendar(off, clock) && now <= clock
      modifies this`running, this`now, Objects()`next, Objects()`admitted, Objects()`fired
      ensures Valid() && WellFormed() && running && InCalendar(off, now)
      ensures State() == M.State(M.Started(EnvAt(off), old(Views(entries)), clock), clock, old(ticks))
    {
      hide ValidSchedule, InCalendar, EnvAt, Views, M.Started, M.Increasing;
      running, now := true, clock;
      for i := 0 to |entries|
        invariant WellFormed() && running && now == clock
        invariant forall k :: 0 <= k < i ==>
                    entries[k].View() == M.StartEntry(EnvAt(off), old(entries[k].View()), clock)
        invariant forall k :: i <= k < |entries| ==> entries[k].View() == old(entries[k].View())
      {
        var e := entries[i];
        e.next := CallNext(e.schedule, off, clock);
        e.admitted, e.fired := clock, [];
      }
      assert Views(entries) == M.Started(EnvAt(off), old(Views(entries)), clock);
      M.StartedIsValid(EnvAt(off), old(Views(entries)), clock, ticks) by { EnvIsLawful(off); }
    }

    /** The branch for a stop: `run` returns. */
    method StopTurn()
      requires Valid()
      modifies this`running
      ensures Stopped() && InCalendar(off, now) && State() == old(State())
    {
      hide ValidSchedule, InCalendar, EnvAt, Views;
      running := false;
    }

    method AddAllStopped(jobs: seq<(Schedule, int)>)
      requires Stopped() && forall j <- jobs :: ValidSchedule(j.0)
      modifies this`entries
      ensures Stopped() && fresh(Objects() - old(Objects()))
      ensures State() == old(State()).(entries := old(State()).entries + M.Waiting(jobs))
    {
      hide ValidSchedule, Views, M.Waiting, M.Increasing, M.WaitingEntry;
      ghost var es := Views(entries);
      NoneWaiting(es);
      for i := 0 to |jobs|
        invariant Stopped() && fresh(Objects() - old(Objects()))
        invariant Views(entries) == es + M.Waiting(jobs[..i])
      {
        OneMoreWaiting(es, jobs, i);
        AddStopped(jobs[i].0, jobs[i].1);
      }
      assert jobs[..|jobs|] == jobs;
    }

    method StopAndAdd(jobs: seq<(Schedule, int)>)
      requires Valid() && forall j <- jobs :: ValidSchedule(j.0)
      modifies this`running, this`entries
      ensures Stopped() && InCalendar(off, now) && fresh(Objects() - old(Objects()))
      ensures Views(entries) == old(Views(entries)) + M.Waiting(jobs)
    {
      hide ValidSchedule, InCalendar, EnvAt, Views, M.Waiting, M.Increasing, Distinct;
      StopTurn();
      AddAllStopped(jobs);
    }

    /** A stop, some jobs, and a start. */
    method RestartTurn(ev: M.Event)
      requires Valid() && ev.Restart? && forall j <- ev.added :: ValidSchedule(j.0)
      modifies this, Objects()
      ensures WellFormed() && running && InCalendar(off, now) && fresh(Objects() - old(Objects()))
      ensures State() == M.Select(EnvAt(off), old(State()), ev)
    {
      hide ValidSchedule, InCalendar, EnvAt, Views, M.Started, M.Waiting, M.Valid, M.Select, M.Increasing;
      hide WellFormed, Stopped, Valid;
      SelectIs(EnvAt(off), State(), ev);
      StopAndAdd(ev.added);
      LaterInCalendar(off, now, now + ev.elapsed);
      Start(now + ev.elapsed);
    }

    /** How long to sleep: to the first entry's next time, or ten years. */
    method Effective() returns (effective: nat)
      requires Valid()
      ensures effective == EffectiveOf(EnvAt(off), State()) && InCalendar(off, effective)
    {
      hide Views, EnvAt, M.Valid, TenYearsAfter, InCalendar, ValidSchedule;
      if |entries| == 0 || entries[0].next == 0 {
        TenYearsInCalendar(off, now);
        effective := TenYearsAfter(off, now);
      } else {
        NextInCalendar(off, State(), Views(entries)[0]);
        effective := entries[0].next;
      }
    }

    /** The timer branch, from a sorted list. */
    method TimerTurn(late: nat)
      requires Valid() && M.Sorted(Views(entries))
      modifies this`now, this`ticks, Objects()`next, Objects()`prev, Objects()`fired
      ensures WellFormed() && running && InCalendar(off, now)
      ensures State() == M.Select(EnvAt(off), old(State()), M.Timer(late))
    {
      hide Views, EnvAt, M.Valid, TenYearsAfter, InCalendar, ValidSchedule, M.FireDue, M.Select, M.Sorted, M.Max;
      hide Distinct, EffectiveOf, M.Idle;
      TimerIs(EnvAt(off), State(), late);
      var effective := Effective();
      var at := M.Max(now, effective) + late;
      LaterInCalendar(off, now, at) by { MaxIs(now, effective); }
      ghost var started := if M.Idle(Views(entries)) then [] else [effective];
      RunDue(effective);
      now, ticks := at, ticks + started;
    }

    /** `now = time.Now().Local()`, after every branch but the timer's. */
    method Refresh(elapsed: nat)
      requires InCalendar(off, now)
      modifies this`now
      ensures now == old(now) + elapsed && InCalendar(off, now)
    {
      LaterInCalendar(off, now, now + elapsed);
      now := now + elapsed;
    }

    method AddTurn(ev: M.Event)
      requires Valid() && ev.Add? && ValidSchedule(ev.schedule)
      modifies this`entries, this`now
      ensures WellFormed() && running && InCalendar(off, now) && fresh(Objects() - old(Objects()))
      ensures State() == M.Select(EnvAt(off), old(State()), ev)
    {
      hide Views, EnvAt, M.Valid, InCalendar, ValidSchedule, M.Select;
      SelectIs(EnvAt(off), State(), ev);
      Admit(ev.schedule, ev.key);
      Refresh(ev.elapsed);
    }

    method RemoveTurn(ev: M.Event)
      requires Valid() && ev.Remove?
      modifies this`entries, this`now
      ensures WellFormed() && running && InCalendar(off, now) && Objects() <= old(Objects())
      ensures State() == M.Select(EnvAt(off), old(State()), ev)
    {
      hide Views, EnvAt, M.Valid, InCalendar, ValidSchedule, M.Select, M.Keep;
      SelectIs(EnvAt(off), State(), ev);
      RemoveWhere(ev.remove);
      Refresh(ev.elapsed);
    }

    method SnapshotTurn(ev: M.Event) returns (snapshot: seq<Entry>)
      requires Valid() && ev.Snapshot?
      modifies this`now
      ensures WellFormed() && running && InCalendar(off, now)
      ensures State() == M.Select(EnvAt(off), old(State()), ev)
      ensures Views(snapshot) == Views(entries) && forall e <- snapshot :: fresh(e)
    {
      hide Views, EnvAt, M.Valid, InCalendar, ValidSchedule, M.Select;
      SelectIs(EnvAt(off), State(), ev);
      snapshot := EntrySnapshot();
      Refresh(ev.elapsed);
    }

    /** The top of the loop: sort the list. */
    method SortEntries()
      requires Valid()
      modifies this`entries
      ensures Valid() && Objects() <= old(Objects())
      ensures M.IsSortOf(old(Views(entries)), Views(entries))
    {
      hide ValidSchedule, Views, EnvAt, M.Valid, InCalendar, M.Sorted;
      var sorted := SortByTime(entries);
      SamePermuted(entries, sorted);
      M.SortKeepsValid(EnvAt(off), State(), Views(sorted));
      entries := sorted;
    }

    /** One turn of the loop; a snapshot request is answered with copies of the sorted list. */
    method Turn(ev: M.Event) returns (snapshot: seq<Entry>)
      requires Valid() && Schedulable(ev)
      modifies this, Objects()
      ensures Valid() && M.Step(EnvAt(off), old(State()), ev, State())
      ensures fresh(Objects() - old(Objects())) && (!ev.Add? && !ev.Restart? ==> Objects() <= old(Objects()))
      ensures ev.Snapshot? ==>
                && Views(snapshot) == Views(entries) && M.IsSortOf(old(Views(entries)), Views(snapshot))
                && forall e <- snapshot :: fresh(e)
    {
      hide ValidSchedule, Views, EnvAt, M.Valid, InCalendar, M.Select, M.Sorted;
      snapshot := [];
      ghost var before := State();
      SortEntries();
      ghost var es := Views(entries);
      match ev {
        case Timer(late) => TimerTurn(late);
        case Add(_, _, _) => AddTurn(ev);
        case Remove(_, _) => RemoveTurn(ev);
        case Snapshot(_) => snapshot := SnapshotTurn(ev);
        case Restart(_, _) => RestartTurn(ev);
      }
      assert M.Step(EnvAt(off), before, ev, State());
      M.StepKeepsValid(EnvAt(off), before, ev, State()) by { EnvIsLawful(off); }
    }

    /** The loop, for as long as events come. */
    method Run(events: seq<M.Event>, ghost start: nat, ghost jobs: seq<(Schedule, int)>)
      returns (ghost states: seq<M.State>)
      requires Valid() && State() == M.Start(EnvAt(off), jobs, start)
      requires forall ev <- events :: Schedulable(ev)
      modifies this, Objects()
      ensures Valid() && M.IsRun(EnvAt(off), events, states)
      ensures states[0] == old(State()) && states[|events|] == State()
      ensures off % HOUR == 0 ==> forall e <- entries :: FiredAsDue(off, e.View(), State().LastTick())
    {
      hide ValidSchedule, Views, EnvAt, M.Valid, InCalendar, M.Step, FiredAsDue;
      states := [State()];
      for i := 0 to |events|
        invariant Valid() && M.IsRun(EnvAt(off), events[..i], states) && State() == states[i]
        invariant states[0] == old(State())
        invariant fresh(Objects() - old(Objects()))
      {
        var _ := Turn(events[i]);
        assert events[..i + 1] == events[..i] + [events[i]];
        states := states + [State()];
      }
      assert events[..|events|] == events;
      if off % HOUR == 0 {
        forall e <- entries ensures FiredAsDue(off, e.View(), State().LastTick()) {
          ViewListed(entries, e);
          EveryRunFiresExactlyOnce(off, events, states, |events|, e.View());
        }
      }
    }
  }

  lemma ViewListed(es: seq<Entry>, e: Entry)
    requires e in es
    ensures e.View() in Views(es)
  {
    hide Views;
    var i :| 0 <= i < |es| && es[i] == e;
    assert Views(es)[i] == e.View();
  }

  /** What is to be added has been parsed. */
  predicate Schedulable(ev: M.Event) {
    (ev.Add? ==> ValidSchedule(ev.schedule)) && (ev.Restart? ==> forall j <- ev.added :: ValidSchedule(j.0))
  }

  lemma NoneWaiting(es: seq<M.Entry>)
    ensures es + M.Waiting([]) == es
  {}

  lemma OneMoreWaiting(es: seq<M.Entry>, jobs: seq<(Schedule, int)>, i: nat)
    requires i < |jobs|
    ensures es + M.Waiting(jobs[..i + 1]) == es + M.Waiting(jobs[..i]) + [M.WaitingEntry(jobs[i].0, jobs[i].1)]
  {
    assert jobs[..i + 1][..i] == jobs[..i];
  }

  lemma SelectIs(env: M.Env, st: M.State, ev: M.Event)
    ensures ev.Add? ==>
              M.Select(env, st, ev)
              == M.State(st.entries + [M.NewEntry(env, ev.schedule, ev.key, st.now)], st.now + ev.elapsed, st.ticks)
    ensures ev.Remove? ==>
              M.Select(env, st, ev) == M.State(M.Keep(st.entries, ev.remove), st.now + ev.elapsed, st.ticks)
    ensures ev.Snapshot? ==> M.Select(env, st, ev) == st.(now := st.now + ev.elapsed)
    ensures ev.Restart? ==>
              var now := st.now + ev.elapsed;
              M.Select(env, st, ev) == M.State(M.Started(env, st.entries + M.Waiting(ev.added), now), now, st.ticks)
  {}

  function EffectiveOf(env: M.Env, st: M.State): nat {
    if M.Idle(st.entries) then env.tenYears(st.now) else st.entries[0].next
  }

  lemma TimerIs(env: M.Env, st: M.State, late: nat)
    ensures var effective := EffectiveOf(env, st);
            M.Select(env, st, M.Timer(late)) ==
            M.State(M.FireDue(env, st.entries, effective), M.Max(st.now, effective) + late,
                    st.ticks + if M.Idle(st.entries) then [] else [effective])
  {}

  lemma MaxIs(a: nat, b: nat)
    ensures M.Max(a, b) >= a && M.Max(a, b) >= b
  {}

  lemma TenYearsInCalendar(off: int, now: nat)
    requires InCalendar(off, now)
    ensures EnvAt(off).tenYears(now) == TenYearsAfter(off, now) > now
    ensures InCalendar(off, TenYearsAfter(off, now))
  {
    hide TenYearsAfter;
    LaterInCalendar(off, now, TenYearsAfter(off, now));
  }

  lemma NextInCalendar(off: int, st: M.State, e: M.Entry)
    requires M.Valid(EnvAt(off), st) && e in st.entries && e.next != 0
    ensures InCalendar(off, e.next)
  {
    hide InCalendar, NextOf, M.Chain;
    var a := M.AnchorOf(e.admitted, e.fired);
    LaterInCalendar(off, a, e.next);
  }

  lemma ViewsAppend(es: seq<Entry>, e: Entry)
    ensures Views(es + [e]) == Views(es) + [e.View()]
  {
    hide Views;
  }
}

/**
 The event loop of crons/cron.go as a state machine: one step is one turn of the loop in `run`.

 Entries carry two history fields that the program does not have: the loop's `now` at admission,
 or when the loop was last started, and the instants at which the entry's job was started since.
 */
module CronModel {
  import opened Schedules

  datatype Entry = Entry(schedule: Schedule, next: nat, prev: nat, key: int,
                         admitted: nat, fired: seq<nat>) {
    /** The instant from which `next` was last computed. */
    function Anchor(): nat { AnchorOf(admitted, fired) }
  }

  /**
   What the loop calls: `Schedule.Next`, an interface method, and `now.AddDate(10, 0, 0)`.
   All the loop relies on is that both lead forward in time; zero from `next` means "never".
   */
  datatype Env = Env(next: (Schedule, nat) -> nat, tenYears: nat -> nat) {
    ghost predicate Lawful() {
      && (forall s, t: nat :: next(s, t) == 0 || t < next(s, t))
      && (forall t: nat :: t < tenYears(t))
    }
  }

  /** `ticks` are the effective times at which at least one job was started, oldest first. */
  datatype State = State(entries: seq<Entry>, now: nat, ticks: seq<nat>) {
    function LastTick(): nat { if ticks == [] then 0 else ticks[|ticks| - 1] }
  }

  // ---------- sorting ----------

  /** `byTime.Less`: by next time, the zero time last. */
  predicate Less(a: Entry, b: Entry) {
    if a.next == 0 then false
    else if b.next == 0 then true
    else a.next < b.next
  }

  /** `Less` is a strict weak order: irreflexive, and "not less" is transitive; zero comes last. */
  lemma LessIsStrictWeakOrder(a: Entry, b: Entry, c: Entry)
    ensures !Less(a, a)
    ensures Less(a, b) ==> !Less(b, a)
    ensures Less(a, b) && Less(b, c) ==> Less(a, c)
    ensures !Less(b, a) && !Less(c, b) ==> !Less(c, a)
    ensures b.next == 0 ==> !Less(b, a) && (a.next != 0 ==> Less(a, b))
  {}

  /** What `sort.Sort` guarantees of its result; it is not stable. */
  predicate Sorted(es: seq<Entry>) {
    forall i, j :: 0 <= i < j < |es| ==> !Less(es[j], es[i])
  }

  ghost predicate IsSortOf(es: seq<Entry>, sorted: seq<Entry>) {
    multiset(es) == multiset(sorted) && Sorted(sorted)
  }

  // ---------- the branches of the select statement ----------

  /** A sorted list sleeps until its first entry is due; with none due, for ten years. */
  predicate Idle(es: seq<Entry>) { es == [] || es[0].next == 0 }

  // ---------- the invariant ----------

  predicate Increasing(xs: seq<nat>) { forall i, j :: 0 <= i < j < |xs| ==> xs[i] < xs[j] }

  function AnchorOf(start: nat, fired: seq<nat>): nat { if fired == [] then start else fired[|fired| - 1] }

  /** The instants in `fired` are the iterates of `Next` from `start`. */
  predicate Chain(env: Env, s: Schedule, start: nat, fired: seq<nat>) {
    fired != [] ==>
      var front := fired[..|fired| - 1];
      Chain(env, s, start, front) && fired[|fired| - 1] == env.next(s, AnchorOf(start, front)) != 0
  }

  predicate ValidEntry(env: Env, e: Entry, now: nat, lastTick: nat, ticks: seq<nat>) {
    && e.admitted <= now
    && Chain(env, e.schedule, e.admitted, e.fired)
    && e.next == env.next(e.schedule, AnchorOf(e.admitted, e.fired))
    && (e.fired != [] ==> e.prev == AnchorOf(0, e.fired))
    && (e.next != 0 ==> lastTick < e.next)
    && (forall x <- e.fired :: x in ticks)
  }

  predicate ValidEntries(env: Env, es: seq<Entry>, now: nat, lastTick: nat, ticks: seq<nat>) {
    forall e <- es :: ValidEntry(env, e, now, lastTick, ticks)
  }

  predicate Valid(env: Env, st: State) {
    && st.LastTick() <= st.now
    && Increasing(st.ticks)
    && ValidEntries(env, st.entries, st.now, st.LastTick(), st.ticks)
  }

  // ---------- the branches of the select statement, continued ----------

  /** A timer tick for one due entry: start the job, then move `prev` and `next` on. */
  function Fire(env: Env, e: Entry, effective: nat): Entry {
    e.(prev := e.next, next := env.next(e.schedule, effective), fired := e.fired + [effective])
  }

  function FireIfDue(env: Env, e: Entry, effective: nat): Entry {
    if e.next == effective then Fire(env, e, effective) else e
  }

  /** The loop over the entries, which breaks at the first one that is not due. */
  function FireDue(env: Env, es: seq<Entry>, effective: nat): (r: seq<Entry>)
    ensures |r| == |es|
  {
    if es == [] || es[0].next != effective then es
    else [Fire(env, es[0], effective)] + FireDue(env, es[1..], effective)
  }

  function NewEntry(env: Env, schedule: Schedule, key: int, now: nat): Entry {
    StartEntry(env, WaitingEntry(schedule, key), now)
  }

  /** An entry that was added while the loop was not running. */
  function WaitingEntry(schedule: Schedule, key: int): Entry { Entry(schedule, 0, 0, key, 0, []) }

  function Waiting(jobs: seq<(Schedule, int)>): seq<Entry> {
    if jobs == [] then []
    else Waiting(jobs[..|jobs| - 1]) + [WaitingEntry(jobs[|jobs| - 1].0, jobs[|jobs| - 1].1)]
  }

  function StartEntry(env: Env, e: Entry, now: nat): Entry {
    e.(next := env.next(e.schedule, now), admitted := now, fired := [])
  }

  /** `run` before its first turn: every entry gets its next time. */
  function Started(env: Env, es: seq<Entry>, now: nat): (r: seq<Entry>)
    ensures |r| == |es| && forall i :: 0 <= i < |es| ==> r[i] == StartEntry(env, es[i], now)
  {
    if es == [] then [] else [StartEntry(env, es[0], now)] + Started(env, es[1..], now)
  }

  /** `RemoveCheckFunc`, on the fields of an entry: schedule, next, prev and job key. */
  type RemoveCheck = (Schedule, nat, nat, int) -> bool

  predicate Selected(remove: RemoveCheck, e: Entry) { remove(e.schedule, e.next, e.prev, e.key) }

  /** The entries that the removal callback does not select, in order. */
  function Keep(es: seq<Entry>, remove: RemoveCheck): seq<Entry> {
    if es == [] then []
    else if Selected(remove, es[0]) then Keep(es[1..], remove)
    else [es[0]] + Keep(es[1..], remove)
  }

  function Max(a: nat, b: nat): nat { if a < b then b else a }

  /**
   What the loop may receive.  The timer delivers no earlier than the effective time and the clock
   never runs backwards: `late` and `elapsed` are how far it has moved on.  `Restart` is a stop, the
   jobs that are added while the loop is stopped, and the next start.
   */
  datatype Event =
    | Timer(late: nat)
    | Add(schedule: Schedule, key: int, elapsed: nat)
    | Remove(remove: RemoveCheck, elapsed: nat)
    | Snapshot(elapsed: nat)
    | Restart(added: seq<(Schedule, int)>, elapsed: nat)

  /** The timer of a list with nothing due: ten years on, the first entry does not match. */
  function IdleTick(env: Env, st: State, late: nat): State
    requires Idle(st.entries)
  {
    var effective := env.tenYears(st.now);
    State(FireDue(env, st.entries, effective), Max(st.now, effective) + late, st.ticks)
  }

  /** The timer of a list whose first entry is due at `effective`. */
  function Tick(env: Env, st: State, late: nat): State
    requires !Idle(st.entries)
  {
    var effective := st.entries[0].next;
    State(FireDue(env, st.entries, effective), Max(st.now, effective) + late, st.ticks + [effective])
  }

  /** One turn of the loop from a sorted state. */
  function Select(env: Env, st: State, ev: Event): State {
    match ev
    case Timer(late) =>
      if Idle(st.entries) then IdleTick(env, st, late) else Tick(env, st, late)
    case Add(schedule, key, elapsed) =>
      State(st.entries + [NewEntry(env, schedule, key, st.now)], st.now + elapsed, st.ticks)
    case Remove(remove, elapsed) =>
      State(Keep(st.entries, remove), st.now + elapsed, st.ticks)
    case Snapshot(elapsed) =>
      st.(now := st.now + elapsed)
    case Restart(added, elapsed) =>
      State(Started(env, st.entries + Waiting(added), st.now + elapsed), st.now + elapsed, st.ticks)
  }

  /** One turn of the loop: sort, wait, act. */
  ghost predicate Step(env: Env, st: State, ev: Event, st': State) {
    exists es :: IsSortOf(st.entries, es) && st' == Select(env, st.(entries := es), ev)
  }

  function Start(env: Env, jobs: seq<(Schedule, int)>, now: nat): State {
    State(Started(env, Waiting(jobs), now), now, [])
  }

  /** A run: started with some jobs at some time, one turn for each event. */
  ghost predicate IsRun(env: Env, events: seq<Event>, states: seq<State>) {
    && |states| == |events| + 1
    && (exists jobs, now :: states[0] == Start(env, jobs, now))
    && forall i :: 0 <= i < |events| ==> Step(env, states[i], events[i], states[i + 1])
  }

  // ---------- what a tick does ----------

  lemma {:induction false} FireDueIs(env: Env, es: seq<Entry>, effective: nat)
    requires Sorted(es) && effective != 0
    requires forall e <- es :: e.next == 0 || effective <= e.next
    ensures forall i :: 0 <= i < |es| ==> FireDue(env, es, effective)[i] == FireIfDue(env, es[i], effective)
    decreases |es|
  {
    if es != [] {
      if es[0].next == effective {
        FireDueIs(env, es[1..], effective);
      } else {
        forall i | 0 < i < |es| ensures es[i].next != effective {
          assert !Less(es[i], es[0]);
          assert es[0] in es;
        }
      }
    }
  }

  /** A loop that handled the first `i` entries and then stopped has done what `FireDue` says. */
  lemma {:induction false} FireDuePrefix(env: Env, es: seq<Entry>, effective: nat, i: nat, r: seq<Entry>)
    requires i <= |es| == |r| && (i == |es| || es[i].next != effective)
    requires forall k :: 0 <= k < i ==> es[k].next == effective && r[k] == Fire(env, es[k], effective)
    requires forall k :: i <= k < |es| ==> r[k] == es[k]
    ensures r == FireDue(env, es, effective)
  {
    if i == 0 {
      assert r == es;
    } else {
      FireDuePrefix(env, es[1..], effective, i - 1, r[1..]);
      assert r == [r[0]] + r[1..];
    }
  }

  lemma EarliestFirst(es: seq<Entry>)
    requires Sorted(es) && !Idle(es)
    ensures forall e <- es :: e.next == 0 || es[0].next <= e.next
  {
    forall e <- es ensures e.next == 0 || es[0].next <= e.next {
      var i :| 0 <= i < |es| && es[i] == e;
      if i > 0 {
        assert !Less(es[i], es[0]);
      }
    }
  }

  /**
   A tick starts exactly the entries due at the minimum nonzero next time, wherever they stand in
   the list, and leaves all others alone: the early break loses none.  It is the first tick at that
   instant, and it comes no earlier.
   */
  lemma TickFiresExactlyTheDue(env: Env, st: State, late: nat)
    requires Valid(env, st) && Sorted(st.entries) && !Idle(st.entries)
    ensures forall e <- st.entries :: e.next == 0 || st.entries[0].next <= e.next
    ensures var effective, st' := st.entries[0].next, Tick(env, st, late);
      && |st'.entries| == |st.entries|
      && (forall i :: 0 <= i < |st.entries| ==> st'.entries[i] == FireIfDue(env, st.entries[i], effective))
      && st'.ticks == st.ticks + [effective] && st.LastTick() < effective
      && st.now <= st'.now && effective <= st'.now
  {
    EarliestFirst(st.entries);
    FireDueIs(env, st.entries, st.entries[0].next);
    assert st.entries[0] in st.entries;
  }

  /** With nothing scheduled a wake-up starts nothing. */
  lemma IdleTickFiresNothing(env: Env, st: State, late: nat)
    requires env.Lawful() && Idle(st.entries)
    ensures IdleTick(env, st, late) == st.(now := env.tenYears(st.now) + late)
  {
    assert st.now < env.tenYears(st.now);
  }

  // ---------- every turn keeps the invariant ----------

  lemma FireKeepsValid(env: Env, e: Entry, now: nat, last: nat, ticks: seq<nat>, at: nat)
    requires env.Lawful() && ValidEntry(env, e, now, last, ticks) && e.next != 0 && now <= at
    ensures ValidEntry(env, Fire(env, e, e.next), at, e.next, ticks + [e.next])
  {
    var f := e.fired + [e.next];
    assert f[..|f| - 1] == e.fired;
  }

  lemma TickKeepsValid(env: Env, st: State, late: nat)
    requires env.Lawful() && Valid(env, st) && Sorted(st.entries) && !Idle(st.entries)
    ensures Valid(env, Tick(env, st, late))
  {
    hide Fire, Chain, FireDue;
    var effective, st' := st.entries[0].next, Tick(env, st, late);
    TickFiresExactlyTheDue(env, st, late);
    forall e' <- st'.entries ensures ValidEntry(env, e', st'.now, effective, st'.ticks) {
      var i :| 0 <= i < |st'.entries| && st'.entries[i] == e';
      var e := st.entries[i];
      assert e in st.entries;
      if e.next == effective {
        FireKeepsValid(env, e, st.now, st.LastTick(), st.ticks, st'.now);
      }
    }
  }

  lemma {:induction false} KeepIsFilter(es: seq<Entry>, remove: RemoveCheck)
    ensures forall e :: e in Keep(es, remove) <==> e in es && !Selected(remove, e)
  {
    if es != [] {
      KeepIsFilter(es[1..], remove);
    }
  }

  /** The callback is asked about the entry's own schedule, next time, previous time and key. */
  lemma SelectedIs(e: Entry, s: Schedule, next: nat, prev: nat, key: int)
    ensures Selected((s': Schedule, n: nat, p: nat, k: int) => s' == s && n == next && p == prev && k == key, e)
       <==> e.schedule == s && e.next == next && e.prev == prev && e.key == key
  {}

  lemma {:induction false} KeepCounts(es: seq<Entry>, remove: RemoveCheck, e: Entry)
    ensures multiset(Keep(es, remove))[e] == if Selected(remove, e) then 0 else multiset(es)[e]
  {
    if es != [] {
      KeepCounts(es[1..], remove, e);
      assert es == [es[0]] + es[1..];
    }
  }

  lemma {:induction false} KeepSorted(es: seq<Entry>, remove: RemoveCheck)
    requires Sorted(es)
    ensures Sorted(Keep(es, remove))
  {
    if es != [] {
      var rest := Keep(es[1..], remove);
      KeepSorted(es[1..], remove);
      KeepIsFilter(es[1..], remove);
      forall i | 0 <= i < |rest| ensures !Less(rest[i], es[0]) {
        assert rest[i] in es[1..];
      }
    }
  }

  lemma KeepNothing(remove: RemoveCheck)
    ensures Keep([], remove) == []
  {}

  lemma {:induction false} KeepAppend(es: seq<Entry>, e: Entry, remove: RemoveCheck)
    ensures Keep(es + [e], remove) == Keep(es, remove) + if Selected(remove, e) then [] else [e]
  {
    if es == [] {
      assert es + [e] == [e];
    } else {
      KeepAppend(es[1..], e, remove);
      assert (es + [e])[1..] == es[1..] + [e];
    }
  }

  lemma AddKeepsValid(env: Env, st: State, ev: Event)
    requires env.Lawful() && Valid(env, st) && ev.Add?
    ensures Valid(env, Select(env, st, ev))
  {
    hide Increasing;
  }

  lemma RemoveKeepsValid(env: Env, st: State, ev: Event)
    requires Valid(env, st) && ev.Remove?
    ensures Valid(env, Select(env, st, ev))
  {
    hide Increasing, Chain, Keep;
    KeepIsFilter(st.entries, ev.remove);
  }

  lemma TimeKeepsValid(env: Env, st: State, later: nat)
    requires Valid(env, st) && st.now <= later
    ensures Valid(env, st.(now := later))
  {
    hide Increasing, Chain;
  }

  lemma SelectKeepsValid(env: Env, st: State, ev: Event)
    requires env.Lawful() && Valid(env, st) && Sorted(st.entries)
    ensures Valid(env, Select(env, st, ev))
  {
    hide ValidEntries, Increasing, FireDue, Keep, Started, Tick, IdleTick, Sorted;
    match ev
    case Timer(late) =>
      if Idle(st.entries) {
        IdleTickFiresNothing(env, st, late);
        TimeKeepsValid(env, st, env.tenYears(st.now) + late);
      } else {
        TickKeepsValid(env, st, late);
      }
    case Add(schedule, key, elapsed) => AddKeepsValid(env, st, ev);
    case Remove(remove, elapsed) => RemoveKeepsValid(env, st, ev);
    case Snapshot(elapsed) => TimeKeepsValid(env, st, st.now + elapsed);
    case Restart(added, elapsed) =>
      StartedIsValid(env, st.entries + Waiting(added), st.now + elapsed, st.ticks);
  }

  /** Whatever the entries were, a start at a time not before the last tick makes them valid. */
  lemma StartedIsValid(env: Env, es: seq<Entry>, now: nat, ticks: seq<nat>)
    requires env.Lawful() && Increasing(ticks) && State(es, now, ticks).LastTick() <= now
    ensures Valid(env, State(Started(env, es, now), now, ticks))
  {
    forall e <- Started(env, es, now) ensures ValidEntry(env, e, now, State(es, now, ticks).LastTick(), ticks) {
      var i :| 0 <= i < |es| && e == StartEntry(env, es[i], now);
    }
  }

  lemma SortKeepsValid(env: Env, st: State, es: seq<Entry>)
    requires Valid(env, st) && multiset(st.entries) == multiset(es)
    ensures Valid(env, st.(entries := es))
  {
    forall e | e in es ensures e in st.entries {
      assert e in multiset(es);
    }
  }

  lemma StepKeepsValid(env: Env, st: State, ev: Event, st': State)
    requires env.Lawful() && Valid(env, st) && Step(env, st, ev, st')
    ensures Valid(env, st')
  {
    hide Select, Valid;
    var es :| IsSortOf(st.entries, es) && st' == Select(env, st.(entries := es), ev);
    SortKeepsValid(env, st, es);
    SelectKeepsValid(env, st.(entries := es), ev);
  }

  /** Every state of every run is valid. */
  lemma {:induction false} RunIsValid(env: Env, events: seq<Event>, states: seq<State>, i: nat)
    requires env.Lawful() && IsRun(env, events, states) && i < |states|
    ensures Valid(env, states[i])
  {
    hide Valid, Step;
    if i == 0 {
      var jobs, now :| states[0] == Start(env, jobs, now);
      StartIsValid(env, jobs, now);
    } else {
      RunIsValid(env, events, states, i - 1);
      StepKeepsValid(env, states[i - 1], events[i - 1], states[i]);
    }
  }

  lemma StartIsValid(env: Env, jobs: seq<(Schedule, int)>, now: nat)
    requires env.Lawful()
    ensures Valid(env, Start(env, jobs, now))
  {
    StartedIsValid(env, Waiting(jobs), now, []);
  }

  // ---------- what the invariant says about a run ----------

  lemma {:induction false} ChainIncreases(env: Env, s: Schedule, start: nat, fired: seq<nat>)
    requires env.Lawful() && Chain(env, s, start, fired)
    ensures Increasing(fired) && start <= AnchorOf(start, fired)
    ensures forall x <- fired :: start < x <= AnchorOf(start, fired)
  {
    if fired != [] {
      var front, x := fired[..|fired| - 1], fired[|fired| - 1];
      ChainIncreases(env, s, start, front);
      assert env.next(s, AnchorOf(start, front)) == x;
      assert fired == front + [x];
      OneMoreIncreases(start, front, x);
    }
  }

  lemma OneMoreIncreases(start: nat, xs: seq<nat>, x: nat)
    requires Increasing(xs) && AnchorOf(start, xs) < x
    requires forall y <- xs :: start < y <= AnchorOf(start, xs)
    ensures Increasing(xs + [x])
  {
    forall i, j | 0 <= i < j < |xs + [x]| ensures (xs + [x])[i] < (xs + [x])[j] {
      if j == |xs| {
        assert xs[i] in xs;
      }
    }
  }

  lemma StepGrows(env: Env, st: State, ev: Event, st': State)
    requires Step(env, st, ev, st')
    ensures st.ticks <= st'.ticks && st.now <= st'.now
  {
    hide FireDue, Keep, Started, Waiting, NewEntry, Sorted;
    var es: seq<Entry> :| IsSortOf(st.entries, es) && st' == Select(env, st.(entries := es), ev);
  }

  /** Time and the list of ticks only grow, so a state's ticks are a prefix of every later state's. */
  lemma {:induction false} TicksOnlyGrow(env: Env, events: seq<Event>, states: seq<State>, i: nat, j: nat)
    requires IsRun(env, events, states) && i <= j < |states|
    ensures states[i].ticks <= states[j].ticks && states[i].now <= states[j].now
    decreases j
  {
    hide Step, Start;
    if i < j {
      TicksOnlyGrow(env, events, states, i, j - 1);
      StepGrows(env, states[j - 1], events[j - 1], states[j]);
    }
  }

  // ---------- previous times ----------

  predicate PrevFits(e: Entry) { e.prev == AnchorOf(0, e.fired) }

  lemma StepKeepsPrev(env: Env, st: State, ev: Event, st': State)
    requires Step(env, st, ev, st') && !ev.Restart? && forall e <- st.entries :: PrevFits(e)
    ensures forall e <- st'.entries :: PrevFits(e)
  {
    hide FireDue, Keep, Sorted, Less;
    var es: seq<Entry> :| IsSortOf(st.entries, es) && st' == Select(env, st.(entries := es), ev);
    forall e | e in es ensures PrevFits(e) {
      assert e in multiset(es);
    }
    match ev
    case Timer(late) =>
      FireDueKeepsPrev(env, es, if Idle(es) then env.tenYears(st.now) else es[0].next);
    case Add(schedule, key, elapsed) =>
    case Remove(remove, elapsed) => KeepIsFilter(es, remove);
    case Snapshot(elapsed) =>
  }

  lemma {:induction false} FireDueKeepsPrev(env: Env, es: seq<Entry>, effective: nat)
    requires forall e <- es :: PrevFits(e)
    ensures forall e <- FireDue(env, es, effective) :: PrevFits(e)
    decreases |es|
  {
    if es != [] && es[0].next == effective {
      FireDueKeepsPrev(env, es[1..], effective);
      assert PrevFits(es[0]);
    }
  }

  /** In a run without a restart an entry's previous time is its last start, and zero if it had none. */
  lemma {:induction false} PrevIsLastStart(env: Env, events: seq<Event>, states: seq<State>, i: nat)
    requires IsRun(env, events, states) && i < |states| && forall k :: 0 <= k < i ==> !events[k].Restart?
    ensures forall e <- states[i].entries :: PrevFits(e)
  {
    hide Step, Select;
    if i == 0 {
      var jobs, now :| states[0] == Start(env, jobs, now);
      WaitingIsNew(jobs);
    } else {
      PrevIsLastStart(env, events, states, i - 1);
      StepKeepsPrev(env, states[i - 1], events[i - 1], states[i]);
    }
  }

  lemma {:induction false} WaitingIsNew(jobs: seq<(Schedule, int)>)
    ensures forall i :: 0 <= i < |Waiting(jobs)| ==> Waiting(jobs)[i].prev == 0
  {
    if jobs != [] {
      WaitingIsNew(jobs[..|jobs| - 1]);
    }
  }

  // ---------- entries without a next time ----------

  /** The event starts the loop anew, or removes the entry. */
  predicate Revises(ev: Event, e: Entry) {
    ev.Restart? || (ev.Remove? && Selected(ev.remove, e))
  }

  lemma StepKeepsGivenUp(env: Env, st: State, ev: Event, st': State, e: Entry)
    requires env.Lawful() && Valid(env, st) && Step(env, st, ev, st')
    requires e in st.entries && e.next == 0 && !Revises(ev, e)
    ensures e in st'.entries
  {
    hide Valid, FireDue, Keep;
    var es: seq<Entry> :| IsSortOf(st.entries, es) && st' == Select(env, st.(entries := es), ev);
    SortKeepsValid(env, st, es);
    assert e in multiset(es);
    match ev
    case Timer(late) =>
      if Idle(es) {
        IdleTickFiresNothing(env, st.(entries := es), late);
      } else {
        TickFiresExactlyTheDue(env, st.(entries := es), late);
        var i :| 0 <= i < |es| && es[i] == e;
        assert st'.entries[i] == e;
      }
    case Add(schedule, key, elapsed) =>
    case Remove(remove, elapsed) => KeepIsFilter(es, remove);
    case Snapshot(elapsed) =>
  }

  /** An entry whose schedule has once answered "never" is never started again, until it is scheduled anew. */
  lemma {:induction false} GivenUpForGood(env: Env, events: seq<Event>, states: seq<State>, i: nat, j: nat, e: Entry)
    requires env.Lawful() && IsRun(env, events, states) && i <= j < |states|
    requires e in states[i].entries && e.next == 0 && forall k :: i <= k < j ==> !Revises(events[k], e)
    ensures e in states[j].entries
    decreases j
  {
    hide Valid, Step, Revises;
    if i < j {
      GivenUpForGood(env, events, states, i, j - 1, e);
      RunIsValid(env, events, states, j - 1);
      StepKeepsGivenUp(env, states[j - 1], events[j - 1], states[j], e);
    }
  }

  /** No entry of a run was admitted before the loop started. */
  lemma {:induction false} AdmittedSinceStart(env: Env, events: seq<Event>, states: seq<State>, i: nat)
    requires IsRun(env, events, states) && i < |states|
    ensures states[0].now <= states[i].now
    ensures forall e <- states[i].entries :: states[0].now <= e.admitted
  {
    hide Step, Select;
    TicksOnlyGrow(env, events, states, 0, i);
    if i == 0 {
      var jobs, now :| states[0] == Start(env, jobs, now);
    } else {
      AdmittedSinceStart(env, events, states, i - 1);
      StepAdmits(env, states[i - 1], events[i - 1], states[i], states[0].now);
    }
  }

  lemma StepAdmits(env: Env, st: State, ev: Event, st': State, start: nat)
    requires Step(env, st, ev, st') && start <= st.now && forall e <- st.entries :: start <= e.admitted
    ensures forall e <- st'.entries :: start <= e.admitted
  {
    hide FireDue, Keep, Started, Waiting, Sorted, Less;
    var es: seq<Entry> :| IsSortOf(st.entries, es) && st' == Select(env, st.(entries := es), ev);
    forall e | e in es ensures start <= e.admitted {
      assert e in multiset(es);
    }
    match ev
    case Timer(late) =>
      FireDueKeepsAdmitted(env, es, if Idle(es) then env.tenYears(st.now) else es[0].next);
    case Add(schedule, key, elapsed) =>
    case Remove(remove, elapsed) => KeepIsFilter(es, remove);
    case Snapshot(elapsed) =>
    case Restart(added, elapsed) =>
  }

  lemma {:induction false} FireDueKeepsAdmitted(env: Env, es: seq<Entry>, effective: nat)
    ensures forall i :: 0 <= i < |es| ==> FireDue(env, es, effective)[i].admitted == es[i].admitted
    decreases |es|
  {
    if es != [] && es[0].next == effective {
      FireDueKeepsAdmitted(env, es[1..], effective);
    }
  }

  /**
   Over a whole run the instants of the ticks strictly increase, and no entry has been started
   twice for one instant, before its admission, or at an instant that was not a tick.
   */
  lemma NoInstantTwice(env: Env, events: seq<Event>, states: seq<State>, i: nat)
    requires env.Lawful() && IsRun(env, events, states) && i < |states|
    ensures Increasing(states[i].ticks) && states[i].LastTick() <= states[i].now
    ensures forall e <- states[i].entries ::
              && (e.next != 0 ==> states[i].LastTick() < e.next)
              && Increasing(e.fired)
              && (forall x <- e.fired :: e.admitted < x && x in states[i].ticks)
  {
    hide Chain;
    RunIsValid(env, events, states, i);
    forall e <- states[i].entries
      ensures Increasing(e.fired) && forall x <- e.fired :: e.admitted < x
    {
      ChainIncreases(env, e.schedule, e.admitted, e.fired);
    }
  }
}

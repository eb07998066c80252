/**
 The job registry of jobs/cron.go: any number of threads call `AddJob` (under the lock: look up,
 parse, add, unlock) and `RemoveJob` (without it) while the scheduler's loop turns.
 */
module Registry {
  import opened Basics
  import opened SpecSchedules
  import opened Schedules
  import opened Parser
  import opened ParserLaws
  import opened CronModel
  import opened CronFires

  /** Where a call of `AddJob` is: waiting for the look-up, told that the key is free, or returning. */
  datatype Call =
    | Locked(key: int, spec: string)
    | KeyFree(key: int, spec: string)
    | Returning(added: bool)

  /** `holder` is the thread that holds the lock; only that thread is inside `AddJob`. */
  datatype World = World(cron: State, holder: Option<nat>, calls: map<nat, Call>)

  datatype Action =
    | Lock(t: nat, key: int, spec: string)
    | LookUp(t: nat, elapsed: nat)
    | Insert(t: nat, elapsed: nat)
    | Refuse(t: nat)
    | Unlock(t: nat)
    | RemoveJob(key: int, elapsed: nat)
    | Tick(late: nat)
    | List(elapsed: nat)

  function KeyIs(key: int): RemoveCheck { (s: Schedule, next: nat, prev: nat, k: int) => k == key }

  predicate HasKey(es: seq<Entry>, key: int) { exists e <- es :: e.key == key }

  /** `time.ParseDuration` */
  type Durations = string -> Option<int>

  /**
   One atomic step of one thread or of the loop.  A call that has found its key free goes on when, and
   only when, the parser has returned.
   */
  ghost predicate Act(env: Env, d: Durations, w: World, a: Action, w': World) {
    match a
    case Lock(t, key, spec) =>
      w.holder == None && t !in w.calls
      && w' == World(w.cron, Some(t), w.calls[t := Locked(key, spec)])
    case LookUp(t, elapsed) =>
      t in w.calls && w.calls[t].Locked?
      && Step(env, w.cron, Snapshot(elapsed), w'.cron) && w'.holder == w.holder
      && w'.calls == w.calls[t := if HasKey(w'.cron.entries, w.calls[t].key) then Returning(false)
                                  else KeyFree(w.calls[t].key, w.calls[t].spec)]
    case Insert(t, elapsed) =>
      t in w.calls && w.calls[t].KeyFree? && Parse(w.calls[t].spec, d).Value?
      && Step(env, w.cron, Add(Parse(w.calls[t].spec, d).value, w.calls[t].key, elapsed), w'.cron)
      && w'.holder == w.holder && w'.calls == w.calls[t := Returning(true)]
    case Refuse(t) =>
      t in w.calls && w.calls[t].KeyFree? && Parse(w.calls[t].spec, d).Panic?
      && w' == w.(calls := w.calls[t := Returning(false)])
    case Unlock(t) =>
      t in w.calls && w.calls[t].Returning? && w' == World(w.cron, None, w.calls - {t})
    case RemoveJob(key, elapsed) =>
      Step(env, w.cron, Remove(KeyIs(key), elapsed), w'.cron)
      && w'.holder == w.holder && w'.calls == w.calls
    case Tick(late) =>
      Step(env, w.cron, Timer(late), w'.cron) && w'.holder == w.holder && w'.calls == w.calls
    case List(elapsed) =>
      Step(env, w.cron, Snapshot(elapsed), w'.cron) && w'.holder == w.holder && w'.calls == w.calls
  }

  predicate UniqueKeys(es: seq<Entry>) {
    forall i, j :: 0 <= i < j < |es| ==> es[i].key != es[j].key
  }

  /** The lock excludes, and a key that was found free stays free. */
  predicate Inv(w: World) {
    && UniqueKeys(w.cron.entries)
    && w.calls.Keys == (if w.holder == None then {} else {w.holder.value})
    && (forall t :: t in w.calls && w.calls[t].KeyFree? ==> !HasKey(w.cron.entries, w.calls[t].key))
  }

  // ---------- what a turn of the loop does to the keys ----------

  lemma SortKeepsKeys(es: seq<Entry>, sorted: seq<Entry>)
    requires multiset(es) == multiset(sorted)
    ensures UniqueKeys(es) ==> UniqueKeys(sorted)
    ensures forall k :: HasKey(sorted, k) <==> HasKey(es, k)
  {
    SamePermuted(es, sorted);
    if UniqueKeys(es) {
      assert Distinct(es);
      forall i, j | 0 <= i < j < |sorted| ensures sorted[i].key != sorted[j].key {
        assert sorted[i] in es && sorted[j] in es;
        var x :| 0 <= x < |es| && es[x] == sorted[i];
        var y :| 0 <= y < |es| && es[y] == sorted[j];
      }
    }
  }

  lemma {:induction false} FireDueKeepsKeys(env: Env, es: seq<Entry>, effective: nat)
    ensures forall i :: 0 <= i < |es| ==> FireDue(env, es, effective)[i].key == es[i].key
  {
    if es != [] && es[0].next == effective {
      FireDueKeepsKeys(env, es[1..], effective);
    }
  }

  lemma {:induction false} KeepKeepsUnique(es: seq<Entry>, remove: RemoveCheck)
    requires UniqueKeys(es)
    ensures UniqueKeys(Keep(es, remove))
  {
    if es != [] {
      KeepKeepsUnique(es[1..], remove);
      KeepIsFilter(es[1..], remove);
      var rest := Keep(es[1..], remove);
      forall i | 0 <= i < |rest| ensures rest[i].key != es[0].key {
        assert rest[i] in es[1..];
      }
    }
  }

  predicate SameKeys(a: seq<Entry>, b: seq<Entry>) {
    |a| == |b| && forall i :: 0 <= i < |a| ==> a[i].key == b[i].key
  }

  lemma SameKeysAgree(a: seq<Entry>, b: seq<Entry>)
    requires SameKeys(a, b)
    ensures UniqueKeys(a) ==> UniqueKeys(b)
    ensures forall k :: HasKey(a, k) <==> HasKey(b, k)
  {
    forall k ensures HasKey(a, k) <==> HasKey(b, k) {
      if HasKey(a, k) {
        var i :| 0 <= i < |a| && a[i].key == k;
        assert b[i] in b;
      }
      if HasKey(b, k) {
        var i :| 0 <= i < |b| && b[i].key == k;
        assert a[i] in a;
      }
    }
  }

  /** Ticks and listings keep the keys, a removal takes out one key, an addition brings in one. */
  lemma StepKeys(env: Env, st: State, ev: Event, st': State)
    requires UniqueKeys(st.entries) && Step(env, st, ev, st')
    requires !ev.Restart? && (ev.Add? ==> !HasKey(st.entries, ev.key))
    ensures UniqueKeys(st'.entries)
    ensures ev.Timer? || ev.Snapshot? ==> forall k :: HasKey(st'.entries, k) <==> HasKey(st.entries, k)
    ensures ev.Add? ==> forall k :: HasKey(st'.entries, k) <==> k == ev.key || HasKey(st.entries, k)
    ensures ev.Remove? ==> forall k :: HasKey(st'.entries, k) ==> HasKey(st.entries, k)
  {
    hide FireDue, Keep;
    var es: seq<Entry> :| IsSortOf(st.entries, es) && st' == Select(env, st.(entries := es), ev);
    SortKeepsKeys(st.entries, es);
    match ev
    case Timer(late) =>
      var effective := if Idle(es) then env.tenYears(st.now) else es[0].next;
      FireDueKeepsKeys(env, es, effective);
      SameKeysAgree(es, st'.entries);
    case Add(schedule, key, elapsed) =>
      AddKey(es, NewEntry(env, schedule, key, st.now));
    case Remove(remove, elapsed) =>
      KeepKeepsUnique(es, remove);
      KeepIsFilter(es, remove);
    case Snapshot(elapsed) =>
  }

  lemma AddKey(es: seq<Entry>, e: Entry)
    ensures forall k :: HasKey(es + [e], k) <==> k == e.key || HasKey(es, k)
  {
    forall k ensures HasKey(es + [e], k) <==> k == e.key || HasKey(es, k) {
      assert forall x :: x in es + [e] <==> x in es || x == e;
    }
  }

  /** The removal of a job takes out its key, and no other. */
  lemma RemoveOneKey(env: Env, st: State, key: int, elapsed: nat, st': State)
    requires Step(env, st, Remove(KeyIs(key), elapsed), st')
    ensures forall k :: HasKey(st'.entries, k) <==> k != key && HasKey(st.entries, k)
  {
    hide Keep;
    var ev := Remove(KeyIs(key), elapsed);
    var es: seq<Entry> :| IsSortOf(st.entries, es) && st' == Select(env, st.(entries := es), ev);
    SortKeepsKeys(st.entries, es);
    KeepIsFilter(es, KeyIs(key));
  }

  // ---------- every interleaving ----------

  lemma ActKeepsInv(env: Env, d: Durations, w: World, a: Action, w': World)
    requires Inv(w) && Act(env, d, w, a, w')
    ensures Inv(w')
  {
    hide Step, Parse;
    match a
    case Lock(t, key, spec) =>
    case LookUp(t, elapsed) => StepKeys(env, w.cron, Snapshot(elapsed), w'.cron);
    case Insert(t, elapsed) =>
      StepKeys(env, w.cron, Add(Parse(w.calls[t].spec, d).value, w.calls[t].key, elapsed), w'.cron);
    case Refuse(t) =>
    case Unlock(t) =>
    case RemoveJob(key, elapsed) => StepKeys(env, w.cron, Remove(KeyIs(key), elapsed), w'.cron);
    case Tick(late) => StepKeys(env, w.cron, Timer(late), w'.cron);
    case List(elapsed) => StepKeys(env, w.cron, Snapshot(elapsed), w'.cron);
  }

  /** A run of the server: the loop is started with no entries, then anyone may act. */
  ghost predicate IsHistory(env: Env, d: Durations, actions: seq<Action>, worlds: seq<World>) {
    && |worlds| == |actions| + 1
    && (exists now :: worlds[0] == World(Start(env, [], now), None, map[]))
    && forall i :: 0 <= i < |actions| ==> Act(env, d, worlds[i], actions[i], worlds[i + 1])
  }

  /** At no point of any interleaving do two entries have the same key. */
  lemma {:induction false} AtMostOneEntryPerKey(env: Env, d: Durations, actions: seq<Action>, worlds: seq<World>,
                                                i: nat)
    requires IsHistory(env, d, actions, worlds) && i < |worlds|
    ensures Inv(worlds[i])
  {
    hide Act;
    if i > 0 {
      AtMostOneEntryPerKey(env, d, actions, worlds, i - 1);
      ActKeepsInv(env, d, worlds[i - 1], actions[i - 1], worlds[i]);
    }
  }

  /** The scheduler underneath stays in a valid state. */
  lemma {:induction false} SchedulerStaysValid(env: Env, d: Durations, actions: seq<Action>, worlds: seq<World>,
                                               i: nat)
    requires env.Lawful() && IsHistory(env, d, actions, worlds) && i < |worlds|
    ensures Valid(env, worlds[i].cron)
  {
    hide Valid, Step, Parse;
    if i == 0 {
      var now :| worlds[0] == World(Start(env, [], now), None, map[]);
      StartIsValid(env, [], now);
    } else {
      SchedulerStaysValid(env, d, actions, worlds, i - 1);
      assert Act(env, d, worlds[i - 1], actions[i - 1], worlds[i]);
      if worlds[i].cron != worlds[i - 1].cron {
        var ev :| Step(env, worlds[i - 1].cron, ev, worlds[i].cron);
        StepKeepsValid(env, worlds[i - 1].cron, ev, worlds[i].cron);
      }
    }
  }

  // ---------- what is fired ----------

  /** Seen from the scheduler, any history is a run of its loop. */
  lemma {:induction false} HistoryIsRun(env: Env, d: Durations, actions: seq<Action>, worlds: seq<World>, i: nat)
    returns (events: seq<Event>, states: seq<State>)
    requires IsHistory(env, d, actions, worlds) && i < |worlds|
    ensures |states| == |events| + 1 && IsRun(env, events, states)
    ensures states[0] == worlds[0].cron && states[|events|] == worlds[i].cron
  {
    hide Step, Parse;
    if i == 0 {
      events, states := [], [worlds[0].cron];
    } else {
      events, states := HistoryIsRun(env, d, actions, worlds, i - 1);
      assert Act(env, d, worlds[i - 1], actions[i - 1], worlds[i]);
      if worlds[i].cron != worlds[i - 1].cron {
        var ev :| Step(env, worlds[i - 1].cron, ev, worlds[i].cron);
        events, states := events + [ev], states + [worlds[i].cron];
      }
    }
  }

  /** The schedule comes from a text that the parser accepts. */
  ghost predicate IsParsed(d: Durations, s: Schedule) { exists spec :: Parse(spec, d) == Value(s) }

  lemma StepAddsParsed(env: Env, d: Durations, st: State, ev: Event, st': State)
    requires Step(env, st, ev, st') && !ev.Restart? && (ev.Add? ==> IsParsed(d, ev.schedule))
    requires forall e <- st.entries :: IsParsed(d, e.schedule)
    ensures forall e <- st'.entries :: IsParsed(d, e.schedule)
  {
    hide IsParsed, FireDue, Keep;
    var es: seq<Entry> :| IsSortOf(st.entries, es) && st' == Select(env, st.(entries := es), ev);
    forall e | e in es ensures IsParsed(d, e.schedule) {
      assert e in multiset(es);
    }
    match ev
    case Timer(late) =>
      FireDueKeepsSchedules(env, es, if Idle(es) then env.tenYears(st.now) else es[0].next);
    case Add(schedule, key, elapsed) =>
    case Remove(remove, elapsed) => KeepIsFilter(es, remove);
    case Snapshot(elapsed) =>
  }

  lemma {:induction false} FireDueKeepsSchedules(env: Env, es: seq<Entry>, effective: nat)
    ensures forall i :: 0 <= i < |es| ==> FireDue(env, es, effective)[i].schedule == es[i].schedule
    decreases |es|
  {
    if es != [] && es[0].next == effective {
      FireDueKeepsSchedules(env, es[1..], effective);
    }
  }

  lemma {:induction false} AllAreParsed(env: Env, d: Durations, actions: seq<Action>, worlds: seq<World>, i: nat)
    requires IsHistory(env, d, actions, worlds) && i < |worlds|
    ensures forall e <- worlds[i].cron.entries :: IsParsed(d, e.schedule)
  {
    hide Step, Parse;
    if i > 0 {
      AllAreParsed(env, d, actions, worlds, i - 1);
      var w, a, w' := worlds[i - 1], actions[i - 1], worlds[i];
      assert Act(env, d, w, a, w');
      match a
      case Lock(t, key, spec) =>
      case LookUp(t, elapsed) => StepAddsParsed(env, d, w.cron, Snapshot(elapsed), w'.cron);
      case Insert(t, elapsed) =>
        StepAddsParsed(env, d, w.cron, Add(Parse(w.calls[t].spec, d).value, w.calls[t].key, elapsed), w'.cron);
      case Refuse(t) =>
      case Unlock(t) =>
      case RemoveJob(key, elapsed) => StepAddsParsed(env, d, w.cron, Remove(KeyIs(key), elapsed), w'.cron);
      case Tick(late) => StepAddsParsed(env, d, w.cron, Timer(late), w'.cron);
      case List(elapsed) => StepAddsParsed(env, d, w.cron, Snapshot(elapsed), w'.cron);
    }
  }

  /**
   In every interleaving of callers and loop, every entry comes from an accepted text, and its job was
   started at exactly its due instants so far, each once and in increasing order.
   */
  lemma EveryHistoryFiresAsDue(off: int, d: Durations, actions: seq<Action>, worlds: seq<World>, i: nat, e: Entry)
    requires off % 3600 == 0 && IsHistory(EnvAt(off), d, actions, worlds) && InCalendar(off, worlds[0].cron.now)
    requires i < |worlds| && e in worlds[i].cron.entries
    ensures IsParsed(d, e.schedule) && FiredAsDue(off, e, worlds[i].cron.LastTick())
  {
    hide EnvAt, IsHistory, IsRun, Parse, FiredAsDue, InCalendar, ValidSchedule;
    AllAreParsed(EnvAt(off), d, actions, worlds, i);
    var spec :| Parse(spec, d) == Value(e.schedule);
    ParsedIsValid(spec, d);
    var events, states := HistoryIsRun(EnvAt(off), d, actions, worlds, i);
    EveryRunFiresExactlyOnce(off, events, states, |events|, e);
  }

  // ---------- removals among everything else ----------

  /** The action brings the key into the table. */
  predicate Inserts(w: World, a: Action, key: int) {
    a.Insert? && a.t in w.calls && w.calls[a.t].KeyFree? && w.calls[a.t].key == key
  }

  /** What one action does to one key. */
  lemma ActOnKey(env: Env, d: Durations, w: World, a: Action, w': World, key: int)
    requires Inv(w) && Act(env, d, w, a, w')
    ensures HasKey(w'.cron.entries, key)
       <==> Inserts(w, a, key) || (HasKey(w.cron.entries, key) && !(a.RemoveJob? && a.key == key))
  {
    hide Step, Parse;
    match a
    case Lock(t, k, spec) =>
    case LookUp(t, elapsed) => StepKeys(env, w.cron, Snapshot(elapsed), w'.cron);
    case Insert(t, elapsed) =>
      StepKeys(env, w.cron, Add(Parse(w.calls[t].spec, d).value, w.calls[t].key, elapsed), w'.cron);
    case Refuse(t) =>
    case Unlock(t) =>
    case RemoveJob(k, elapsed) => RemoveOneKey(env, w.cron, k, elapsed, w'.cron);
    case Tick(late) => StepKeys(env, w.cron, Timer(late), w'.cron);
    case List(elapsed) => StepKeys(env, w.cron, Snapshot(elapsed), w'.cron);
  }

  /** A call of `AddJob` answers true if and only if it brought its key into the table. */
  lemma AnswerTellsInsertion(env: Env, d: Durations, w: World, a: Action, w': World, t: nat)
    requires Inv(w) && Act(env, d, w, a, w')
    requires t in w.calls && !w.calls[t].Returning? && t in w'.calls && w'.calls[t].Returning?
    ensures w'.calls[t].added <==> HasKey(w'.cron.entries, w.calls[t].key) && !HasKey(w.cron.entries, w.calls[t].key)
  {
    hide Step, Parse, HasKey;
    ActOnKey(env, d, w, a, w', w.calls[t].key);
  }

  /** A removed key is gone, whatever else happens, until a call of `AddJob` brings it back. */
  lemma {:induction false} RemovedStaysAway(env: Env, d: Durations, actions: seq<Action>, worlds: seq<World>,
                                            key: int, i: nat, j: nat)
    requires IsHistory(env, d, actions, worlds) && i < j < |worlds|
    requires actions[i].RemoveJob? && actions[i].key == key
    requires forall k :: i < k < j ==> !Inserts(worlds[k], actions[k], key)
    ensures !HasKey(worlds[j].cron.entries, key)
    decreases j
  {
    hide Act, HasKey;
    AtMostOneEntryPerKey(env, d, actions, worlds, j - 1);
    ActOnKey(env, d, worlds[j - 1], actions[j - 1], worlds[j], key);
    if i < j - 1 {
      RemovedStaysAway(env, d, actions, worlds, key, i, j - 1);
    }
  }

  /** A key that is not removed stays, whatever other keys are removed meanwhile. */
  lemma {:induction false} OthersStay(env: Env, d: Durations, actions: seq<Action>, worlds: seq<World>,
                                      key: int, i: nat, j: nat)
    requires IsHistory(env, d, actions, worlds) && i <= j < |worlds| && HasKey(worlds[i].cron.entries, key)
    requires forall k :: i <= k < j ==> !(actions[k].RemoveJob? && actions[k].key == key)
    ensures HasKey(worlds[j].cron.entries, key)
    decreases j
  {
    hide Act, HasKey;
    if i < j {
      OthersStay(env, d, actions, worlds, key, i, j - 1);
      AtMostOneEntryPerKey(env, d, actions, worlds, j - 1);
      ActOnKey(env, d, worlds[j - 1], actions[j - 1], worlds[j], key);
    }
  }

  // ---------- the lock and the parser ----------

  /**
   Once a call whose spec has a step of 0 has found its key free, it keeps the lock for good: no other
   call of `AddJob` gets anywhere, and no key ever enters the table again.
   */
  lemma {:induction false} StuckParserKeepsTheLock(env: Env, d: Durations, actions: seq<Action>, worlds: seq<World>,
                                                   t: nat, i: nat, j: nat)
    requires IsHistory(env, d, actions, worlds) && i <= j < |worlds|
    requires t in worlds[i].calls && worlds[i].calls[t].KeyFree? && NeverParsed(worlds[i].calls[t].spec)
    ensures worlds[j].holder == Some(t) && worlds[j].calls == worlds[i].calls
    ensures forall key :: HasKey(worlds[j].cron.entries, key) ==> HasKey(worlds[i].cron.entries, key)
    decreases j
  {
    hide Step, Parse, HasKey, NeverParsed;
    AtMostOneEntryPerKey(env, d, actions, worlds, i);
    if i < j {
      StuckParserKeepsTheLock(env, d, actions, worlds, t, i, j - 1);
      ParseReturnsUnless(worlds[i].calls[t].spec, d);
      AtMostOneEntryPerKey(env, d, actions, worlds, j - 1);
      assert Act(env, d, worlds[j - 1], actions[j - 1], worlds[j]);
      forall key | HasKey(worlds[j].cron.entries, key) ensures HasKey(worlds[i].cron.entries, key) {
        ActOnKey(env, d, worlds[j - 1], actions[j - 1], worlds[j], key);
      }
    }
  }
}

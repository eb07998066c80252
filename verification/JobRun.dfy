/**
 `Job.Run` of jobs/job.go under any interleaving: the worker-pool semaphore and the per-job status.

 Every run passes through the same points; between any two of them other runs may move.
 A body that panics unwinds through the same deferred calls as one that returns.
 */
module JobRun {
  import opened Basics

  /** Where a run is. */
  datatype Point =
    | Arrived                    // about to look at `j.Status`
    | Waiting                    // about to put a token into the pool
    | Holding                    // has its token
    | Inside                     // has counted itself in `j.Status`; the body runs
    | Unwinding(panicked: bool)  // the body is over; `j.Status--` comes first
    | Uncounted(panicked: bool)  // the token goes back next
    | Finished(ran: bool)

  datatype Run = Run(job: int, concurrent: bool, at: Point)

  /** `capacity` is `None` when the pool is not configured; `status` lists the nonzero counts. */
  datatype World = World(capacity: Option<nat>, tokens: int, status: map<int, int>, runs: map<nat, Run>) {
    function Status(job: int): int { if job in status then status[job] else 0 }

    function Moved(r: nat, at: Point): World
      requires r in runs
    {
      this.(runs := runs[r := runs[r].(at := at)])
    }
  }

  datatype Action =
    | Arrive(r: nat, job: int, concurrent: bool)
    | Look(r: nat)
    | Acquire(r: nat)
    | Count(r: nat)
    | End(r: nat, panics: bool)
    | Uncount(r: nat)
    | Release(r: nat)

  predicate Enabled(w: World, a: Action) {
    match a
    case Arrive(r, _, _) => r !in w.runs
    case Look(r) => r in w.runs && w.runs[r].at == Arrived
    case Acquire(r) => r in w.runs && w.runs[r].at == Waiting && (w.capacity.Some? ==> w.tokens < w.capacity.value)
    case Count(r) => r in w.runs && w.runs[r].at == Holding
    case End(r, _) => r in w.runs && w.runs[r].at == Inside
    case Uncount(r) => r in w.runs && w.runs[r].at.Unwinding?
    case Release(r) => r in w.runs && w.runs[r].at.Uncounted? && (w.capacity.Some? ==> w.tokens > 0)
  }

  /** One atomic step of one run. */
  function Act(w: World, a: Action): World
    requires Enabled(w, a)
  {
    match a
    case Arrive(r, job, concurrent) => w.(runs := w.runs[r := Run(job, concurrent, Arrived)])
    case Look(r) =>
      if !w.runs[r].concurrent && w.Status(w.runs[r].job) > 0 then w.Moved(r, Finished(false))
      else w.Moved(r, Waiting)
    case Acquire(r) =>
      w.Moved(r, Holding).(tokens := if w.capacity.Some? then w.tokens + 1 else w.tokens)
    case Count(r) =>
      w.Moved(r, Inside).(status := w.status[w.runs[r].job := w.Status(w.runs[r].job) + 1])
    case End(r, panics) => w.Moved(r, Unwinding(panics))
    case Uncount(r) =>
      w.Moved(r, Uncounted(w.runs[r].at.panicked)).(status := w.status[w.runs[r].job := w.Status(w.runs[r].job) - 1])
    case Release(r) =>
      w.Moved(r, Finished(true)).(tokens := if w.capacity.Some? then w.tokens - 1 else w.tokens)
  }

  // ---------- the counting invariant ----------

  predicate HasToken(at: Point) { at.Holding? || at.Inside? || at.Unwinding? || at.Uncounted? }

  predicate IsCounted(at: Point) { at.Inside? || at.Unwinding? }

  function Holders(w: World): set<nat> { set r | r in w.runs && HasToken(w.runs[r].at) }

  function Counted(w: World, job: int): set<nat> {
    set r | r in w.runs && w.runs[r].job == job && IsCounted(w.runs[r].at)
  }

  /** Tokens are the runs between acquire and release; a job's status is its runs inside the section. */
  ghost predicate Inv(w: World) {
    && w.tokens == (if w.capacity.Some? then |Holders(w)| else 0)
    && (w.capacity.Some? ==> w.tokens <= w.capacity.value)
    && forall job :: w.Status(job) == |Counted(w, job)|
  }

  lemma MoveChangesSets(w: World, r: nat, at: Point)
    requires r in w.runs
    ensures var w' := w.Moved(r, at);
      && Holders(w') == (if HasToken(at) then Holders(w) + {r} else Holders(w) - {r})
      && (forall job :: job != w.runs[r].job ==> Counted(w', job) == Counted(w, job))
      && Counted(w', w.runs[r].job)
         == if IsCounted(at) then Counted(w, w.runs[r].job) + {r} else Counted(w, w.runs[r].job) - {r}
  {
    var w' := w.Moved(r, at);
    forall job | job != w.runs[r].job ensures Counted(w', job) == Counted(w, job) {}
  }

  function One(b: bool): int { if b then 1 else 0 }

  /** A run moves, and tokens and status follow it. */
  lemma MoveKeepsInv(w: World, r: nat, at: Point, w': World)
    requires Inv(w) && r in w.runs && w'.capacity == w.capacity && w'.runs == w.Moved(r, at).runs
    requires w'.tokens - w.tokens == if w.capacity.Some? then One(HasToken(at)) - One(HasToken(w.runs[r].at)) else 0
    requires w.capacity.Some? ==> w'.tokens <= w.capacity.value
    requires forall job :: w'.Status(job) - w.Status(job)
                        == if job == w.runs[r].job then One(IsCounted(at)) - One(IsCounted(w.runs[r].at)) else 0
    ensures Inv(w')
  {
    HoldersFollow(w, r, at, w');
    forall job ensures w'.Status(job) == |Counted(w', job)| {
      CountedFollow(w, r, at, w', job);
    }
  }

  lemma HoldersFollow(w: World, r: nat, at: Point, w': World)
    requires r in w.runs && w'.runs == w.Moved(r, at).runs
    ensures |Holders(w')| - |Holders(w)| == One(HasToken(at)) - One(HasToken(w.runs[r].at))
  {
    MoveChangesSets(w, r, at);
    assert Holders(w') == Holders(w.Moved(r, at));
    assert r in Holders(w) <==> HasToken(w.runs[r].at);
    OneElement(Holders(w), r);
  }

  lemma CountedFollow(w: World, r: nat, at: Point, w': World, job: int)
    requires r in w.runs && w'.runs == w.Moved(r, at).runs
    ensures |Counted(w', job)| - |Counted(w, job)|
         == if job == w.runs[r].job then One(IsCounted(at)) - One(IsCounted(w.runs[r].at)) else 0
  {
    MoveChangesSets(w, r, at);
    assert Counted(w', job) == Counted(w.Moved(r, at), job);
    assert r in Counted(w, job) <==> job == w.runs[r].job && IsCounted(w.runs[r].at);
    OneElement(Counted(w, job), r);
  }

  lemma ActKeepsInv(w: World, a: Action)
    requires Inv(w) && Enabled(w, a)
    ensures Inv(Act(w, a))
  {
    hide Inv;
    var w' := Act(w, a);
    if a.Arrive? {
      ArrivalKeepsInv(w, a.r, Run(a.job, a.concurrent, Arrived));
    } else {
      TokensWithinCapacity(w);
      MoveKeepsInv(w, a.r, w'.runs[a.r].at, w');
    }
  }

  predicate SomeInside(w: World, job: int) { exists x <- w.runs :: w.runs[x].job == job && IsCounted(w.runs[x].at) }

  /** A run is skipped only if it must not overlap, and only because another run of its job is inside. */
  lemma LookDecides(w: World, r: nat)
    requires Inv(w) && Enabled(w, Look(r))
    ensures var run := w.runs[r];
            Act(w, Look(r)).runs
            == w.runs[r := run.(at := if !run.concurrent && SomeInside(w, run.job) then Finished(false) else Waiting)]
  {
    var run := w.runs[r];
    if x :| x in w.runs && w.runs[x].job == run.job && IsCounted(w.runs[x].at) {
      assert x in Counted(w, run.job);
    } else {
      assert Counted(w, run.job) == {};
    }
  }

  lemma TokensWithinCapacity(w: World)
    requires Inv(w)
    ensures w.capacity.Some? ==> w.tokens <= w.capacity.value
  {}

  lemma ArrivalKeepsInv(w: World, r: nat, run: Run)
    requires Inv(w) && r !in w.runs && run.at == Arrived
    ensures Inv(w.(runs := w.runs[r := run]))
  {
    var w' := w.(runs := w.runs[r := run]);
    assert Holders(w') == Holders(w);
    forall job ensures Counted(w', job) == Counted(w, job) {}
  }

  /** The pool exists only with a positive size. */
  predicate IsInitial(w: World) {
    (w.capacity.Some? ==> w.capacity.value > 0) && w == World(w.capacity, 0, map[], map[])
  }

  predicate IsHistory(actions: seq<Action>, worlds: seq<World>)
    ensures IsHistory(actions, worlds) ==> |worlds| == |actions| + 1
  {
    && |worlds| == |actions| + 1
    && IsInitial(worlds[0])
    && forall i :: 0 <= i < |actions| ==> Enabled(worlds[i], actions[i]) && worlds[i + 1] == Act(worlds[i], actions[i])
  }

  /** The counts are right at every point of every interleaving of any number of runs. */
  lemma {:induction false} CountsAreRight(actions: seq<Action>, worlds: seq<World>, i: nat)
    requires IsHistory(actions, worlds) && i < |worlds|
    ensures Inv(worlds[i]) && worlds[i].capacity == worlds[0].capacity
    ensures worlds[i].capacity.Some? ==> worlds[i].capacity.value > 0
  {
    if i == 0 {
      assert Holders(worlds[0]) == {};
      forall job ensures Counted(worlds[0], job) == {} {}
    } else {
      CountsAreRight(actions, worlds, i - 1);
      ActKeepsInv(worlds[i - 1], actions[i - 1]);
    }
  }

  /** When all runs are over, whether they returned, panicked or were skipped, everything is back to zero. */
  lemma AllReturnedMeansZero(w: World)
    requires Inv(w) && forall r <- w.runs :: w.runs[r].at.Finished?
    ensures w.tokens == 0 && forall job :: w.Status(job) == 0
  {
    assert Holders(w) == {};
    forall job ensures w.Status(job) == 0 {
      assert Counted(w, job) == {};
    }
  }

  /** As long as some run is not over, some run can move: a full pool has a holder that is not waiting. */
  lemma NoDeadlock(w: World, r: nat) returns (a: Action)
    requires Inv(w) && (w.capacity.Some? ==> w.capacity.value > 0)
    requires r in w.runs && !w.runs[r].at.Finished?
    ensures Enabled(w, a) && !a.Arrive?
  {
    match w.runs[r].at
    case Arrived => a := Look(r);
    case Waiting =>
      if w.capacity.None? || w.tokens < w.capacity.value {
        a := Acquire(r);
      } else {
        assert Holders(w) != {};
        var h :| h in Holders(w);
        a := MoveOfHolder(w, h);
      }
    case Holding => a := Count(r);
    case Inside => a := End(r, false);
    case Unwinding(_) => a := Uncount(r);
    case Uncounted(_) => a := MoveOfHolder(w, r);
  }

  lemma MoveOfHolder(w: World, h: nat) returns (a: Action)
    requires Inv(w) && h in w.runs && HasToken(w.runs[h].at)
    ensures Enabled(w, a) && !a.Arrive?
  {
    match w.runs[h].at
    case Holding => a := Count(h);
    case Inside => a := End(h, false);
    case Unwinding(_) => a := Uncount(h);
    case Uncounted(_) =>
      assert h in Holders(w);
      a := Release(h);
  }

  // ---------- every schedule ends ----------

  /** How many steps a run still has ahead of it, at most. */
  function Ahead(at: Point): nat {
    match at
    case Arrived => 6
    case Waiting => 5
    case Holding => 4
    case Inside => 3
    case Unwinding(_) => 2
    case Uncounted(_) => 1
    case Finished(_) => 0
  }

  function StillAhead(w: World, k: nat): set<nat> { set r | r in w.runs && Ahead(w.runs[r].at) >= k }

  /** The steps ahead of all runs together. */
  function Work(w: World): nat { WorkFrom(w, 1) }

  function WorkFrom(w: World, k: nat): nat
    decreases 7 - k
  {
    if k >= 7 then 0 else |StillAhead(w, k)| + WorkFrom(w, k + 1)
  }

  lemma AheadFollows(w: World, r: nat, at: Point, k: nat)
    requires r in w.runs
    ensures |StillAhead(w.Moved(r, at), k)| - |StillAhead(w, k)|
         == One(Ahead(at) >= k) - One(Ahead(w.runs[r].at) >= k)
  {
    OneElement(StillAhead(w, k), r);
    assert StillAhead(w.Moved(r, at), k)
        == if Ahead(at) >= k then StillAhead(w, k) + {r} else StillAhead(w, k) - {r};
  }

  lemma {:induction false} WorkShrinks(w: World, r: nat, at: Point, k: nat)
    requires r in w.runs && Ahead(at) < Ahead(w.runs[r].at)
    ensures WorkFrom(w.Moved(r, at), k) <= WorkFrom(w, k)
    ensures k <= Ahead(w.runs[r].at) ==> WorkFrom(w.Moved(r, at), k) < WorkFrom(w, k)
    decreases 7 - k
  {
    hide StillAhead;
    if k < 7 {
      WorkShrinks(w, r, at, k + 1);
      AheadFollows(w, r, at, k);
    }
  }

  /** Whatever moves, there is less to do afterwards. */
  lemma ActShrinks(w: World, a: Action)
    requires Enabled(w, a) && !a.Arrive?
    ensures Work(Act(w, a)) < Work(w)
  {
    var w' := Act(w, a);
    var at := w'.runs[a.r].at;
    WorkShrinks(w, a.r, at, 1);
    assert w'.runs == w.Moved(a.r, at).runs;
    SameWork(w', w.Moved(a.r, at), 1);
  }

  lemma {:induction false} SameWork(a: World, b: World, k: nat)
    requires a.runs == b.runs
    ensures WorkFrom(a, k) == WorkFrom(b, k)
    decreases 7 - k
  {
    if k < 7 {
      assert StillAhead(a, k) == StillAhead(b, k);
      SameWork(a, b, k + 1);
    }
  }

  /** What the server does from `w` on while no new run comes. */
  predicate IsDrain(w: World, actions: seq<Action>, worlds: seq<World>) {
    && |worlds| == |actions| + 1 && worlds[0] == w
    && forall i :: 0 <= i < |actions| ==>
         !actions[i].Arrive? && Enabled(worlds[i], actions[i]) && worlds[i + 1] == Act(worlds[i], actions[i])
  }

  /**
   Once no new runs come, every schedule ends after at most `Work(w)` steps, and where it can go no
   further all runs are over and all counts are back to zero.
   */
  lemma {:induction false} EveryScheduleEnds(w: World, actions: seq<Action>, worlds: seq<World>)
    requires Inv(w) && (w.capacity.Some? ==> w.capacity.value > 0) && IsDrain(w, actions, worlds)
    ensures var last := worlds[|actions|];
            && |actions| + Work(last) <= Work(w) && Inv(last) && last.capacity == w.capacity
            && ((forall a :: Enabled(last, a) ==> a.Arrive?) ==>
                  && last.runs.Keys == w.runs.Keys && (forall r <- last.runs :: last.runs[r].at.Finished?)
                  && last.tokens == 0 && forall job :: last.Status(job) == 0)
  {
    hide Inv, Work;
    Drained(w, actions, worlds);
    var last := worlds[|actions|];
    if forall a :: Enabled(last, a) ==> a.Arrive? {
      forall r <- last.runs ensures last.runs[r].at.Finished? {
        if !last.runs[r].at.Finished? {
          var a := NoDeadlock(last, r);
        }
      }
      AllReturnedMeansZero(last);
    }
  }

  lemma {:induction false} Drained(w: World, actions: seq<Action>, worlds: seq<World>)
    requires Inv(w) && IsDrain(w, actions, worlds)
    ensures var last := worlds[|actions|];
            && |actions| + Work(last) <= Work(w) && Inv(last)
            && last.capacity == w.capacity && last.runs.Keys == w.runs.Keys
    decreases |actions|
  {
    hide Inv, Work;
    if actions != [] {
      var w' := Act(w, actions[0]);
      ActKeepsInv(w, actions[0]);
      ActShrinks(w, actions[0]);
      assert worlds[1..][|actions| - 1] == worlds[|actions|];
      Drained(w', actions[1..], worlds[1..]);
    }
  }

  // ---------- jobs that must not overlap ----------

  /** Every run of the job is marked as one that must not overlap with another. */
  predicate MustNotOverlap(actions: seq<Action>, job: int) {
    forall a <- actions :: a.Arrive? && a.job == job ==> !a.concurrent
  }

  /** In no history with this pool are two runs of the job inside at once. */
  ghost predicate Excludes(capacity: Option<nat>, job: int) {
    forall actions: seq<Action>, worlds: seq<World>, i: nat ::
      IsHistory(actions, worlds) && MustNotOverlap(actions, job) && worlds[0].capacity == capacity && i < |worlds| ==>
        worlds[i].Status(job) <= 1
  }

  /**
   The mark alone does not exclude anything, as the runs look before either counts itself: it is kept
   if and only if the pool lets one run at a time inside, whatever its job.
   */
  lemma ExclusionIffOneToken(capacity: Option<nat>, job: int)
    requires capacity.Some? ==> capacity.value > 0
    ensures Excludes(capacity, job) <==> capacity == Some(1)
  {
    hide IsHistory;
    if capacity == Some(1) {
      forall actions: seq<Action>, worlds: seq<World>, i: nat
        | IsHistory(actions, worlds) && worlds[0].capacity == capacity && i < |worlds|
        ensures worlds[i].Status(job) <= 1
      {
        CountsAreRight(actions, worlds, i);
        CountedHoldTokens(worlds[i], job);
      }
    } else {
      var actions, worlds := ExclusionIsNotKept(capacity, job);
      assert |actions| < |worlds| && worlds[|actions|].Status(job) > 1;
    }
  }

  lemma CountedHoldTokens(w: World, job: int)
    requires Inv(w) && w.capacity.Some?
    ensures w.Status(job) <= w.tokens <= w.capacity.value
  {
    SubsetSize(Counted(w, job), Holders(w));
  }

  /** With a bigger pool, or none, there is always a history that ends with two runs inside. */
  lemma ExclusionIsNotKept(capacity: Option<nat>, job: int) returns (actions: seq<Action>, worlds: seq<World>)
    requires capacity.Some? ==> capacity.value > 1
    ensures IsHistory(actions, worlds) && worlds[0].capacity == capacity && MustNotOverlap(actions, job)
    ensures worlds[|actions|].Status(job) == 2
  {
    hide IsHistory;
    var w;
    actions, worlds, w := BothHaveLooked(capacity, job);
    actions, worlds, w := Extend(actions, worlds, w, Acquire(0));
    actions, worlds, w := Extend(actions, worlds, w, Acquire(1));
    actions, worlds, w := Extend(actions, worlds, w, Count(0));
    actions, worlds, w := Extend(actions, worlds, w, Count(1));
  }

  lemma BothHaveLooked(capacity: Option<nat>, job: int)
    returns (actions: seq<Action>, worlds: seq<World>, w: World)
    requires capacity.Some? ==> capacity.value > 1
    ensures IsHistory(actions, worlds) && worlds[0].capacity == capacity && MustNotOverlap(actions, job)
    ensures w == worlds[|actions|]
    ensures w == World(capacity, 0, map[], map[0 := Run(job, false, Waiting), 1 := Run(job, false, Waiting)])
  {
    hide IsHistory;
    var w0 := World(capacity, 0, map[], map[]);
    worlds := InitialHistory(w0);
    actions, worlds, w := Extend([], worlds, w0, Arrive(0, job, false));
    actions, worlds, w := Extend(actions, worlds, w, Arrive(1, job, false));
    actions, worlds, w := Extend(actions, worlds, w, Look(0));
    actions, worlds, w := Extend(actions, worlds, w, Look(1));
  }

  /** The run has been let through, and its job's status does not yet or still does count it. */
  predicate IsLetThrough(w: World, r: nat, job: int) {
    r in w.runs && w.runs[r].job == job
    && (w.runs[r].at.Waiting? || w.runs[r].at.Holding? || w.runs[r].at.Inside? || w.runs[r].at.Unwinding?)
  }

  /** A run of the job is let through while another one waits for the pool, or is about to count itself. */
  predicate LooksTooEarly(w: World, a: Action, job: int) {
    a.Look? && a.r in w.runs && w.runs[a.r].job == job && w.Status(job) <= 0
    && exists r <- w.runs :: w.runs[r].job == job && (w.runs[r].at.Waiting? || w.runs[r].at.Holding?)
  }

  predicate AllExclusive(w: World, job: int) {
    forall r <- w.runs :: w.runs[r].job == job ==> !w.runs[r].concurrent
  }

  predicate AtMostOneLetThrough(w: World, job: int) {
    forall r <- w.runs, r' <- w.runs :: IsLetThrough(w, r, job) && IsLetThrough(w, r', job) ==> r == r'
  }

  lemma StepKeepsOneLetThrough(w: World, a: Action, job: int)
    requires Inv(w) && Enabled(w, a) && AllExclusive(w, job) && AtMostOneLetThrough(w, job)
    requires !LooksTooEarly(w, a, job) && (a.Arrive? && a.job == job ==> !a.concurrent)
    ensures AllExclusive(Act(w, a), job) && AtMostOneLetThrough(Act(w, a), job)
  {
    if a.Look? && w.runs[a.r].job == job && w.Status(job) <= 0 {
      assert Counted(w, job) == {};
      assert forall r <- w.runs :: w.runs[r].job == job && IsCounted(w.runs[r].at) ==> r in Counted(w, job);
    }
  }

  /**
   Whatever the pool, the only way for two runs of such a job to meet is that one looks between
   another's look and its count: as long as that does not happen, the status stays at 1 or below.
   */
  lemma {:induction false} OverlapNeedsAnEarlyLook(actions: seq<Action>, worlds: seq<World>, job: int, i: nat)
    requires IsHistory(actions, worlds) && MustNotOverlap(actions, job) && i < |worlds|
    requires forall k :: 0 <= k < i ==> !LooksTooEarly(worlds[k], actions[k], job)
    ensures AllExclusive(worlds[i], job) && AtMostOneLetThrough(worlds[i], job)
    ensures worlds[i].Status(job) <= 1
  {
    hide Inv, Act, LooksTooEarly, AllExclusive, AtMostOneLetThrough;
    CountsAreRight(actions, worlds, i);
    if i == 0 {
      NoRunsYet(worlds[0], job);
    } else {
      OverlapNeedsAnEarlyLook(actions, worlds, job, i - 1);
      CountsAreRight(actions, worlds, i - 1);
      assert actions[i - 1] in actions;
      StepKeepsOneLetThrough(worlds[i - 1], actions[i - 1], job);
    }
    OneLetThroughCountsOne(worlds[i], job);
  }

  lemma NoRunsYet(w: World, job: int)
    requires w.runs == map[]
    ensures AllExclusive(w, job) && AtMostOneLetThrough(w, job)
  {}

  lemma OneLetThroughCountsOne(w: World, job: int)
    requires Inv(w) && AtMostOneLetThrough(w, job)
    ensures w.Status(job) <= 1
  {
    var counted := Counted(w, job);
    if r :| r in counted {
      assert IsLetThrough(w, r, job);
      assert forall r' <- counted :: IsLetThrough(w, r', job);
      assert counted == {r};
    }
  }

  lemma InitialHistory(w: World) returns (worlds: seq<World>)
    requires IsInitial(w)
    ensures worlds == [w] && IsHistory([], worlds)
  {
    worlds := [w];
  }

  lemma Extend(actions: seq<Action>, worlds: seq<World>, w: World, a: Action)
    returns (actions': seq<Action>, worlds': seq<World>, w': World)
    requires IsHistory(actions, worlds) && w == worlds[|actions|] && Enabled(w, a)
    ensures actions' == actions + [a] && w' == Act(w, a)
    ensures IsHistory(actions', worlds') && w' == worlds'[|actions'|] && worlds'[0] == worlds[0]
  {
    actions', w' := actions + [a], Act(w, a);
    worlds' := worlds + [w'];
  }

  // ---------- the method ----------

  ghost predicate SameStatus(a: World, b: World) { forall j :: b.Status(j) == a.Status(j) }

  /** The worker pool and the jobs' status fields, with every run that has come by. */
  class Workers {
    const capacity: Option<nat>
    var tokens: int
    var status: map<int, int>
    var runs: map<nat, Run>

    function View(): World
      reads this
    {
      World(capacity, tokens, status, runs)
    }

    method Move(r: nat, at: Point)
      requires r in runs
      modifies this`runs
      ensures View() == old(View()).Moved(r, at)
    {
      runs := runs[r := runs[r].(at := at)];
    }

    /** `workPool <- true`, if there is a pool. */
    method AcquireToken(r: nat)
      requires Enabled(View(), Acquire(r))
      modifies this
      ensures View() == Act(old(View()), Acquire(r))
    {
      if capacity.Some? {
        tokens := tokens + 1;
      }
      Move(r, Holding);
    }

    /** `j.Status++` */
    method Increment(r: nat)
      requires Enabled(View(), Count(r))
      modifies this
      ensures View() == Act(old(View()), Count(r))
    {
      var job := runs[r].job;
      status := status[job := View().Status(job) + 1];
      Move(r, Inside);
    }

    /** The deferred `j.Status--` */
    method Decrement(r: nat)
      requires Enabled(View(), Uncount(r))
      modifies this
      ensures View() == Act(old(View()), Uncount(r))
    {
      var job := runs[r].job;
      status := status[job := View().Status(job) - 1];
      Move(r, Uncounted(runs[r].at.panicked));
    }

    /** The deferred `<-workPool`, if there is a pool. */
    method ReleaseToken(r: nat)
      requires Enabled(View(), Release(r))
      modifies this
      ensures View() == Act(old(View()), Release(r))
    {
      if capacity.Some? {
        tokens := tokens - 1;
      }
      Move(r, Finished(true));
    }

    /** From `j.Status++` to its deferred `j.Status--`. */
    method RunBody(r: nat, panics: bool)
      requires Inv(View()) && Enabled(View(), Count(r))
      modifies this
      ensures Inv(View()) && tokens == old(tokens) && SameStatus(old(View()), View())
      ensures runs == old(runs)[r := old(runs)[r].(at := Uncounted(panics))]
    {
      hide Inv;
      ActKeepsInv(View(), Count(r));
      Increment(r);
      ActKeepsInv(View(), End(r, panics));
      Move(r, Unwinding(panics));
      ActKeepsInv(View(), Uncount(r));
      Decrement(r);
    }

    /** From the pool to the last deferred call, with nothing else moving. */
    method RunSection(r: nat, panics: bool)
      requires Inv(View()) && Enabled(View(), Acquire(r))
      modifies this
      ensures Inv(View()) && tokens == old(tokens) && SameStatus(old(View()), View())
      ensures runs == old(runs)[r := old(runs)[r].(at := Finished(true))]
    {
      hide Inv;
      TokensNotNegative(View());
      ActKeepsInv(View(), Acquire(r));
      AcquireToken(r);
      ghost var before := View();
      RunBody(r, panics);
      ghost var after := View();
      ActKeepsInv(View(), Release(r));
      ReleaseToken(r);
      forall j ensures View().Status(j) == old(View()).Status(j) {
        assert after.Status(j) == before.Status(j);
      }
    }

    /**
     One whole `Run` with nothing else moving, when the pool has room: the body runs unless the job
     may not overlap and is counted as running, and pool and status end as they were, panic or not.
     */
    method RunAlone(r: nat, job: int, concurrent: bool, panics: bool) returns (ran: bool)
      requires r !in runs && Inv(View()) && (capacity.Some? ==> tokens < capacity.value)
      modifies this
      ensures Inv(View()) && ran == (concurrent || old(View()).Status(job) <= 0)
      ensures tokens == old(tokens) && SameStatus(old(View()), View())
      ensures runs == old(runs)[r := Run(job, concurrent, Finished(ran))]
    {
      hide Inv;
      ActKeepsInv(View(), Arrive(r, job, concurrent));
      runs := runs[r := Run(job, concurrent, Arrived)];
      ActKeepsInv(View(), Look(r));
      if !concurrent && View().Status(job) > 0 {
        Move(r, Finished(false));
        return false;
      }
      Move(r, Waiting);
      RunSection(r, panics);
      return true;
    }
  }

  lemma TokensNotNegative(w: World)
    requires Inv(w)
    ensures w.tokens >= 0
  {}
}

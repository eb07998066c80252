/** Round-robin polling of jobs/job.go: the counter of a task picks the server that may run. */
module Polling {
  import opened Basics
  import opened Text
  import opened JobTable

  const CYCLE := 1002

  /** What `SetCounter` makes of a value: back to 0 after 1001. */
  function Advance(n: nat): nat { if n > 1000 then 0 else n + 1 }

  /** A run of a polled task, on one server; `reachable` is what the connection test would find. */
  datatype Request = Request(task: string, serverIds: string, serverId: int, reachable: bool)

  /** The counters of all tasks, and the status of every server that has a record. */
  datatype Board = Board(counter: map<string, nat>, records: map<int, int>) {
    /** A counter that was never read is 0. */
    function Value(task: string): nat { if task in counter then counter[task] else 0 }

    /** The server whose turn it is. */
    function Picked(task: string, serverIds: string): int {
      var servers := Split(serverIds, {','});
      AtoiIgnoringErrors(servers[Value(task) % |servers|])
    }
  }

  predicate Accepted(b: Board, q: Request) {
    q.serverId == b.Picked(q.task, q.serverIds)
    && (q.serverId == 0 || (q.serverId in b.records && b.records[q.serverId] == 0 && q.reachable))
  }

  /** The record of a server that passes the status test gets the outcome of the connection test. */
  function Tested(b: Board, q: Request): map<int, int> {
    if q.serverId == b.Picked(q.task, q.serverIds) && q.serverId != 0
       && q.serverId in b.records && b.records[q.serverId] == 0
    then b.records[q.serverId := if q.reachable then 0 else 1]
    else b.records
  }

  /** The counters of all tasks, by task number, and the server records in the database. */
  class Counters {
    var counter: map<string, nat>
    var records: map<int, int>

    predicate Valid()
      reads this
    {
      forall k <- counter :: counter[k] < CYCLE
    }

    function View(): Board
      reads this
    {
      Board(counter, records)
    }

    constructor (records: map<int, int>)
      ensures Valid() && View() == Board(map[], records)
    {
      counter, this.records := map[], records;
    }

    /** `GetCounter`: load, or store 0. */
    method GetCounter(key: string) returns (n: nat)
      requires Valid()
      modifies this`counter
      ensures Valid() && n == old(View()).Value(key) && key in counter
      ensures forall k :: View().Value(k) == old(View()).Value(k)
    {
      if key in counter {
        n := counter[key];
      } else {
        counter := counter[key := 0];
        n := 0;
      }
    }

    /** `SetCounter`: only a counter that has been read is advanced. */
    method SetCounter(key: string)
      requires Valid()
      modifies this`counter
      ensures Valid() && counter.Keys == old(counter.Keys)
      ensures forall k <- counter ::
                counter[k] == if k == key then Advance(old(counter)[k]) else old(counter)[k]
    {
      if key in counter {
        var n := counter[key];
        var m := n + 1;
        if n > 1000 {
          m := 0;
        }
        counter := counter[key := m];
      }
    }

    /** `PollServer`; `None` is a panic: the server picked has no record. */
    method PollServer(q: Request) returns (accepted: Option<bool>)
      requires Valid()
      modifies this
      ensures Valid() && q.task in counter && forall k :: View().Value(k) == old(View()).Value(k)
      ensures accepted == Some(true) <==> Accepted(old(View()), q)
      ensures accepted == None
         <==> q.serverId == old(View()).Picked(q.task, q.serverIds) && q.serverId != 0 && q.serverId !in old(records)
      ensures records == Tested(old(View()), q)
    {
      hide AtoiIgnoringErrors;
      var servers := Split(q.serverIds, {','});
      var count := GetCounter(q.task);
      var index := count % |servers|;
      var pollServerId := AtoiIgnoringErrors(servers[index]);
      if q.serverId != pollServerId {
        return Some(false);
      }
      if pollServerId == 0 {
        return Some(true);
      }
      if pollServerId !in records {
        return None;
      }
      if records[pollServerId] != 0 {
        return Some(false);
      }
      if !q.reachable {
        records := records[pollServerId := 1];
        return Some(false);
      }
      records := records[pollServerId := 0];
      return Some(true);
    }

    /** The start of `Run` for a polled task: only an accepted poll moves the counter on. */
    method Poll(q: Request) returns (accepted: Option<bool>)
      requires Valid()
      modifies this
      ensures Valid()
      ensures accepted == Some(true) <==> Accepted(old(View()), q)
      ensures accepted == None
         <==> q.serverId == old(View()).Picked(q.task, q.serverIds) && q.serverId != 0 && q.serverId !in old(records)
      ensures SameBoard(View(), AfterPoll(old(View()), q))
    {
      hide AtoiIgnoringErrors, Accepted, Tested;
      accepted := PollServer(q);
      if accepted == Some(true) {
        ghost var before := View();
        SetCounter(q.task);
        assert forall k :: k in counter <==> k in before.counter;
        assert forall k :: View().Value(k) == if k == q.task then Advance(before.Value(k)) else before.Value(k);
      }
    }
  }

  // ---------- a server that is down ----------

  /** A counter that was read and is 0 is as good as none. */
  ghost predicate SameBoard(a: Board, b: Board) {
    a.records == b.records && forall task :: a.Value(task) == b.Value(task)
  }

  function AfterPoll(b: Board, q: Request): Board {
    var counter := if Accepted(b, q) then b.counter[q.task := Advance(b.Value(q.task))] else b.counter;
    Board(counter, Tested(b, q))
  }

  function AfterPolls(b: Board, qs: seq<Request>): Board {
    if qs == [] then b else AfterPoll(AfterPolls(b, qs[..|qs| - 1]), qs[|qs| - 1])
  }

  /** The server has no record, or is marked as bad; number 0 is the local one, which is always up. */
  predicate IsDown(b: Board, serverId: int) {
    serverId != 0 && (serverId !in b.records || b.records[serverId] != 0)
  }

  /** The rotation of a task can go on exactly if the server whose turn it is is not down. */
  lemma CanRotateIff(b: Board, task: string, serverIds: string)
    ensures (exists q: Request :: q.task == task && q.serverIds == serverIds && Accepted(b, q))
       <==> !IsDown(b, b.Picked(task, serverIds))
  {
    hide AtoiIgnoringErrors;
    var picked := b.Picked(task, serverIds);
    if !IsDown(b, picked) {
      assert Accepted(b, Request(task, serverIds, picked, true));
    }
  }

  /**
   Once the counter of a task has come to a server that is down, it stays there: whatever is polled
   afterwards, for this or other tasks, no poll of this task is accepted, on any server.
   */
  lemma {:induction false} DeadServerStopsTheRotation(b: Board, qs: seq<Request>, task: string, serverIds: string)
    requires IsDown(b, b.Picked(task, serverIds))
    requires forall q <- qs :: q.task == task ==> q.serverIds == serverIds
    ensures var after := AfterPolls(b, qs);
      && after.Value(task) == b.Value(task) && IsDown(after, after.Picked(task, serverIds))
      && forall q: Request :: q.task == task && q.serverIds == serverIds ==> !Accepted(after, q)
  {
    hide AtoiIgnoringErrors;
    if qs != [] {
      var front, q := qs[..|qs| - 1], qs[|qs| - 1];
      assert forall x <- front :: x in qs;
      DeadServerStopsTheRotation(b, front, task, serverIds);
      TestDecidesWhoIsDown(AfterPolls(b, front), q, b.Picked(task, serverIds));
    }
  }

  /** A poll that finds a server unreachable takes it down; no other poll changes who is up. */
  lemma TestDecidesWhoIsDown(b: Board, q: Request, serverId: int)
    ensures IsDown(AfterPoll(b, q), serverId)
       <==> || IsDown(b, serverId)
            || (serverId == q.serverId == b.Picked(q.task, q.serverIds) && !q.reachable && serverId != 0)
  {
    hide AtoiIgnoringErrors;
  }

  /** So one failed test ends the rotation of the task, on all its servers. */
  lemma FailedTestStopsTheRotation(b: Board, q: Request, qs: seq<Request>, next: Request)
    requires q.serverId == b.Picked(q.task, q.serverIds) != 0 && !q.reachable
    requires forall x <- qs :: x.task == q.task ==> x.serverIds == q.serverIds
    requires next.task == q.task && next.serverIds == q.serverIds
    ensures !Accepted(AfterPolls(AfterPoll(b, q), qs), next)
  {
    hide AtoiIgnoringErrors, AfterPolls, Tested;
    TestDecidesWhoIsDown(b, q, q.serverId);
    DeadServerStopsTheRotation(AfterPoll(b, q), qs, q.task, q.serverIds);
  }

  // ---------- the cycle ----------

  /** The counter after `k` accepted polls. */
  function After(n: nat, k: nat): nat {
    if k == 0 then n else Advance(After(n, k - 1))
  }

  lemma {:induction false} AfterWrapsAround(n: nat, k: nat)
    requires n < CYCLE
    ensures After(n, k) == (n + k) % 1002
  {
    if k > 0 {
      AfterWrapsAround(n, k - 1);
    }
  }

  lemma FullCycle(n: nat)
    requires n < CYCLE
    ensures After(n, CYCLE) == n
  {
    AfterWrapsAround(n, CYCLE);
  }

  /** How often position `p` of `num` is picked by `k` accepted polls from counter value `n`. */
  function Picks(n: nat, k: nat, num: nat, p: nat): nat
    requires num >= 1
  {
    if k == 0 then 0 else Picks(n, k - 1, num, p) + if After(n, k - 1) % num == p then 1 else 0
  }

  /** How many of the `k` numbers from `n` on have remainder `p`. */
  function Hits(n: nat, k: nat, num: nat, p: nat): nat
    requires num >= 1
  {
    if k == 0 then 0 else Hits(n, k - 1, num, p) + if (n + k - 1) % num == p then 1 else 0
  }

  lemma {:induction false} PicksWithoutWrap(n: nat, k: nat, num: nat, p: nat)
    requires num >= 1 && n + k <= CYCLE
    ensures Picks(n, k, num, p) == Hits(n, k, num, p)
  {
    if k > 0 {
      PicksWithoutWrap(n, k - 1, num, p);
      AfterWrapsAround(n, k - 1);
    }
  }

  lemma {:induction false} HitsSplit(n: nat, j: nat, k: nat, num: nat, p: nat)
    requires num >= 1
    ensures Hits(n, j + k, num, p) == Hits(n, j, num, p) + Hits(n + j, k, num, p)
  {
    if k > 0 {
      HitsSplit(n, j, k - 1, num, p);
    }
  }

  /** The first multiple of `num` past `n` lies `num - n % num` further on. */
  lemma Offset(n: nat, num: nat, i: nat)
    requires num >= 1 && i < num
    ensures (n + i) % num == if n % num + i < num then n % num + i else n % num + i - num
  {
    var q, r := n / num, n % num;
    if r + i < num {
      Division(n + i, num, q, r + i);
    } else {
      Division(n + i, num, q + 1, r + i - num);
    }
  }

  /** Fewer than `num` consecutive numbers meet a remainder at most once, and `num` of them just once. */
  lemma {:induction false} HitsInARound(n: nat, k: nat, num: nat, p: nat)
    requires num >= 1 && k <= num && p < num
    ensures Hits(n, k, num, p)
         == if n % num <= p < n % num + k || n % num <= p + num < n % num + k then 1 else 0
  {
    if k > 0 {
      HitsInARound(n, k - 1, num, p);
      Offset(n, num, k - 1);
    }
  }

  lemma HitsAtMostOnce(n: nat, k: nat, num: nat, p: nat)
    requires num >= 1 && k <= num && p < num
    ensures Hits(n, k, num, p) <= 1
    ensures k == num ==> Hits(n, k, num, p) == 1
    ensures k == 0 ==> Hits(n, k, num, p) == 0
  {
    HitsInARound(n, k, num, p);
  }

  function Floor(k: nat, num: nat): nat requires num >= 1 { k / num }

  function Ceiling(k: nat, num: nat): nat requires num >= 1 { (k + num - 1) / num }

  lemma {:induction false} HitsAreFair(n: nat, k: nat, num: nat, p: nat)
    requires num >= 1 && p < num
    ensures Floor(k, num) <= Hits(n, k, num, p) <= Ceiling(k, num)
    decreases k
  {
    hide Floor, Ceiling, Hits;
    if k < num {
      HitsAtMostOnce(n, k, num, p);
      LessThanARound(k, num);
    } else {
      HitsSplit(n, num, k - num, num, p);
      HitsAtMostOnce(n, num, num, p);
      HitsAreFair(n + num, k - num, num, p);
      OneMoreRound(k - num, num);
    }
  }

  lemma LessThanARound(k: nat, num: nat)
    requires k < num
    ensures Floor(k, num) == 0 && Ceiling(k, num) == if k == 0 then 0 else 1
  {
    Division(k, num, 0, k);
    if k == 0 {
      Division(num - 1, num, 0, num - 1);
    } else {
      Division(k + num - 1, num, 1, k - 1);
    }
  }

  lemma OneMoreRound(k: nat, num: nat)
    requires num >= 1
    ensures Floor(k + num, num) == Floor(k, num) + 1 && Ceiling(k + num, num) == Ceiling(k, num) + 1
  {
    AddDivisor(k, num);
    AddDivisor(k + num - 1, num);
  }

  lemma AddDivisor(a: nat, d: nat)
    requires d >= 1
    ensures (a + d) / d == a / d + 1
  {
    Division(a + d, d, a / d + 1, a % d);
  }

  // ---------- turns on a board ----------

  predicate AcceptedFor(b: Board, q: Request, task: string) { q.task == task && Accepted(b, q) }

  /** The position in its list of the server whose turn it is. */
  function Position(b: Board, q: Request): nat { b.Value(q.task) % |Split(q.serverIds, {','})| }

  /** How many of the polls are accepted polls of the task. */
  function AcceptedPolls(b: Board, qs: seq<Request>, task: string): nat {
    if qs == [] then 0
    else
      var front, q := qs[..|qs| - 1], qs[|qs| - 1];
      AcceptedPolls(b, front, task) + if AcceptedFor(AfterPolls(b, front), q, task) then 1 else 0
  }

  /** How many of those come to the server at position `p`. */
  function Turns(b: Board, qs: seq<Request>, task: string, p: nat): nat {
    if qs == [] then 0
    else
      var front, q := qs[..|qs| - 1], qs[|qs| - 1];
      var here := AfterPolls(b, front);
      Turns(b, front, task, p) + if AcceptedFor(here, q, task) && Position(here, q) == p then 1 else 0
  }

  /** The task's list of servers is the same in all its requests. */
  predicate SameServers(qs: seq<Request>, task: string, serverIds: string) {
    forall q <- qs :: q.task == task ==> q.serverIds == serverIds
  }

  function ServerCount(serverIds: string): (n: nat)
    ensures n >= 1
  {
    |Split(serverIds, {','})|
  }

  lemma OnePoll(b: Board, q: Request, task: string)
    ensures AfterPoll(b, q).Value(task)
         == if AcceptedFor(b, q, task) then Advance(b.Value(task)) else b.Value(task)
  {
    hide Accepted, Tested, Advance;
  }

  /** How many of the accepted polls of the task are runs on the server. */
  function ServerTurns(b: Board, qs: seq<Request>, task: string, server: int): nat {
    if qs == [] then 0
    else
      var front, q := qs[..|qs| - 1], qs[|qs| - 1];
      ServerTurns(b, front, task, server)
      + if AcceptedFor(AfterPolls(b, front), q, task) && q.serverId == server then 1 else 0
  }

  /** For a task with a list of servers, it is the turn of the one that the counter points at. */
  lemma TurnInList(b: Board, ids: seq<nat>, q: Request)
    requires ids != [] && (forall n <- ids :: n <= MAX_INT) && q.serverIds == Listed(ids)
    ensures Accepted(b, q)
       <==> && q.serverId == ids[b.Value(q.task) % |ids|]
            && (q.serverId == 0 || (q.serverId in b.records && b.records[q.serverId] == 0 && q.reachable))
  {
    hide AtoiIgnoringErrors, Listed, Split;
    NumbersOfList(ids);
    AtItsPosition(b, q);
  }

  lemma AtItsPosition(b: Board, q: Request)
    ensures Position(b, q) < |ServerNumbers(q.serverIds)| == ServerCount(q.serverIds)
    ensures b.Picked(q.task, q.serverIds) == ServerNumbers(q.serverIds)[Position(b, q)]
  {
    hide AtoiIgnoringErrors;
  }

  /** If no server is listed twice, the turns of a position are the turns of the server there. */
  lemma {:induction false} ServerTurnsAreTurns(b: Board, qs: seq<Request>, task: string, serverIds: string, p: nat)
    requires SameServers(qs, task, serverIds) && Distinct(ServerNumbers(serverIds)) && p < ServerCount(serverIds)
    ensures p < |ServerNumbers(serverIds)|
    ensures ServerTurns(b, qs, task, ServerNumbers(serverIds)[p]) == Turns(b, qs, task, p)
  {
    hide ServerNumbers, AfterPolls, Position, ServerCount;
    assert p < |ServerNumbers(serverIds)| by {
      AtItsPosition(b, Request(task, serverIds, 0, false));
    }
    if qs != [] {
      var front, q := qs[..|qs| - 1], qs[|qs| - 1];
      assert forall x <- front :: x in qs;
      ServerTurnsAreTurns(b, front, task, serverIds, p);
      AtItsPosition(AfterPolls(b, front), q);
    }
  }

  /** Rejected polls and polls of other tasks, wherever they come, leave the rotation of a task alone. */
  lemma {:induction false} TurnsArePicks(b: Board, qs: seq<Request>, task: string, serverIds: string, p: nat)
    requires SameServers(qs, task, serverIds)
    ensures var n, k := b.Value(task), AcceptedPolls(b, qs, task);
      && AfterPolls(b, qs).Value(task) == After(n, k)
      && Turns(b, qs, task, p) == Picks(n, k, ServerCount(serverIds), p)
  {
    hide Accepted, AfterPoll, Split, Advance;
    if qs != [] {
      var front, q := qs[..|qs| - 1], qs[|qs| - 1];
      assert forall x <- front :: x in qs;
      TurnsArePicks(b, front, task, serverIds, p);
      OnePoll(AfterPolls(b, front), q, task);
    }
  }

  lemma PositionsAreFair(b: Board, qs: seq<Request>, task: string, serverIds: string, p: nat)
    requires SameServers(qs, task, serverIds) && p < ServerCount(serverIds)
    requires b.Value(task) + AcceptedPolls(b, qs, task) <= CYCLE
    ensures var k, num := AcceptedPolls(b, qs, task), ServerCount(serverIds);
            Floor(k, num) <= Turns(b, qs, task, p) <= Ceiling(k, num)
  {
    hide Floor, Ceiling, ServerCount, AcceptedPolls, Turns, AfterPolls;
    var n, k := b.Value(task), AcceptedPolls(b, qs, task);
    TurnsArePicks(b, qs, task, serverIds, p);
    PicksWithoutWrap(n, k, ServerCount(serverIds), p);
    HitsAreFair(n, k, ServerCount(serverIds), p);
  }

  /**
   As long as the counter of a task does not wrap, each of its servers gets its share of the accepted
   polls, however they are mixed with others: their number divided by the servers, rounded down or up.
   */
  lemma FairWithinACycle(b: Board, qs: seq<Request>, task: string, serverIds: string, server: int)
    requires SameServers(qs, task, serverIds) && Distinct(ServerNumbers(serverIds))
    requires server in ServerNumbers(serverIds)
    requires b.Value(task) + AcceptedPolls(b, qs, task) <= CYCLE
    ensures var k, num := AcceptedPolls(b, qs, task), |ServerNumbers(serverIds)|;
            Floor(k, num) <= ServerTurns(b, qs, task, server) <= Ceiling(k, num)
  {
    hide Floor, Ceiling, ServerNumbers, ServerCount, AcceptedPolls, Turns, ServerTurns;
    var p :| 0 <= p < |ServerNumbers(serverIds)| && ServerNumbers(serverIds)[p] == server;
    AtItsPosition(b, Request(task, serverIds, 0, false));
    ServerTurnsAreTurns(b, qs, task, serverIds, p);
    PositionsAreFair(b, qs, task, serverIds, p);
  }

  // ---------- across the end of a cycle ----------

  lemma RemainderOfRemainder(x: nat, m: nat, d: nat)
    requires m >= 1 && d >= 1 && m % d == 0
    ensures x % m % d == x % d
  {
    var a, b, c := x / m, x % m, m / d;
    var q, r := b / d, b % d;
    Regroup(a, c, d, q);
    Division(x, d, a * c + q, r);
  }

  lemma Regroup(a: nat, c: nat, d: nat, q: nat)
    ensures a * (c * d) + q * d == (a * c + q) * d
  {}

  lemma {:induction false} PicksThroughWrap(n: nat, k: nat, num: nat, p: nat)
    requires num >= 1 && 1002 % num == 0 && n < CYCLE
    ensures Picks(n, k, num, p) == Hits(n, k, num, p)
  {
    if k > 0 {
      PicksThroughWrap(n, k - 1, num, p);
      AfterWrapsAround(n, k - 1);
      RemainderOfRemainder(n + k - 1, 1002, num);
    }
  }

  /** Started at the last value of a cycle, a round never comes to the last position. */
  lemma {:induction false} LastPositionMissed(k: nat, num: nat)
    requires num >= 1 && 1002 % num != 0 && k <= num
    ensures Picks(1001, k, num, num - 1) == 0
  {
    if k > 0 {
      LastPositionMissed(k - 1, num);
      AfterWrapsAround(1001, k - 1);
      if k == 1 {
        if 1001 % num == num - 1 {
          Division(1002, num, 1001 / num + 1, 0);
        }
      } else {
        var c := (1001 + (k - 1)) % 1002;
        assert c <= k - 2;
        Division(c, num, 0, c);
      }
    }
  }

  /** Nobody on the list is down. */
  ghost predicate AllUp(b: Board, serverIds: string) {
    forall s <- Split(serverIds, {','}) :: !IsDown(b, AtoiIgnoringErrors(s))
  }

  /** With all servers up, any number of polls can be accepted one after the other. */
  lemma {:induction false} PollsInARow(b: Board, task: string, serverIds: string, k: nat) returns (qs: seq<Request>)
    requires AllUp(b, serverIds)
    ensures SameServers(qs, task, serverIds) && AcceptedPolls(b, qs, task) == k
    ensures AllUp(AfterPolls(b, qs), serverIds)
  {
    hide AtoiIgnoringErrors;
    if k == 0 {
      qs := [];
    } else {
      var front := PollsInARow(b, task, serverIds, k - 1);
      var here := AfterPolls(b, front);
      var q := Request(task, serverIds, here.Picked(task, serverIds), true);
      qs := front + [q];
      assert qs[..|qs| - 1] == front;
      assert Split(serverIds, {','})[Position(here, q)] in Split(serverIds, {','});
      assert Accepted(here, q);
    }
  }

  function UpRecords(serverIds: string): map<int, int> {
    map s | s in Split(serverIds, {','}) :: AtoiIgnoringErrors(s) := 0
  }

  /** The counter of the task is in its range, and all polls of the task have this list of servers. */
  ghost predicate IsRound(b: Board, qs: seq<Request>, task: string, serverIds: string) {
    && b.Value(task) < CYCLE && SameServers(qs, task, serverIds)
    && AcceptedPolls(b, qs, task) == ServerCount(serverIds)
  }

  /** From any counter value, as many accepted polls as there are servers come to each of them once. */
  ghost predicate AlwaysFair(serverIds: string) {
    forall b, qs, task, server ::
      IsRound(b, qs, task, serverIds) && server in ServerNumbers(serverIds) ==> ServerTurns(b, qs, task, server) == 1
  }

  /** If the number of servers does not divide 1002, the last one misses a round that begins at 1001. */
  lemma UnfairRound(task: string, serverIds: string) returns (b: Board, qs: seq<Request>)
    requires Distinct(ServerNumbers(serverIds)) && 1002 % |ServerNumbers(serverIds)| != 0
    ensures IsRound(b, qs, task, serverIds) && AllUp(b, serverIds)
    ensures ServerTurns(b, qs, task, ServerNumbers(serverIds)[|ServerNumbers(serverIds)| - 1]) == 0
  {
    hide Turns, ServerTurns, AcceptedPolls, AfterPolls, Picks, Split, ServerNumbers, ServerCount;
    b := Board(map[task := 1001], UpRecords(serverIds));
    var num := ServerCount(serverIds);
    AtItsPosition(b, Request(task, serverIds, 0, false));
    AllUpRecords(b, serverIds);
    qs := PollsInARow(b, task, serverIds, num);
    ServerTurnsAreTurns(b, qs, task, serverIds, num - 1);
    TurnsArePicks(b, qs, task, serverIds, num - 1);
    LastPositionMissed(num, num);
  }

  lemma AllUpRecords(b: Board, serverIds: string)
    requires b.records == UpRecords(serverIds)
    ensures AllUp(b, serverIds)
  {
    hide AtoiIgnoringErrors;
    forall s <- Split(serverIds, {','}) ensures !IsDown(b, AtoiIgnoringErrors(s)) {
      assert AtoiIgnoringErrors(s) in UpRecords(serverIds);
    }
  }

  /** Rounds stay fair through the end of a cycle exactly when the number of servers divides 1002. */
  lemma FairForeverIffDivides(serverIds: string)
    requires Distinct(ServerNumbers(serverIds))
    ensures AlwaysFair(serverIds) <==> 1002 % |ServerNumbers(serverIds)| == 0
  {
    hide ServerTurns, ServerNumbers, IsRound, Turns;
    var num := |ServerNumbers(serverIds)|;
    if 1002 % num == 0 {
      forall b: Board, qs, task, server | IsRound(b, qs, task, serverIds) && server in ServerNumbers(serverIds)
        ensures ServerTurns(b, qs, task, server) == 1
      {
        var p :| 0 <= p < num && ServerNumbers(serverIds)[p] == server;
        RoundIsFair(b, qs, task, serverIds, p);
      }
    } else {
      var b, qs := UnfairRound("", serverIds);
      assert ServerNumbers(serverIds)[num - 1] in ServerNumbers(serverIds);
    }
  }

  lemma RoundIsFair(b: Board, qs: seq<Request>, task: string, serverIds: string, p: nat)
    requires IsRound(b, qs, task, serverIds) && Distinct(ServerNumbers(serverIds)) && p < |ServerNumbers(serverIds)|
    requires 1002 % |ServerNumbers(serverIds)| == 0
    ensures ServerTurns(b, qs, task, ServerNumbers(serverIds)[p]) == 1
  {
    hide Turns, ServerTurns, AcceptedPolls, AfterPolls, Picks, Hits, ServerCount, ServerNumbers;
    var num := ServerCount(serverIds);
    AtItsPosition(b, Request(task, serverIds, 0, false));
    ServerTurnsAreTurns(b, qs, task, serverIds, p);
    TurnsArePicks(b, qs, task, serverIds, p);
    PicksThroughWrap(b.Value(task), num, num, p);
    HitsInARound(b.Value(task), num, num, p);
  }
}

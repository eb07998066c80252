/** The calls of jobs/cron.go on the scheduler object, and the pausing of a task in controllers/task.go. */
module JobTable {
  import opened Basics
  import opened Text
  import opened Schedules
  import opened Parser
  import opened ParserLaws
  import opened CronFires
  import opened Crons
  import opened Registry
  import M = CronModel

  // ---------- looking up and listing ----------

  /** The loop of `GetEntryById` over a snapshot. */
  method FindKey(entries: seq<Entry>, key: int) returns (found: Option<Entry>)
    ensures found.Some? <==> HasKey(Views(entries), key)
    ensures found.Some? ==> found.value in entries && found.value.key == key
  {
    hide Views;
    for i := 0 to |entries|
      invariant forall k :: 0 <= k < i ==> Views(entries)[k].key != key
    {
      assert Views(entries)[i].key == entries[i].key;
      if entries[i].key == key {
        assert Views(entries)[i] in Views(entries);
        return Some(entries[i]);
      }
    }
    found := None;
  }

  /** `GetEntryById`: a copy of the entry with the key, if there is one. */
  method GetEntryById(c: Cron, key: int, elapsed: nat) returns (found: Option<Entry>)
    requires c.Valid()
    modifies c, c.Objects()
    ensures c.Valid() && c.Objects() <= old(c.Objects())
    ensures M.Step(EnvAt(c.off), old(c.State()), M.Snapshot(elapsed), c.State())
    ensures found.Some? <==> HasKey(old(c.State()).entries, key)
    ensures found.Some? ==>
              fresh(found.value) && found.value.key == key && found.value.View() in old(c.State()).entries
  {
    hide Views, M.Step, EnvAt, M.Valid, M.Sorted, HasKey;
    ghost var before := Views(c.entries);
    var entries := c.Turn(M.Snapshot(elapsed));
    SortKeepsKeys(before, Views(entries));
    found := FindKey(entries, key);
    if found.Some? {
      ViewListed(entries, found.value);
      SamePermuted(before, Views(entries));
    }
  }

  /** `listed` are soonest among `all`: nothing left out is due before anything listed, zero being never. */
  ghost predicate SoonestOf(listed: seq<M.Entry>, all: seq<M.Entry>) {
    exists rest :: LeavesOut(listed, rest, all)
  }

  ghost predicate LeavesOut(listed: seq<M.Entry>, rest: seq<M.Entry>, all: seq<M.Entry>) {
    multiset(listed + rest) == multiset(all) && forall x <- listed, y <- rest :: !M.Less(y, x)
  }

  lemma FrontIsSoonest(all: seq<M.Entry>, sorted: seq<M.Entry>, n: nat)
    requires M.IsSortOf(all, sorted) && n <= |sorted|
    ensures SoonestOf(sorted[..n], all) && |all| == |sorted| && M.Sorted(sorted[..n])
  {
    SamePermuted(all, sorted);
    assert sorted[..n] + sorted[n..] == sorted;
    forall x <- sorted[..n], y <- sorted[n..] ensures !M.Less(y, x) {
      var i :| 0 <= i < n && sorted[i] == x;
      var j :| n <= j < |sorted| && sorted[j] == y;
    }
    assert LeavesOut(sorted[..n], sorted[n..], all);
  }

  /** `GetEntries`: the soonest entries, at most `size` of them; `None` is a panic, for a negative size. */
  method GetEntries(c: Cron, size: int, elapsed: nat) returns (listed: Option<seq<Entry>>)
    requires c.Valid()
    modifies c, c.Objects()
    ensures c.Valid() && c.Objects() <= old(c.Objects())
    ensures M.Step(EnvAt(c.off), old(c.State()), M.Snapshot(elapsed), c.State())
    ensures listed.None? <==> size < 0
    ensures listed.Some? ==>
              && |listed.value| == (if |old(c.entries)| > size then size else |old(c.entries)|)
              && SoonestOf(Views(listed.value), old(Views(c.entries))) && M.Sorted(Views(listed.value))
  {
    hide Views, M.Step, EnvAt, M.Valid, SoonestOf, M.IsSortOf, M.Sorted;
    ghost var before := Views(c.entries);
    var ret := c.Turn(M.Snapshot(elapsed));
    if size < 0 {
      return None;
    }
    var n := if |ret| > size then size else |ret|;
    FrontIsSoonest(before, Views(ret), n);
    FrontViews(ret, n);
    if |ret| > size {
      return Some(ret[..size]);
    }
    assert ret[..n] == ret;
    return Some(ret);
  }

  lemma FrontViews(es: seq<Entry>, n: nat)
    requires n <= |es|
    ensures Views(es[..n]) == Views(es)[..n]
  {
    hide Views;
  }

  // ---------- adding ----------

  /**
   `AddJob`, undisturbed: refused if the key is present or the spec is not accepted.  `None`: after
   `turns` turns of a loop the parser has not returned, and neither has the call.
   */
  method AddJob(c: Cron, spec: string, key: int, parseDuration: string -> Option<int>, turns: nat, e1: nat, e2: nat)
    returns (added: Option<bool>)
    requires c.Valid()
    modifies c, c.Objects()
    ensures c.Valid() && fresh(c.Objects() - old(c.Objects()))
    ensures added.Some? ==>
              (added.value <==> !HasKey(old(c.State()).entries, key) && Parse(spec, parseDuration).Value?)
    ensures added.None? ==> !HasKey(old(c.State()).entries, key)
    ensures turns >= 60 ==>
              (added.None? <==> !HasKey(old(c.State()).entries, key) && Parse(spec, parseDuration) == Hang)
    ensures added != Some(true) ==> M.Step(EnvAt(c.off), old(c.State()), M.Snapshot(e1), c.State())
    ensures added == Some(true) ==>
              exists mid ::
                && M.Step(EnvAt(c.off), old(c.State()), M.Snapshot(e1), mid)
                && M.Step(EnvAt(c.off), mid, M.Add(Parse(spec, parseDuration).value, key, e2), c.State())
    ensures UniqueKeys(old(c.State()).entries) ==>
              UniqueKeys(c.State().entries) && (added == Some(true) ==> HasKey(c.State().entries, key))
  {
    hide Views, M.Step, EnvAt, M.Valid, Parse, HasKey, UniqueKeys, ValidSchedule;
    ghost var before := c.State();
    var found := GetEntryById(c, key, e1);
    ghost var mid := c.State();
    LookUpKeepsKeys(EnvAt(c.off), before, e1, mid);
    if found.Some? {
      return Some(false);
    }
    var parsed := ParseSpec(spec, parseDuration, turns);
    if parsed == Hang {
      return None;
    }
    if parsed == Panic {
      return Some(false);
    }
    ParsedIsValid(spec, parseDuration);
    var _ := c.Turn(M.Add(parsed.value, key, e2));
    if UniqueKeys(before.entries) {
      StepKeys(EnvAt(c.off), mid, M.Add(parsed.value, key, e2), c.State());
    }
    return Some(true);
  }

  lemma LookUpKeepsKeys(env: M.Env, st: M.State, elapsed: nat, st': M.State)
    requires M.Step(env, st, M.Snapshot(elapsed), st')
    ensures UniqueKeys(st.entries) ==> UniqueKeys(st'.entries)
    ensures forall k :: HasKey(st'.entries, k) <==> HasKey(st.entries, k)
  {
    hide UniqueKeys, HasKey, M.Sorted;
    var es :| M.IsSortOf(st.entries, es) && st' == M.Select(env, st.(entries := es), M.Snapshot(elapsed));
    SortKeepsKeys(st.entries, es);
  }

  // ---------- removing and pausing ----------

  /** `after` lists the entries of `before` whose key is not in `keys`, as often and with the same fields. */
  ghost predicate Without(before: seq<M.Entry>, keys: set<int>, after: seq<M.Entry>) {
    forall e :: multiset(after)[e] == if e.key in keys then 0 else multiset(before)[e]
  }

  lemma WithoutBoth(a: seq<M.Entry>, k: set<int>, b: seq<M.Entry>, k': set<int>, c: seq<M.Entry>)
    requires Without(a, k, b) && Without(b, k', c)
    ensures Without(a, k + k', c)
  {}

  lemma WithoutNone(a: seq<M.Entry>)
    ensures Without(a, {}, a)
  {}

  /** `RemoveJob`: every entry with the key goes, every other stays as it was; the list is left sorted. */
  method RemoveJob(c: Cron, key: int, elapsed: nat)
    requires c.Valid()
    modifies c, c.Objects()
    ensures c.Valid() && c.Objects() <= old(c.Objects())
    ensures Without(old(Views(c.entries)), {key}, Views(c.entries)) && M.Sorted(Views(c.entries))
  {
    hide Views, M.Step, EnvAt, M.Valid, Without, M.Sorted;
    ghost var before := c.State();
    var _ := c.Turn(M.Remove(KeyIs(key), elapsed));
    RemovedKey(EnvAt(c.off), before, key, elapsed, c.State());
  }

  lemma RemovedKey(env: M.Env, st: M.State, key: int, elapsed: nat, st': M.State)
    requires M.Step(env, st, M.Remove(KeyIs(key), elapsed), st')
    ensures Without(st.entries, {key}, st'.entries) && M.Sorted(st'.entries)
  {
    hide M.Sorted, M.Keep;
    var es :| M.IsSortOf(st.entries, es) && st' == M.Select(env, st.(entries := es), M.Remove(KeyIs(key), elapsed));
    forall e ensures multiset(st'.entries)[e] == if e.key == key then 0 else multiset(st.entries)[e] {
      M.KeepCounts(es, KeyIs(key), e);
    }
    M.KeepSorted(es, KeyIs(key));
  }

  /** `libs.JobKey` */
  function JobKey(taskId: int, serverId: int): int { taskId * 100000 + serverId }

  /** `strconv.Atoi` with its error dropped: 0 for a malformed number, the nearest limit for a huge one. */
  function AtoiIgnoringErrors(s: string): int {
    var negative := s != [] && s[0] == '-';
    var body := if s != [] && (s[0] == '-' || s[0] == '+') then s[1..] else s;
    match Atoi(s)
    case Some(n) => n
    case None => if body == [] || !AllDigits(body) then 0 else if negative then -MAX_INT - 1 else MAX_INT
  }

  /** It reads decimal numbers with or without a sign, up to the limits of 64 bits. */
  lemma NumbersAreRead(n: nat)
    ensures AtoiIgnoringErrors(Numeral(n)) == if n <= MAX_INT then n else MAX_INT
    ensures AtoiIgnoringErrors("+" + Numeral(n)) == AtoiIgnoringErrors(Numeral(n))
    ensures AtoiIgnoringErrors("-" + Numeral(n)) == if n <= MAX_INT + 1 then 0 - n as int else -MAX_INT - 1
  {
    hide Atoi, Digits, Numeral;
    var s := Numeral(n);
    AtoiSigned(n);
    assert ("-" + s)[1..] == s && ("+" + s)[1..] == s;
    assert '0' <= s[0] <= '9';
  }

  lemma OtherTextIsZero(s: string, i: nat)
    requires s == "" || s == "-" || s == "+"
          || (i < |s| && !('0' <= s[i] <= '9') && (i == 0 ==> s[0] != '-' && s[0] != '+'))
    ensures AtoiIgnoringErrors(s) == 0
  {
    AtoiRefuses(s, i);
    if i < |s| && i > 0 && (s[0] == '-' || s[0] == '+') {
      assert s[1..][i - 1] == s[i];
    }
  }

  /** The servers of a comma-separated list. */
  function ServerNumbers(serverIds: string): (ns: seq<int>)
    ensures |ns| >= 1
  {
    var parts := Split(serverIds, {','});
    seq(|parts|, i requires 0 <= i < |parts| => AtoiIgnoringErrors(parts[i]))
  }

  /** As they are written, so they are read. */
  lemma NumbersOfList(ids: seq<nat>)
    requires ids != [] && forall n <- ids :: n <= MAX_INT
    ensures ServerNumbers(Listed(ids)) == ids
  {
    hide AtoiIgnoringErrors, Listed, Split;
    SplitListed(ids);
    forall i | 0 <= i < |ids| ensures ServerNumbers(Listed(ids))[i] == ids[i] {
      assert ids[i] in ids;
      NumbersAreRead(ids[i]);
    }
  }

  function PausedKey(taskId: int, server: string): int { JobKey(taskId, AtoiIgnoringErrors(server)) }

  /** The keys of a task on the servers of a comma-separated list. */
  function PausedKeys(taskId: int, servers: seq<string>): set<int> {
    set s | s in servers :: PausedKey(taskId, s)
  }

  /** For a list of server numbers these are the task's number, times 100000, plus each of them. */
  lemma PausedKeysOfList(taskId: int, ids: seq<nat>)
    requires ids != [] && forall n <- ids :: n <= MAX_INT
    ensures forall key ::
              key in PausedKeys(taskId, Split(Listed(ids), {','})) <==> exists n <- ids :: key == taskId * 100000 + n
  {
    hide AtoiIgnoringErrors, Listed, Split;
    SplitListed(ids);
    var parts := Split(Listed(ids), {','});
    forall i | 0 <= i < |ids| ensures PausedKey(taskId, parts[i]) == taskId * 100000 + ids[i] {
      assert ids[i] in ids;
      NumbersAreRead(ids[i]);
    }
    forall key ensures key in PausedKeys(taskId, parts) <==> exists n <- ids :: key == taskId * 100000 + n {
      if key in PausedKeys(taskId, parts) {
        var i :| 0 <= i < |parts| && key == PausedKey(taskId, parts[i]);
        assert ids[i] in ids;
      }
      if n :| n in ids && key == taskId * 100000 + n {
        var i :| 0 <= i < |ids| && ids[i] == n;
        assert parts[i] in parts;
      }
    }
  }

  /** What is left by pausing a task with these servers. */
  lemma PausedList(before: seq<M.Entry>, taskId: int, ids: seq<nat>, after: seq<M.Entry>)
    requires ids != [] && forall n <- ids :: n <= MAX_INT
    requires Without(before, PausedKeys(taskId, Split(Listed(ids), {','})), after)
    ensures forall e ::
              multiset(after)[e] == if exists n <- ids :: e.key == taskId * 100000 + n then 0 else multiset(before)[e]
  {
    hide PausedKeys, Listed, Split;
    PausedKeysOfList(taskId, ids);
  }

  /** The loop of `AjaxPause`, with no tick in between. */
  method Pause(c: Cron, taskId: int, serverIds: string)
    requires c.Valid()
    modifies c, c.Objects()
    ensures c.Valid() && c.Objects() <= old(c.Objects())
    ensures Without(old(Views(c.entries)), PausedKeys(taskId, Split(serverIds, {','})), Views(c.entries))
    ensures M.Sorted(Views(c.entries))
  {
    hide *;
    var servers := Split(serverIds, {','});
    WithoutNone(Views(c.entries));
    NoServers(taskId, servers);
    for i := 0 to |servers|
      invariant c.Valid() && c.Objects() <= old(c.Objects())
      invariant Without(old(Views(c.entries)), PausedKeys(taskId, servers[..i]), Views(c.entries))
      invariant i > 0 ==> M.Sorted(Views(c.entries))
    {
      var elapsed: nat := *;
      var key := PausedKey(taskId, servers[i]);
      ghost var before := Views(c.entries);
      RemoveJob(c, key, elapsed);
      WithoutBoth(old(Views(c.entries)), PausedKeys(taskId, servers[..i]), before, {key}, Views(c.entries));
      OneMoreServer(taskId, servers, i);
    }
    assert servers[..|servers|] == servers;
  }

  lemma NoServers(taskId: int, servers: seq<string>)
    ensures PausedKeys(taskId, servers[..0]) == {}
  {}

  lemma OneMoreServer(taskId: int, servers: seq<string>, i: nat)
    requires i < |servers|
    ensures PausedKeys(taskId, servers[..i + 1])
         == PausedKeys(taskId, servers[..i]) + {PausedKey(taskId, servers[i])}
  {
    hide PausedKey;
    assert servers[..i + 1] == servers[..i] + [servers[i]];
  }

  /** Among the task numbers there are, a key determines its task exactly when the server number has five digits. */
  lemma JobKeyNamesItsTask(s: int)
    ensures 0 <= s < 100000
       <==> forall t, t', s' :: t >= 1 && t' >= 1 && 0 <= s' < 100000 && JobKey(t, s) == JobKey(t', s') ==> t == t'
  {
    if !(0 <= s < 100000) {
      var t := if s < 0 then 1 - s / 100000 else 1;
      assert JobKey(t, s) == JobKey(t + s / 100000, s % 100000);
    }
  }

  lemma TaskOfKey(t: int, s: int)
    requires 0 <= s < 100000
    ensures JobKey(t, s) / 100000 == t
  {}

  /** With five-digit server numbers, pausing a task takes out no entry of another task. */
  lemma PauseSparesOtherTasks(taskId: int, servers: seq<string>, other: int, s': int)
    requires forall s <- servers :: 0 <= AtoiIgnoringErrors(s) < 100000
    requires other != taskId && 0 <= s' < 100000
    ensures JobKey(other, s') !in PausedKeys(taskId, servers)
  {
    hide AtoiIgnoringErrors, JobKey;
    TaskOfKey(other, s');
    forall s <- servers ensures JobKey(other, s') != PausedKey(taskId, s) {
      TaskOfKey(taskId, AtoiIgnoringErrors(s));
    }
  }
}

/** The background worker and the hub's task table. The worker fetches pending tasks over the network, runs them
    without waiting, and reports each status change with a call it does not wait for either; so fetches, runs and
    reports of many tasks interleave, and a report may be late, overtaken or lost. */
module TaskWorker {
  import RunParallel

  datatype Status = Pending | Running | Completed | Failed

  /** Row i is the task with id i; rows are in creation order. */
  type Table = seq<Status>

  datatype Update = Update(id: nat, status: Status)

  // ---- The table ----

  /** The oldest `limit` pending tasks from row `from` on. */
  function PendingFrom(table: Table, from: nat, limit: nat): (ids: seq<nat>)
    decreases |table| - from
  {
    if from >= |table| || limit == 0 then []
    else if table[from] == Pending then [from] + PendingFrom(table, from + 1, limit - 1)
    else PendingFrom(table, from + 1, limit)
  }

  /** Distinct pending tasks, no more than asked for, oldest first. */
  lemma {:induction false} PendingFromIsPending(table: Table, from: nat, limit: nat)
    ensures var ids := PendingFrom(table, from, limit);
            && |ids| <= limit
            && (forall i | 0 <= i < |ids| :: from <= ids[i] < |table| && table[ids[i]] == Pending)
            && (forall i, j | 0 <= i < j < |ids| :: ids[i] < ids[j])
    decreases |table| - from
  {
    if from < |table| && limit > 0 {
      PendingFromIsPending(table, from + 1, if table[from] == Pending then limit - 1 else limit);
    }
  }

  /** A pending task is left out only when as many older ones as asked for were found. */
  lemma {:induction false} PendingFromIsOldest(table: Table, from: nat, limit: nat, id: nat)
    requires from <= id < |table| && table[id] == Pending && id !in PendingFrom(table, from, limit)
    ensures var ids := PendingFrom(table, from, limit); |ids| == limit && forall k <- ids :: k < id
    decreases |table| - from
  {
    if limit > 0 {
      if table[from] == Pending {
        var rest := PendingFrom(table, from + 1, limit - 1);
        assert PendingFrom(table, from, limit) == [from] + rest;
        assert from in [from] + rest;
        PendingFromIsOldest(table, from + 1, limit - 1, id);
      } else {
        PendingFromIsOldest(table, from + 1, limit, id);
      }
    }
  }

  /** An update of an unknown id changes no row. */
  function Apply(table: Table, u: Update): (t: Table)
    ensures |t| == |table|
  {
    if u.id < |table| then table[u.id := u.status] else table
  }

  /** The table once all reports on their way have arrived in order. */
  function Drained(table: Table, outbox: seq<Update>): (t: Table)
    ensures |t| == |table|
    decreases |outbox|
  {
    if outbox == [] then table else Drained(Apply(table, outbox[0]), outbox[1..])
  }

  lemma {:induction false} DrainedAppend(table: Table, outbox: seq<Update>, u: Update)
    ensures Drained(table, outbox + [u]) == Apply(Drained(table, outbox), u)
    decreases |outbox|
  {
    if outbox == [] {
      assert [u][1..] == [];
    } else {
      assert (outbox + [u])[1..] == outbox[1..] + [u];
      DrainedAppend(Apply(table, outbox[0]), outbox[1..], u);
    }
  }

  lemma {:induction false} DrainedNewRow(table: Table, outbox: seq<Update>)
    requires forall u <- outbox :: u.id < |table|
    ensures Drained(table + [Pending], outbox) == Drained(table, outbox) + [Pending]
    decreases |outbox|
  {
    if outbox != [] {
      assert outbox[0] in outbox;
      assert Apply(table + [Pending], outbox[0]) == Apply(table, outbox[0]) + [Pending];
      DrainedNewRow(Apply(table, outbox[0]), outbox[1..]);
    }
  }

  // ---- The steps ----

  const MAX_CONCURRENT_TASKS := 5

  /** Where the main loop is suspended: not started, sleeping while paused, awaiting the fetch (and then holding
      its reply), sleeping between polls, or left for good. */
  datatype Loop = NotStarted | PauseSleep | Fetching(asked: nat) | Fetched(ids: seq<nat>) | Waiting | Exited

  /** `inflight` are the runs not yet finished, `started` all runs in order, `outcome` how each id last ended. */
  datatype State = State(
    table: Table, running: bool, paused: bool, current: nat, loop: Loop,
    inflight: seq<nat>, started: seq<nat>, outcome: map<nat, Status>, outbox: seq<Update>)

  datatype Event =
    | Enqueue
    | Start(load: RunParallel.Load)
    | Turn(load: RunParallel.Load)
    | Query
    | FetchFails
    | Reply
    | Finish(run: nat, ok: bool)
    | Deliver(report: nat)
    | Lose(report: nat)
    | Halt
    | Recover(score: int)
    | Stop

  /** The head of the loop, up to its next await. */
  function LoopHead(s: State, load: RunParallel.Load): State {
    if !s.running then s.(loop := Exited)
    else if s.paused then s.(loop := PauseSleep)
    else
      var limit := RunParallel.DynamicConcurrency(MAX_CONCURRENT_TASKS, load);
      if s.current < limit then s.(loop := Fetching(limit - s.current)) else s.(loop := Waiting)
  }

  function RunningReports(ids: seq<nat>): seq<Update> {
    seq(|ids|, i requires 0 <= i < |ids| => Update(ids[i], Running))
  }

  /** `runTask` for each task of the reply: count it, report RUNNING, start it. */
  function StartRuns(s: State, ids: seq<nat>): State {
    s.(current := s.current + |ids|, inflight := s.inflight + ids, started := s.started + ids,
       outbox := s.outbox + RunningReports(ids))
  }

  lemma StartRunsOneByOne(s: State, ids: seq<nat>)
    requires ids != []
    ensures StartRuns(s, ids) == StartRuns(StartRuns(s, [ids[0]]), ids[1..])
  {
    assert ids == [ids[0]] + ids[1..];
    assert RunningReports(ids) == RunningReports([ids[0]]) + RunningReports(ids[1..]);
    var l, r := StartRuns(s, ids), StartRuns(StartRuns(s, [ids[0]]), ids[1..]);
    assert l.inflight == r.inflight && l.started == r.started && l.outbox == r.outbox;
  }

  function RemoveAt<T>(xs: seq<T>, k: nat): seq<T>
    requires k < |xs|
  {
    xs[..k] + xs[k + 1..]
  }

  lemma RemovedIs<T>(xs: seq<T>, k: nat)
    requires k < |xs|
    ensures multiset(RemoveAt(xs, k)) + multiset{xs[k]} == multiset(xs)
    ensures multiset(RemoveAt(xs, k)) == multiset(xs) - multiset{xs[k]}
  {
    assert xs == xs[..k] + [xs[k]] + xs[k + 1..];
  }

  function FinishRun(s: State, run: nat, ok: bool): State
    requires run < |s.inflight| && s.current > 0
  {
    var id, status := s.inflight[run], if ok then Completed else Failed;
    s.(current := s.current - 1, inflight := RemoveAt(s.inflight, run),
       outcome := s.outcome[id := status], outbox := s.outbox + [Update(id, status)])
  }

  predicate Enabled(s: State, e: Event) {
    match e
    case Start(_) => s.loop == NotStarted
    case Turn(_) => s.loop == PauseSleep || s.loop == Waiting
    case Query => s.loop.Fetching?
    case FetchFails => s.loop.Fetching?
    case Reply => s.loop.Fetched?
    case Finish(run, _) => run < |s.inflight| && s.current > 0
    case Deliver(report) => report < |s.outbox|
    case Lose(report) => report < |s.outbox|
    case _ => true
  }

  function Step(s: State, e: Event): State {
    if !Enabled(s, e) then s
    else
      match e
      case Enqueue => s.(table := s.table + [Pending])
      case Start(load) => LoopHead(s.(running := true), load)
      case Turn(load) => LoopHead(s, load)
      case Query => s.(loop := Fetched(PendingFrom(s.table, 0, s.loop.asked)))
      case FetchFails => s.(loop := Fetched([]))
      case Reply => StartRuns(s.(loop := Waiting), s.loop.ids)
      case Finish(run, ok) => FinishRun(s, run, ok)
      case Deliver(k) => s.(table := Apply(s.table, s.outbox[k]), outbox := RemoveAt(s.outbox, k))
      case Lose(k) => s.(outbox := RemoveAt(s.outbox, k))
      case Halt => s.(paused := true)
      case Recover(score) => s.(paused := s.paused && score <= 60)
      case Stop => s.(running := false)
  }

  function Run(s: State, es: seq<Event>): State
    decreases |es|
  {
    if es == [] then s else Run(Step(s, es[0]), es[1..])
  }

  const INITIAL := State([], false, false, 0, NotStarted, [], [], map[], [])

  // ---- In every run, whatever happens to the reports ----

  /** A fetch asks for no more than the room left, and runs only end while it is awaited. */
  predicate Safe(s: State) {
    && s.current == |s.inflight|
    && s.current <= MAX_CONCURRENT_TASKS
    && (s.loop.Fetching? ==> s.current + s.loop.asked <= MAX_CONCURRENT_TASKS)
    && (s.loop.Fetched? ==> s.current + |s.loop.ids| <= MAX_CONCURRENT_TASKS)
    && (forall u <- s.outbox :: u.status != Pending)
  }

  lemma StepKeepsSafe(s: State, e: Event)
    requires Safe(s)
    ensures Safe(Step(s, e))
  {
    if Enabled(s, e) {
      match e
      case Query => PendingFromIsPending(s.table, 0, s.loop.asked);
      case _ =>
    }
  }

  lemma {:induction false} RunKeepsSafe(s: State, es: seq<Event>)
    requires Safe(s)
    ensures Safe(Run(s, es))
    decreases |es|
  {
    if es != [] {
      StepKeepsSafe(s, es[0]);
      RunKeepsSafe(Step(s, es[0]), es[1..]);
    }
  }

  /** In every run the runs in flight never exceed the maximum, although the limit changes between the moment a
      fetch is sized and the moment its tasks are started. */
  lemma InFlightIsBounded(es: seq<Event>)
    ensures |Run(INITIAL, es).inflight| <= MAX_CONCURRENT_TASKS
  {
    RunKeepsSafe(INITIAL, es);
  }

  /** A task that has left PENDING never returns to it, even when reports are lost or overtaken. */
  lemma {:induction false} NeverPendingAgain(s: State, es: seq<Event>, id: nat)
    requires Safe(s) && id < |s.table| && s.table[id] != Pending
    ensures id < |Run(s, es).table| && Run(s, es).table[id] != Pending
    decreases |es|
  {
    if es != [] {
      var e := es[0];
      if e.Deliver? && e.report < |s.outbox| {
        assert s.outbox[e.report] in s.outbox;
      }
      StepKeepsSafe(s, e);
      NeverPendingAgain(Step(s, e), es[1..], id);
    }
  }

  /** The event does not end a pause: only a health score above 60 does. */
  predicate KeepsPause(e: Event) {
    e.Recover? ==> e.score <= 60
  }

  /** The tasks that may still be started without another fetch: those of a reply in hand, or as many as the fetch
      that is awaited asked for. */
  function Due(s: State): nat {
    match s.loop
    case Fetching(asked) => asked
    case Fetched(ids) => |ids|
    case _ => 0
  }

  lemma PausedStep(s: State, e: Event)
    requires s.paused && KeepsPause(e)
    ensures var r := Step(s, e);
            && r.paused && s.started <= r.started && |r.started| + Due(r) <= |s.started| + Due(s)
            && (r.loop.Fetching? ==> r.loop == s.loop && r.started == s.started)
            && (s.loop.Fetched? ==> (r.started == s.started && r.loop == s.loop)
                                    || (r.started == s.started + s.loop.ids && Due(r) == 0))
  {
    hide PendingFrom, Apply, RunningReports;
    if e == Query && s.loop.Fetching? {
      PendingFromIsPending(s.table, 0, s.loop.asked);
    }
  }

  /** A paused worker asks for nothing and starts only what it had asked for before, until its health recovers: also
      when the pause arrives while a fetch is awaited, whose reply is still run. */
  lemma {:induction false} PausedWorkerFetchesNothing(s: State, es: seq<Event>)
    requires s.paused && forall e <- es :: KeepsPause(e)
    ensures var r := Run(s, es);
            && r.paused && s.started <= r.started && |r.started| + Due(r) <= |s.started| + Due(s)
            && (r.loop.Fetching? ==> r.loop == s.loop && r.started == s.started)
            && (s.loop.Fetched? ==> r.started == s.started || r.started == s.started + s.loop.ids)
    decreases |es|
  {
    hide Step;
    if es != [] {
      assert KeepsPause(es[0]);
      PausedStep(s, es[0]);
      PausedWorkerFetchesNothing(Step(s, es[0]), es[1..]);
    }
  }

  // ---- When reports arrive in order, none is lost, and RUNNING lands before the next query ----

  /** The hypotheses on one event. */
  predicate Timely(s: State, e: Event) {
    match e
    case Deliver(k) => k == 0
    case Lose(_) => false
    case Query => forall u <- s.outbox :: u.status != Running
    case _ => true
  }

  predicate TimelyRun(s: State, es: seq<Event>)
    decreases |es|
  {
    es == [] || (Timely(s, es[0]) && TimelyRun(Step(s, es[0]), es[1..]))
  }

  predicate NoDuplicates(ids: seq<nat>) {
    forall i, j | 0 <= i < j < |ids| :: ids[i] != ids[j]
  }

  /** What the task's status is meant to be. */
  function Meant(s: State, id: nat): Status {
    if id in s.inflight then Running else if id in s.outcome then s.outcome[id] else Pending
  }

  /** Tasks about to be started: known, distinct and never started before. */
  ghost predicate Fresh(s: State, ids: seq<nat>) {
    NoDuplicates(ids) && forall id <- ids :: id < |s.table| && id !in s.started
  }

  /** No task was started twice, and only started ones are in flight, have ended or are reported on. */
  ghost predicate Once(s: State) {
    && NoDuplicates(s.started) && NoDuplicates(s.inflight)
    && (forall id <- s.started :: id < |s.table|)
    && (forall id <- s.inflight :: id in s.started && id !in s.outcome)
    && (forall id | id in s.outcome :: id in s.started)
    && (forall u <- s.outbox :: u.id in s.started)
  }

  /** Draining the reports leaves every row as it is meant to be. */
  ghost predicate Accounted(s: State) {
    forall id | 0 <= id < |s.table| :: Drained(s.table, s.outbox)[id] == Meant(s, id)
  }

  /** A started task whose row still says PENDING has its RUNNING report on its way. */
  ghost predicate Announced(s: State) {
    forall id <- s.started :: id < |s.table| && s.table[id] == Pending ==> Update(id, Running) in s.outbox
  }

  ghost predicate Orderly(s: State) {
    Once(s) && Accounted(s) && Announced(s)
  }

  lemma EnqueueKeepsOrderly(s: State)
    requires Orderly(s)
    ensures Orderly(Step(s, Enqueue))
  {
    assert forall u <- s.outbox :: u.id < |s.table|;
    DrainedNewRow(s.table, s.outbox);
  }

  lemma StartOneKeepsOnce(s: State, id: nat)
    requires Once(s) && id < |s.table| && id !in s.started
    ensures Once(StartRuns(s, [id]))
  {
  }

  lemma StartOneKeepsAccounted(s: State, id: nat)
    requires Once(s) && Accounted(s) && id < |s.table| && id !in s.started
    ensures Accounted(StartRuns(s, [id]))
  {
    hide Drained;
    assert RunningReports([id]) == [Update(id, Running)];
    DrainedAppend(s.table, s.outbox, Update(id, Running));
    var r := StartRuns(s, [id]);
    forall k | 0 <= k < |r.table| && k != id
      ensures Meant(r, k) == Meant(s, k)
    {
    }
    assert r.inflight[|s.inflight|] == id;
  }

  lemma StartOneKeepsAnnounced(s: State, id: nat)
    requires Announced(s)
    ensures Announced(StartRuns(s, [id]))
  {
    var r := StartRuns(s, [id]);
    assert r.outbox[|s.outbox|] == Update(id, Running);
  }

  lemma {:induction false} StartRunsKeepsOrderly(s: State, ids: seq<nat>)
    requires Orderly(s) && Fresh(s, ids)
    ensures Orderly(StartRuns(s, ids))
    decreases |ids|
  {
    hide Once, Accounted, Announced;
    if ids == [] {
      var r := StartRuns(s, ids);
      assert r.inflight == s.inflight && r.started == s.started && r.outbox == s.outbox;
      assert r == s;
    } else {
      var s1 := StartRuns(s, [ids[0]]);
      assert ids[0] in ids;
      StartOneKeepsOnce(s, ids[0]);
      StartOneKeepsAccounted(s, ids[0]);
      StartOneKeepsAnnounced(s, ids[0]);
      forall id <- ids[1..]
        ensures id < |s1.table| && id !in s1.started
      {
        assert id in ids;
      }
      StartRunsKeepsOrderly(s1, ids[1..]);
      StartRunsOneByOne(s, ids);
    }
  }

  lemma RemoveAtDrops(ids: seq<nat>, k: nat)
    requires NoDuplicates(ids) && k < |ids|
    ensures NoDuplicates(RemoveAt(ids, k))
    ensures forall id :: id in RemoveAt(ids, k) <==> id in ids && id != ids[k]
  {
    var r := RemoveAt(ids, k);
    forall id | id in ids && id != ids[k]
      ensures id in r
    {
      var i :| 0 <= i < |ids| && ids[i] == id;
      assert (if i < k then r[i] else r[i - 1]) == id;
    }
  }

  lemma FinishKeepsOrderly(s: State, run: nat, ok: bool)
    requires Orderly(s) && Enabled(s, Finish(run, ok))
    ensures Orderly(Step(s, Finish(run, ok)))
  {
    hide Drained, RemoveAt;
    var id, r := s.inflight[run], Step(s, Finish(run, ok));
    DrainedAppend(s.table, s.outbox, Update(id, if ok then Completed else Failed));
    RemoveAtDrops(s.inflight, run);
    assert id in s.inflight;
    assert Accounted(r) by {
      forall k | 0 <= k < |r.table| && k != id
        ensures Meant(r, k) == Meant(s, k)
      {
      }
    }
  }

  lemma DeliverKeepsOrderly(s: State)
    requires Orderly(s) && s.outbox != [] && forall u <- s.outbox :: u.status != Pending
    ensures Orderly(Step(s, Deliver(0)))
  {
    var u, r := s.outbox[0], Step(s, Deliver(0));
    assert u in s.outbox && r.outbox == s.outbox[1..];
    assert Drained(s.table, s.outbox) == Drained(r.table, r.outbox);
    assert Accounted(r) by {
      assert forall id :: Meant(r, id) == Meant(s, id);
    }
    forall k <- r.started | k < |r.table| && r.table[k] == Pending
      ensures Update(k, Running) in r.outbox
    {
      assert k != u.id;
      assert Update(k, Running) in s.outbox;
    }
  }

  lemma QueryFindsFresh(s: State)
    requires Orderly(s) && s.loop.Fetching? && Timely(s, Query)
    ensures Fresh(s, Step(s, Query).loop.ids)
  {
    PendingFromIsPending(s.table, 0, s.loop.asked);
    forall id <- Step(s, Query).loop.ids
      ensures id < |s.table| && id !in s.started
    {
      assert s.table[id] == Pending;
      assert Update(id, Running).status == Running;
    }
  }

  ghost predicate Invariant(s: State) {
    Safe(s) && Orderly(s) && (s.loop.Fetched? ==> Fresh(s, s.loop.ids))
  }

  lemma StepKeepsInvariant(s: State, e: Event)
    requires Invariant(s) && Timely(s, e)
    ensures Invariant(Step(s, e))
  {
    hide Drained, Safe, Meant, Once, Accounted, Announced;
    StepKeepsSafe(s, e);
    if Enabled(s, e) {
      match e
      case Enqueue => EnqueueKeepsOrderly(s);
      case Query =>
        QueryFindsFresh(s);
        OrderlyIgnoresLoop(s, Step(s, e));
      case Reply =>
        var s1 := s.(loop := Waiting);
        OrderlyIgnoresLoop(s, s1);
        StartRunsKeepsOrderly(s1, s.loop.ids);
      case Finish(run, ok) => FinishKeepsOrderly(s, run, ok);
      case Deliver(_) =>
        SafeReports(s);
        DeliverKeepsOrderly(s);
      case _ => OrderlyIgnoresLoop(s, Step(s, e));
    }
  }

  lemma SafeReports(s: State)
    requires Safe(s)
    ensures forall u <- s.outbox :: u.status != Pending
  {
  }

  lemma OrderlyIgnoresLoop(s: State, r: State)
    requires Orderly(s)
    requires r == s.(loop := r.loop, running := r.running, paused := r.paused)
    ensures Orderly(r)
  {
    assert forall id :: Meant(r, id) == Meant(s, id);
  }

  lemma {:induction false} RunKeepsInvariant(s: State, es: seq<Event>)
    requires Invariant(s) && TimelyRun(s, es)
    ensures Invariant(Run(s, es))
    decreases |es|
  {
    if es != [] {
      StepKeepsInvariant(s, es[0]);
      RunKeepsInvariant(Step(s, es[0]), es[1..]);
    }
  }

  /** In every timely run each task is started at most once, and once its reports have arrived its row says
      RUNNING while it runs, how it ended afterwards, and PENDING if it was never started. */
  lemma EachTaskRunsOnce(es: seq<Event>)
    requires TimelyRun(INITIAL, es)
    ensures NoDuplicates(Run(INITIAL, es).started)
    ensures var s := Run(INITIAL, es);
            s.outbox == [] ==> forall id | 0 <= id < |s.table| :: s.table[id] == Meant(s, id)
  {
    RunKeepsInvariant(INITIAL, es);
  }

  // ---- The hypotheses are needed ----

  /** One task, fetched and started, with its RUNNING report on its way. */
  const ONE_STARTED := State([Pending], true, false, 1, Waiting, [0], [0], map[], [Update(0, Running)])

  lemma FirstFourSteps()
    ensures Step(Step(Step(Step(INITIAL, Enqueue), Start(RunParallel.Idle)), Query), Reply) == ONE_STARTED
  {
    hide Drained;
    var s1 := Step(INITIAL, Enqueue);
    assert s1.table == [Pending];
    var s2 := Step(s1, Start(RunParallel.Idle));
    assert PendingFrom([Pending], 0, 5) == [0];
    var s3 := Step(s2, Query);
    var s4 := Step(s3, Reply);
    assert s4.started == [] + [0] && s4.inflight == [] + [0] && s4.outbox == [] + [Update(0, Running)];
  }

  lemma PolledAgain()
    ensures Step(Step(Step(ONE_STARTED, Turn(RunParallel.Idle)), Query), Reply).started == [0, 0]
  {
    hide Drained;
    var s5 := Step(ONE_STARTED, Turn(RunParallel.Idle));
    assert PendingFrom([Pending], 0, 4) == [0];
    var s7 := Step(Step(s5, Query), Reply);
    assert s7.started == [0] + [0];
  }

  /** A poll that overtakes the RUNNING report starts the task a second time. */
  lemma LateRunningReportRunsTwice()
    ensures exists es: seq<Event> :: !NoDuplicates(Run(INITIAL, es).started)
  {
    hide Run, Step;
    var es := [Enqueue, Start(RunParallel.Idle), Query, Reply, Turn(RunParallel.Idle), Query, Reply];
    FirstFourSteps();
    PolledAgain();
    SevenSteps(es);
    var started := Run(INITIAL, es).started;
    assert started[0] == started[1];
  }

  lemma SevenSteps(es: seq<Event>)
    requires |es| == 7
    ensures Run(INITIAL, es)
         == Step(Step(Step(Step(Step(Step(Step(INITIAL, es[0]), es[1]), es[2]), es[3]), es[4]), es[5]), es[6])
  {
    hide Step;
    assert es[6..][1..] == [] && es[5..][1..] == es[6..] && es[4..][1..] == es[5..] && es[3..][1..] == es[4..];
    assert es[2..][1..] == es[3..] && es[1..][1..] == es[2..];
    var s1 := Step(INITIAL, es[0]);
    var s2 := Step(s1, es[1]);
    var s3 := Step(s2, es[2]);
    var s4 := Step(s3, es[3]);
    assert Run(s4, es[4..]) == Step(Step(Step(s4, es[4]), es[5]), es[6]) by {
      RunUnfolds(s4, es[4..]);
      RunUnfolds(Step(s4, es[4]), es[5..]);
      RunUnfolds(Step(Step(s4, es[4]), es[5]), es[6..]);
    }
    RunUnfolds(INITIAL, es);
    RunUnfolds(s1, es[1..]);
    RunUnfolds(s2, es[2..]);
    RunUnfolds(s3, es[3..]);
  }

  lemma RunUnfolds(s: State, es: seq<Event>)
    requires es != []
    ensures Run(s, es) == Run(Step(s, es[0]), es[1..])
  {
  }

  lemma OvertakenReport()
    ensures var s := Step(Step(Step(ONE_STARTED, Finish(0, true)), Deliver(1)), Deliver(0));
            s.outbox == [] && s.inflight == [] && s.outcome == map[0 := Completed] && s.table == [Running]
  {
    hide Drained, PendingFrom;
    var s5 := Step(ONE_STARTED, Finish(0, true));
    assert s5.inflight == [] && s5.outbox == [Update(0, Running), Update(0, Completed)];
    var s6 := Step(s5, Deliver(1));
    assert s6.outbox == [Update(0, Running)];
  }

  /** A COMPLETED report that overtakes the RUNNING one: a run after which all reports have arrived, nothing is in
      flight, and the row of the finished task still says RUNNING. */
  lemma OvertakenReportSticks()
    ensures exists es: seq<Event> ::
              var s := Run(INITIAL, es);
              s.outbox == [] && s.inflight == [] && s.outcome == map[0 := Completed] && s.table == [Running]
  {
    hide Run, Step;
    var es := [Enqueue, Start(RunParallel.Idle), Query, Reply, Finish(0, true), Deliver(1), Deliver(0)];
    FirstFourSteps();
    OvertakenReport();
    SevenSteps(es);
    assert |Run(INITIAL, es).table| == 1;
  }

  // ---- The code ----

  class TaskStore {
    var table: Table

    constructor ()
      ensures table == []
    {
      table := [];
    }

    method EnqueueTask()
      modifies this
      ensures table == old(table) + [Pending]
    {
      table := table + [Pending];
    }

    /** `WHERE status = 'PENDING' ORDER BY created_at ASC LIMIT ?`, row by row. */
    method GetPendingTasks(limit: nat) returns (tasks: seq<nat>)
      ensures tasks == PendingFrom(table, 0, limit)
    {
      tasks := [];
      var row := 0;
      while row < |table| && |tasks| < limit
        invariant 0 <= row <= |table| && |tasks| <= limit
        invariant PendingFrom(table, 0, limit) == tasks + PendingFrom(table, row, limit - |tasks|)
      {
        if table[row] == Pending {
          tasks := tasks + [row];
        }
        row := row + 1;
      }
    }

    method UpdateTask(id: nat, status: Status)
      modifies this
      ensures table == Apply(old(table), Update(id, status))
    {
      if id < |table| {
        table := table[id := status];
      }
    }
  }

  class Worker {
    const store: TaskStore
    var running: bool
    var paused: bool
    var currentTasks: nat
    var loop: Loop
    var inflight: seq<nat>
    var started: seq<nat>
    var outcome: map<nat, Status>
    var outbox: seq<Update>

    ghost function View(): State
      reads this, store
    {
      State(store.table, running, paused, currentTasks, loop, inflight, started, outcome, outbox)
    }

    constructor (store: TaskStore)
      requires store.table == []
      ensures this.store == store && View() == INITIAL
    {
      this.store := store;
      running, paused, currentTasks, loop := false, false, 0, NotStarted;
      inflight, started, outcome, outbox := [], [], map[], [];
    }

    /** The loop's head up to its next await; nothing is fetched while paused. */
    method ContinueLoop(load: RunParallel.Load)
      modifies this
      ensures View() == LoopHead(old(View()), load)
      ensures paused ==> !loop.Fetching?
    {
      if !running {
        loop := Exited;
      } else if paused {
        loop := PauseSleep;
      } else {
        var limit := RunParallel.DynamicConcurrency(MAX_CONCURRENT_TASKS, load);
        if currentTasks < limit {
          loop := Fetching(limit - currentTasks);
        } else {
          loop := Waiting;
        }
      }
    }

    method StartWorker(load: RunParallel.Load)
      requires loop == NotStarted
      modifies this
      ensures View() == Step(old(View()), Start(load))
    {
      running := true;
      ContinueLoop(load);
    }

    /** The query runs in the hub while the worker awaits its reply. */
    method FetchPending()
      requires loop.Fetching?
      modifies this
      ensures View() == Step(old(View()), Query)
    {
      var tasks := store.GetPendingTasks(loop.asked);
      loop := Fetched(tasks);
    }

    method RunFetchedTasks()
      requires loop.Fetched?
      modifies this
      ensures View() == Step(old(View()), Reply)
    {
      var tasks := loop.ids;
      loop := Waiting;
      ghost var before := View();
      var i := 0;
      while i < |tasks|
        invariant 0 <= i <= |tasks|
        invariant StartRuns(View(), tasks[i..]) == StartRuns(before, tasks)
      {
        StartRunsOneByOne(View(), tasks[i..]);
        assert tasks[i..][1..] == tasks[i + 1..] && RunningReports([tasks[i]]) == [Update(tasks[i], Running)];
        var id := tasks[i];
        currentTasks := currentTasks + 1;
        inflight, started := inflight + [id], started + [id];
        outbox := outbox + [Update(id, Running)];
        i := i + 1;
      }
      assert StartRuns(View(), []) == View() by {
        assert inflight + [] == inflight && started + [] == started && outbox + RunningReports([]) == outbox;
      }
    }

    method FinishTask(run: nat, ok: bool)
      requires run < |inflight| && currentTasks > 0
      modifies this
      ensures View() == Step(old(View()), Finish(run, ok))
    {
      var id, status := inflight[run], if ok then Completed else Failed;
      outbox := outbox + [Update(id, status)];
      outcome := outcome[id := status];
      inflight := RemoveAt(inflight, run);
      currentTasks := currentTasks - 1;
    }

    method DeliverReport(k: nat)
      requires k < |outbox|
      modifies this, store
      ensures View() == Step(old(View()), Deliver(k))
    {
      store.UpdateTask(outbox[k].id, outbox[k].status);
      outbox := RemoveAt(outbox, k);
    }

    method OnHealthCheck(score: int)
      modifies this
      ensures View() == Step(old(View()), Recover(score))
    {
      if paused && score > 60 {
        paused := false;
      }
    }
  }
}

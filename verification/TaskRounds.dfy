/** The worker's turns, told on the table and the events: how a round uses its room, how a worker pauses and leaves, and
    where every run and every report stays. */
module TaskRounds {
  import RunParallel
  import opened TaskWorker

  // ---- One round ----

  /** How many tasks may be in flight: five, two under a moderate load, one under a heavy one. */
  function RoomFor(load: RunParallel.Load): nat {
    match load
    case Overloaded => 1
    case Moderate => 2
    case Idle => 5
  }

  /** At its head the loop is left when the worker was stopped; it sleeps when paused, waits without room, and otherwise
      asks for as many tasks as there is room. Starting the worker enters it. */
  lemma TurnExactly(s: State, load: RunParallel.Load, e: Event)
    requires Enabled(s, e) && (e == Turn(load) || e == Start(load))
    ensures var running := s.running || e.Start?;
            Step(s, e) == s.(running := running,
                             loop := if !running then Exited else if s.paused then PauseSleep
                                     else if s.current >= RoomFor(load) then Waiting
                                     else Fetching(RoomFor(load) - s.current))
  {
  }

  /** A round without other events in between starts the oldest pending tasks, as many as there is room for, reports
      RUNNING on each, and goes back to sleep. */
  lemma RoundStartsOldest(s: State, load: RunParallel.Load)
    requires Enabled(s, Turn(load)) && s.running && !s.paused && s.current < RoomFor(load)
    ensures var r, ids := Run(s, [Turn(load), Query, Reply]), PendingFrom(s.table, 0, RoomFor(load) - s.current);
            && r.started == s.started + ids && r.inflight == s.inflight + ids && r.current == s.current + |ids|
            && |r.outbox| == |s.outbox| + |ids| && r.outbox[..|s.outbox|] == s.outbox
            && (forall i | 0 <= i < |ids| :: r.outbox[|s.outbox| + i] == Update(ids[i], Running))
            && r.table == s.table && r.outcome == s.outcome && r.loop == Waiting
  {
    hide PendingFrom;
    var s1 := Step(s, Turn(load));
    var s2 := Step(s1, Query);
    var s3 := Step(s2, Reply);
    assert [Turn(load), Query, Reply][1..] == [Query, Reply] && [Query, Reply][1..] == [Reply] && [Reply][1..] == [];
    assert Run(s, [Turn(load), Query, Reply]) == s3 by {
      assert Run(s3, []) == s3;
      assert Run(s2, [Reply]) == s3;
      assert Run(s1, [Query, Reply]) == s3;
    }
  }

  // ---- Pausing and leaving ----

  /** A halt pauses, and a health score above 60 ends the pause; nothing else does either. */
  lemma PauseExactly(s: State, e: Event)
    ensures Step(s, e).paused <==> e == Halt || (s.paused && !(e.Recover? && e.score > 60))
    ensures Step(s, e).running <==> e != Stop && (s.running || (e.Start? && s.loop == NotStarted))
  {
    hide PendingFrom, Apply, RunningReports;
  }

  /** The loop is left at its head only, and only after a stop: neither a pause nor a failed fetch ends it. */
  lemma LeftExactly(s: State, e: Event)
    requires s.loop != Exited
    ensures Step(s, e).loop == Exited <==> e.Turn? && Enabled(s, e) && !s.running
  {
    hide PendingFrom, Apply, RunningReports;
  }

  /** After a failed fetch the worker sleeps and goes on, with everything else as it was. */
  lemma FailedFetchIsRetried(s: State)
    requires s.loop.Fetching?
    ensures Run(s, [FetchFails, Reply]) == s.(loop := Waiting)
  {
    var s1 := Step(s, FetchFails);
    var s2 := Step(s1, Reply);
    assert RunningReports([]) == [];
    assert s.inflight + [] == s.inflight && s.started + [] == s.started && s.outbox + [] == s.outbox;
    assert [FetchFails, Reply][1..] == [Reply] && [Reply][1..] == [];
    assert Run(s1, [Reply]) == Run(s2, []) == s2;
  }

  /** A worker that has left its loop never starts a task again, although runs in flight still end and report. */
  lemma {:induction false} LeftForGood(s: State, es: seq<Event>)
    requires s.loop == Exited
    ensures Run(s, es).loop == Exited && Run(s, es).started == s.started
    decreases |es|
  {
    hide PendingFrom, Apply, RunningReports;
    if es != [] {
      LeftForGood(Step(s, es[0]), es[1..]);
    }
  }

  // ---- Where every task, run and report stays ----

  function Count(es: seq<Event>, e: Event): nat {
    if es == [] then 0 else Count(es[1..], e) + if es[0] == e then 1 else 0
  }

  /** The run that the event ends, by its task. */
  function EndedBy(s: State, e: Event): seq<nat> {
    match e
    case Finish(run, _) => if run < |s.inflight| then [s.inflight[run]] else []
    case _ => []
  }

  /** The reports that the event sends: RUNNING for each task of a reply, and how a run ended. */
  function SentBy(s: State, e: Event): seq<Update> {
    match e
    case Reply =>
      if !s.loop.Fetched? then []
      else seq(|s.loop.ids|, i requires 0 <= i < |s.loop.ids| => Update(s.loop.ids[i], Running))
    case Finish(run, ok) => if run < |s.inflight| then [Update(s.inflight[run], if ok then Completed else Failed)] else []
    case _ => []
  }

  /** The report that the event delivers or loses. */
  function GoneBy(s: State, e: Event): seq<Update> {
    match e
    case Deliver(k) => if k < |s.outbox| then [s.outbox[k]] else []
    case Lose(k) => if k < |s.outbox| then [s.outbox[k]] else []
    case _ => []
  }

  function Ends(s: State, es: seq<Event>): multiset<nat>
    decreases |es|
  {
    if es == [] then multiset{} else multiset(EndedBy(s, es[0])) + Ends(Step(s, es[0]), es[1..])
  }

  function Sent(s: State, es: seq<Event>): multiset<Update>
    decreases |es|
  {
    if es == [] then multiset{} else multiset(SentBy(s, es[0])) + Sent(Step(s, es[0]), es[1..])
  }

  function Gone(s: State, es: seq<Event>): multiset<Update>
    decreases |es|
  {
    if es == [] then multiset{} else multiset(GoneBy(s, es[0])) + Gone(Step(s, es[0]), es[1..])
  }

  /** The runs of `s` and those started since are in flight in `r` or have ended. */
  ghost predicate RunsStay(s: State, r: State, ended: multiset<nat>) {
    multiset(r.started) + multiset(s.inflight) == multiset(s.started) + multiset(r.inflight) + ended
  }

  /** The reports on their way in `s` and those sent since are on their way in `r` or gone. */
  ghost predicate ReportsStay(s: State, r: State, sent: multiset<Update>, gone: multiset<Update>) {
    multiset(r.outbox) + gone == multiset(s.outbox) + sent
  }

  lemma FinishConserves(s: State, run: nat, ok: bool)
    requires Enabled(s, Finish(run, ok))
    ensures var e := Finish(run, ok);
            && RunsStay(s, Step(s, e), multiset(EndedBy(s, e)))
            && ReportsStay(s, Step(s, e), multiset(SentBy(s, e)), multiset{})
  {
    hide RemoveAt;
    RemovedIs(s.inflight, run);
  }

  lemma ReplyConserves(s: State)
    requires s.loop.Fetched?
    ensures RunsStay(s, Step(s, Reply), multiset{})
    ensures ReportsStay(s, Step(s, Reply), multiset(SentBy(s, Reply)), multiset{})
  {
    assert RunningReports(s.loop.ids) == SentBy(s, Reply);
  }

  lemma GoneConserves(s: State, e: Event)
    requires (e.Deliver? || e.Lose?) && e.report < |s.outbox|
    ensures RunsStay(s, Step(s, e), multiset{}) && ReportsStay(s, Step(s, e), multiset{}, multiset(GoneBy(s, e)))
  {
    hide RemoveAt;
    RemovedIs(s.outbox, e.report);
  }

  lemma OthersConserve(s: State, r: State)
    requires r.started == s.started && r.inflight == s.inflight && r.outbox == s.outbox
    ensures RunsStay(s, r, multiset{}) && ReportsStay(s, r, multiset{}, multiset{})
  {
  }

  lemma StepConserves(s: State, e: Event)
    requires Safe(s)
    ensures |Step(s, e).table| == |s.table| + (if e == Enqueue then 1 else 0)
    ensures RunsStay(s, Step(s, e), multiset(EndedBy(s, e)))
    ensures ReportsStay(s, Step(s, e), multiset(SentBy(s, e)), multiset(GoneBy(s, e)))
  {
    hide PendingFrom, RunsStay, ReportsStay, RunningReports;
    if e.Finish? && Enabled(s, e) {
      FinishConserves(s, e.run, e.ok);
    } else if e.Reply? && Enabled(s, e) {
      ReplyConserves(s);
    } else if (e.Deliver? || e.Lose?) && Enabled(s, e) {
      GoneConserves(s, e);
    } else {
      OthersConserve(s, Step(s, e));
    }
  }

  lemma RunsChain(s: State, m: State, r: State, a: multiset<nat>, b: multiset<nat>)
    requires RunsStay(s, m, a) && RunsStay(m, r, b)
    ensures RunsStay(s, r, a + b)
  {
    MultisetChain(multiset(s.started), multiset(m.started), multiset(r.started),
                  multiset(s.inflight), multiset(m.inflight), multiset(r.inflight), a, b);
  }

  lemma ReportsChain(
    s: State, m: State, r: State, a: multiset<Update>, b: multiset<Update>, c: multiset<Update>, d: multiset<Update>)
    requires ReportsStay(s, m, a, b) && ReportsStay(m, r, c, d)
    ensures ReportsStay(s, r, a + c, b + d)
  {
    var x, y, z := multiset(s.outbox), multiset(m.outbox), multiset(r.outbox);
    forall u
      ensures (z + (b + d))[u] == (x + (a + c))[u]
    {
      assert (y + b)[u] == (x + a)[u] && (z + d)[u] == (y + c)[u];
    }
  }

  lemma MultisetChain<T>(x: multiset<T>, y: multiset<T>, z: multiset<T>, u: multiset<T>, v: multiset<T>, w: multiset<T>,
                         a: multiset<T>, b: multiset<T>)
    requires y + u == x + v + a && z + v == y + w + b
    ensures z + u == x + w + (a + b)
  {
    forall t
      ensures (z + u)[t] == (x + w + (a + b))[t]
    {
      assert (y + u)[t] == (x + v + a)[t] && (z + v)[t] == (y + w + b)[t];
    }
  }

  lemma {:induction false} RunConserves(s: State, es: seq<Event>)
    requires Safe(s)
    ensures |Run(s, es).table| == |s.table| + Count(es, Enqueue)
    ensures RunsStay(s, Run(s, es), Ends(s, es)) && ReportsStay(s, Run(s, es), Sent(s, es), Gone(s, es))
    decreases |es|
  {
    hide Safe, Step, EndedBy, SentBy, GoneBy, RunsStay, ReportsStay;
    if es == [] {
      OthersConserve(s, s);
    } else {
      var e, m, rest := es[0], Step(s, es[0]), es[1..];
      StepConserves(s, e);
      StepKeepsSafe(s, e);
      RunConserves(m, rest);
      RunsChain(s, m, Run(s, es), multiset(EndedBy(s, e)), Ends(m, rest));
      ReportsChain(s, m, Run(s, es), multiset(SentBy(s, e)), multiset(GoneBy(s, e)), Sent(m, rest), Gone(m, rest));
    }
  }

  /** In every run each submitted task has one row, each started run is in flight or has ended, and each report that was
      sent is on its way, has arrived or was lost. */
  lemma NothingGetsLost(es: seq<Event>)
    ensures var r := Run(INITIAL, es);
            && |r.table| == Count(es, Enqueue)
            && multiset(r.started) == multiset(r.inflight) + Ends(INITIAL, es)
            && Sent(INITIAL, es) == multiset(r.outbox) + Gone(INITIAL, es)
  {
    hide Run, Ends, Sent, Gone, Step;
    RunConserves(INITIAL, es);
    var r := Run(INITIAL, es);
    StartFromNone(multiset(r.started), multiset(r.inflight), Ends(INITIAL, es));
  }

  lemma StartFromNone<T>(x: multiset<T>, y: multiset<T>, z: multiset<T>)
    requires x + multiset([]) == multiset([]) + y + z
    ensures x == y + z
  {
    assert x + multiset([]) == x && multiset([]) + y == y;
  }
}

/** What the worker's reports decide: exactly when a task runs twice and exactly when a finished task's row is right,
    for any order in which reports arrive and any of them lost. */
module TaskReports {
  import opened Prelude
  import opened TaskWorker

  // ---- Exactly when a task is started twice ----

  /** The query would find a task that was started already. */
  predicate Repolls(s: State) {
    s.loop.Fetching? && exists id <- PendingFrom(s.table, 0, s.loop.asked) :: id in s.started
  }

  /** No query of the run finds a task that was started already. */
  predicate FreshPolls(s: State, es: seq<Event>)
    decreases |es|
  {
    es == [] || (!(es[0] == Query && Repolls(s)) && FreshPolls(Step(s, es[0]), es[1..]))
  }

  /** A task was started twice, or is about to be. */
  predicate StartsAgain(s: State) {
    !NoDuplicates(s.started) || (s.loop.Fetched? && exists id <- s.loop.ids :: id in s.started)
  }

  predicate ReplyIsDistinct(s: State) {
    s.loop.Fetched? ==> NoDuplicates(s.loop.ids)
  }

  lemma JoinDuplicates(a: seq<nat>, b: seq<nat>)
    requires NoDuplicates(b)
    ensures NoDuplicates(a + b) <==> NoDuplicates(a) && forall id <- b :: id !in a
  {
    var c := a + b;
    assert forall i | 0 <= i < |a| :: c[i] == a[i];
    assert forall j | 0 <= j < |b| :: c[|a| + j] == b[j];
    if NoDuplicates(c) {
      forall id <- b
        ensures id !in a
      {
        var j :| 0 <= j < |b| && b[j] == id;
        assert forall i | 0 <= i < |a| :: c[i] != c[|a| + j];
      }
    } else {
      var i, j :| 0 <= i < j < |c| && c[i] == c[j];
      assert j >= |a| ==> b[j - |a|] in b;
    }
  }

  lemma StepStartsAgain(s: State, e: Event)
    requires ReplyIsDistinct(s)
    ensures ReplyIsDistinct(Step(s, e))
    ensures StartsAgain(Step(s, e)) <==> StartsAgain(s) || (e == Query && Repolls(s))
  {
    hide NoDuplicates, PendingFrom, Apply;
    if Enabled(s, e) {
      match e
      case Query => PolledOnce(s.table, s.loop.asked);
      case FetchFails => PolledOnce([], 0);
      case Reply => JoinDuplicates(s.started, s.loop.ids);
      case _ =>
    }
  }

  lemma PolledOnce(table: Table, limit: nat)
    ensures NoDuplicates(PendingFrom(table, 0, limit)) && NoDuplicates([])
  {
    PendingFromIsPending(table, 0, limit);
  }

  lemma {:induction false} RunStartsAgain(s: State, es: seq<Event>)
    requires ReplyIsDistinct(s)
    ensures StartsAgain(Run(s, es)) <==> StartsAgain(s) || !FreshPolls(s, es)
    decreases |es|
  {
    hide StartsAgain, Repolls, Step, ReplyIsDistinct;
    if es != [] {
      StepStartsAgain(s, es[0]);
      RunStartsAgain(Step(s, es[0]), es[1..]);
    }
  }

  /** Whatever happens to the reports: when no reply is waiting, every task was started at most once exactly when no
      query of the run found one that was started already. */
  lemma RunsOnceExactly(es: seq<Event>)
    requires !Run(INITIAL, es).loop.Fetched?
    ensures NoDuplicates(Run(INITIAL, es).started) <==> FreshPolls(INITIAL, es)
  {
    RunStartsAgain(INITIAL, es);
  }

  // ---- What a row holds ----

  /** The report that the event delivers, if any. */
  function DeliveredBy(s: State, e: Event): seq<Update> {
    if e.Deliver? && Enabled(s, e) then [s.outbox[e.report]] else []
  }

  /** The reports that have arrived, in order of arrival. */
  function Delivered(s: State, es: seq<Event>): seq<Update>
    decreases |es|
  {
    if es == [] then [] else DeliveredBy(s, es[0]) + Delivered(Step(s, es[0]), es[1..])
  }

  function LastStatus(us: seq<Update>, id: nat): Status {
    if us == [] then Pending
    else if us[|us| - 1].id == id then us[|us| - 1].status
    else LastStatus(us[..|us| - 1], id)
  }

  /** Every id in play has a row. */
  ghost predicate HaveRows(s: State) {
    && (forall id <- s.started :: id < |s.table|) && (forall id <- s.inflight :: id in s.started)
    && (forall u <- s.outbox :: u.id < |s.table|)
    && (s.loop.Fetched? ==> forall id <- s.loop.ids :: id < |s.table|)
  }

  /** Every row holds what the arrived reports `d` say last. */
  ghost predicate RowsFollow(s: State, d: seq<Update>) {
    && (forall u <- d :: u.id < |s.table|)
    && forall id | 0 <= id < |s.table| :: s.table[id] == LastStatus(d, id)
  }

  lemma StepKeepsRows(s: State, e: Event)
    requires HaveRows(s)
    ensures HaveRows(Step(s, e))
  {
    hide PendingFrom, Apply;
    if Enabled(s, e) {
      match e
      case Query => PendingFromIsPending(s.table, 0, s.loop.asked);
      case Finish(run, _) => assert s.inflight[run] in s.inflight;
      case Deliver(k) => assert forall u <- RemoveAt(s.outbox, k) :: u in s.outbox;
      case Lose(k) => assert forall u <- RemoveAt(s.outbox, k) :: u in s.outbox;
      case Reply => assert forall u <- RunningReports(s.loop.ids) :: u.id in s.loop.ids;
      case _ =>
    }
  }

  lemma {:induction false} NoReportIsPending(us: seq<Update>, id: nat)
    requires forall u <- us :: u.id != id
    ensures LastStatus(us, id) == Pending
  {
    if us != [] {
      assert us[|us| - 1] in us;
      NoReportIsPending(us[..|us| - 1], id);
    }
  }

  lemma StepFollows(s: State, d: seq<Update>, e: Event)
    requires HaveRows(s) && RowsFollow(s, d)
    ensures RowsFollow(Step(s, e), d + DeliveredBy(s, e))
  {
    hide PendingFrom;
    var r, d' := Step(s, e), d + DeliveredBy(s, e);
    if e.Deliver? && Enabled(s, e) {
      var u := s.outbox[e.report];
      assert u in s.outbox && d'[..|d'| - 1] == d;
    } else {
      assert d' == d;
      if e == Enqueue {
        NoReportIsPending(d, |s.table|);
      }
    }
  }

  lemma {:induction false} RunFollows(s: State, d: seq<Update>, es: seq<Event>)
    requires HaveRows(s) && RowsFollow(s, d)
    ensures RowsFollow(Run(s, es), d + Delivered(s, es))
    decreases |es|
  {
    hide HaveRows, RowsFollow, Step, DeliveredBy;
    if es == [] {
      assert d + [] == d;
    } else {
      StepKeepsRows(s, es[0]);
      StepFollows(s, d, es[0]);
      RunFollows(Step(s, es[0]), d + DeliveredBy(s, es[0]), es[1..]);
      assert d + Delivered(s, es) == d + DeliveredBy(s, es[0]) + Delivered(Step(s, es[0]), es[1..]);
    }
  }

  /** In every run each row holds the status of the last report on it that arrived, and PENDING if none did. */
  lemma RowHoldsLastReport(es: seq<Event>, id: nat)
    requires id < |Run(INITIAL, es).table|
    ensures Run(INITIAL, es).table[id] == LastStatus(Delivered(INITIAL, es), id)
  {
    hide Run, Delivered;
    RunFollows(INITIAL, [], es);
    assert [] + Delivered(INITIAL, es) == Delivered(INITIAL, es);
  }

  // ---- Exactly when the row of a finished task is right ----

  /** `u` arrived, and no RUNNING report on its task arrived after it. */
  predicate HasLastWord(d: seq<Update>, u: Update) {
    exists i | 0 <= i < |d| :: d[i] == u && forall j | i < j < |d| :: d[j] != Update(u.id, Running)
  }

  /** Every report says RUNNING or how its task ended. */
  ghost predicate Truthful(s: State, us: seq<Update>) {
    forall u <- us :: u.status == Running || (u.id in s.outcome && u.status == s.outcome[u.id])
  }

  ghost predicate Ended(s: State) {
    forall id | id in s.outcome :: s.outcome[id] == Completed || s.outcome[id] == Failed
  }

  lemma StartRunsKeepsOnce(s: State, ids: seq<nat>)
    requires Once(s) && NoDuplicates(s.started + ids) && forall id <- ids :: id < |s.table|
    ensures Once(StartRuns(s, ids))
  {
    var c := s.started + ids;
    assert forall i | 0 <= i < |s.started| :: c[i] == s.started[i];
    assert forall j | 0 <= j < |ids| :: c[|s.started| + j] == ids[j];
    assert forall id <- ids :: id !in s.started;
    var f := s.inflight + ids;
    forall i, j | 0 <= i < j < |f|
      ensures f[i] != f[j]
    {
      if i < |s.inflight| <= j {
        assert s.inflight[i] in s.inflight && ids[j - |s.inflight|] in ids;
      }
    }
  }

  lemma FinishKeepsOnce(s: State, run: nat, ok: bool)
    requires Once(s) && Enabled(s, Finish(run, ok))
    ensures Once(Step(s, Finish(run, ok)))
  {
    RemoveAtDrops(s.inflight, run);
    assert s.inflight[run] in s.inflight;
  }

  lemma StartedOnlyGrows(s: State, es: seq<Event>)
    ensures s.started <= Run(s, es).started
    decreases |es|
  {
    hide PendingFrom, Apply, RunningReports;
    if es != [] {
      StartedOnlyGrows(Step(s, es[0]), es[1..]);
    }
  }

  lemma PrefixHasNoDuplicates(a: seq<nat>, b: seq<nat>)
    requires a <= b && NoDuplicates(b)
    ensures NoDuplicates(a)
  {
    assert forall i | 0 <= i < |a| :: a[i] == b[i];
  }

  lemma StepKeepsOnce(s: State, e: Event)
    requires Once(s) && HaveRows(s) && NoDuplicates(Step(s, e).started)
    ensures Once(Step(s, e))
  {
    hide PendingFrom, NoDuplicates;
    if Enabled(s, e) {
      match e
      case Reply => StartRunsKeepsOnce(s.(loop := Waiting), s.loop.ids);
      case Finish(run, ok) => FinishKeepsOnce(s, run, ok);
      case _ =>
    }
  }

  lemma FinishKeepsTruthful(s: State, d: seq<Update>, run: nat, ok: bool)
    requires Once(s) && Ended(s) && Truthful(s, d) && Truthful(s, s.outbox) && Enabled(s, Finish(run, ok))
    ensures var r := Step(s, Finish(run, ok)); Ended(r) && Truthful(r, d) && Truthful(r, r.outbox)
  {
    hide RemoveAt, NoDuplicates;
    assert s.inflight[run] in s.inflight;
  }

  lemma GoneKeepsTruthful(s: State, d: seq<Update>, k: nat)
    requires Truthful(s, d) && Truthful(s, s.outbox) && k < |s.outbox|
    ensures Truthful(s, d + [s.outbox[k]]) && Truthful(s, RemoveAt(s.outbox, k))
  {
    assert s.outbox[k] in s.outbox;
    assert forall u <- RemoveAt(s.outbox, k) :: u in s.outbox;
  }

  lemma TruthfulWithOutcome(s: State, r: State, us: seq<Update>)
    requires Truthful(s, us) && r.outcome == s.outcome
    ensures Truthful(r, us)
  {
  }

  lemma StepKeepsTruthful(s: State, d: seq<Update>, e: Event)
    requires Once(s) && Ended(s) && Truthful(s, d) && Truthful(s, s.outbox)
    ensures Ended(Step(s, e)) && Truthful(Step(s, e), d + DeliveredBy(s, e)) && Truthful(Step(s, e), Step(s, e).outbox)
  {
    hide PendingFrom, Once, Apply, RemoveAt, Truthful;
    var r := Step(s, e);
    assert d + [] == d;
    if e.Finish? && Enabled(s, e) {
      FinishKeepsTruthful(s, d, e.run, e.ok);
    } else {
      TruthfulWithOutcome(s, r, d);
      TruthfulWithOutcome(s, r, s.outbox);
      if (e.Deliver? || e.Lose?) && Enabled(s, e) {
        GoneKeepsTruthful(s, d, e.report);
        TruthfulWithOutcome(s, r, d + [s.outbox[e.report]]);
        TruthfulWithOutcome(s, r, RemoveAt(s.outbox, e.report));
      } else if e.Reply? && Enabled(s, e) {
        RunningIsTruthful(r, s.outbox, s.loop.ids);
      }
    }
  }

  lemma RunningIsTruthful(s: State, us: seq<Update>, ids: seq<nat>)
    requires Truthful(s, us)
    ensures Truthful(s, us + RunningReports(ids))
  {
  }

  lemma {:induction false} RunKeepsTruthful(s: State, d: seq<Update>, es: seq<Event>)
    requires Once(s) && HaveRows(s) && Ended(s) && Truthful(s, d) && Truthful(s, s.outbox)
    requires NoDuplicates(Run(s, es).started)
    ensures Once(Run(s, es)) && Ended(Run(s, es)) && Truthful(Run(s, es), d + Delivered(s, es))
    decreases |es|
  {
    hide Once, HaveRows, Ended, Truthful, NoDuplicates, Step, DeliveredBy;
    if es == [] {
      assert d + [] == d;
    } else {
      var r := Step(s, es[0]);
      StartedOnlyGrows(r, es[1..]);
      PrefixHasNoDuplicates(r.started, Run(s, es).started);
      StepKeepsRows(s, es[0]);
      StepKeepsOnce(s, es[0]);
      StepKeepsTruthful(s, d, es[0]);
      RunKeepsTruthful(r, d + DeliveredBy(s, es[0]), es[1..]);
      assert d + Delivered(s, es) == d + DeliveredBy(s, es[0]) + Delivered(r, es[1..]);
    }
  }

  lemma {:induction false} LastStatusIsLastWord(d: seq<Update>, u: Update)
    requires u.status != Running && u.status != Pending
    requires forall v <- d :: v.id == u.id ==> v.status == Running || v.status == u.status
    ensures LastStatus(d, u.id) == u.status <==> HasLastWord(d, u)
  {
    if d != [] {
      var init, v := d[..|d| - 1], d[|d| - 1];
      assert v in d;
      LastStatusIsLastWord(init, u);
      if v == u {
        assert d[|d| - 1] == u;
      } else if HasLastWord(d, u) {
        var i :| 0 <= i < |d| && d[i] == u && forall j | i < j < |d| :: d[j] != Update(u.id, Running);
        assert init[i] == u && forall j | i < j < |init| :: init[j] == d[j];
      }
    }
  }

  /** In every run in which no task was started twice, the row of a finished task says how it ended exactly when its
      final report arrived and its RUNNING report did not arrive after it. */
  lemma FinishedRowExactly(es: seq<Event>, id: nat)
    requires NoDuplicates(Run(INITIAL, es).started) && id in Run(INITIAL, es).outcome
    ensures var s := Run(INITIAL, es);
            && id < |s.table|
            && (s.table[id] == s.outcome[id] <==> HasLastWord(Delivered(INITIAL, es), Update(id, s.outcome[id])))
  {
    hide Run, Delivered, NoDuplicates, LastStatus, HasLastWord;
    var s, d := Run(INITIAL, es), Delivered(INITIAL, es);
    assert Once(INITIAL) by {
      PolledOnce([], 0);
    }
    RunKeepsTruthful(INITIAL, [], es);
    assert [] + d == d;
    assert id in s.started;
    RowHoldsLastReport(es, id);
    LastStatusIsLastWord(d, Update(id, s.outcome[id]));
  }

  // ---- How a task ended ----

  /** Ending the run in place `run` records COMPLETED or FAILED by its flag and sends that report; and only that run is
      gone. */
  lemma FinishExactly(s: State, run: nat, ok: bool)
    requires Enabled(s, Finish(run, ok))
    ensures var r, id, ended := Step(s, Finish(run, ok)), s.inflight[run], if ok then Completed else Failed;
            && r.outcome == s.outcome[id := ended] && r.outbox == s.outbox + [Update(id, ended)]
            && multiset(r.inflight) == multiset(s.inflight) - multiset{id} && r.current == s.current - 1
            && r.started == s.started && r.table == s.table && r.loop == s.loop
  {
    hide RemoveAt;
    RemovedIs(s.inflight, run);
  }

  /** The flag of the last event of the run that ended a run of the task. */
  function LastFlag(s: State, es: seq<Event>, id: nat): Option<bool>
    decreases |es|
  {
    if es == [] then None
    else
      var e, later := es[0], LastFlag(Step(s, es[0]), es[1..], id);
      if later.Some? then later
      else if e.Finish? && e.run < |s.inflight| && s.inflight[e.run] == id then Some(e.ok) else None
  }

  lemma {:induction false} OutcomeIsLastFlag(s: State, es: seq<Event>, id: nat)
    requires Safe(s)
    ensures var o, flag := Run(s, es).outcome, LastFlag(s, es, id);
            if flag.Some? then id in o && o[id] == (if flag.value then Completed else Failed)
            else (id in o <==> id in s.outcome) && (id in o ==> o[id] == s.outcome[id])
    decreases |es|
  {
    hide PendingFrom, Apply, RunningReports, RemoveAt;
    if es != [] {
      StepKeepsSafe(s, es[0]);
      OutcomeIsLastFlag(Step(s, es[0]), es[1..], id);
    }
  }

  /** In every run in which no task was started twice, the row of a task that ended says COMPLETED, if its last end was
      a success, or FAILED, if it threw, exactly when that report arrived and no RUNNING report arrived after it. */
  lemma FinishedRowSaysHow(es: seq<Event>, id: nat)
    requires NoDuplicates(Run(INITIAL, es).started) && LastFlag(INITIAL, es, id).Some?
    ensures var s, ended := Run(INITIAL, es), if LastFlag(INITIAL, es, id).value then Completed else Failed;
            id < |s.table| && (s.table[id] == ended <==> HasLastWord(Delivered(INITIAL, es), Update(id, ended)))
  {
    OutcomeIsLastFlag(INITIAL, es, id);
    FinishedRowExactly(es, id);
  }
}

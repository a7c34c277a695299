/** The in-process worker pool: a queue with a fast lane for critical tasks, a cap on active workers, start and
    stop. `processNext` takes at most one task; every other step calls it once. */
module TaskWorkerPool {

  datatype Task = Task(id: string, critical: bool)

  /** `accepted` and `begun` list tasks in the order they entered the queue and left it; `executing` are active. */
  datatype State = State(
    queue: seq<Task>, activeWorkers: nat, isRunning: bool,
    accepted: seq<Task>, begun: seq<Task>, executing: seq<Task>, finished: seq<Task>)

  datatype Event = Enqueue(task: Task) | Start | Stop | Finish(which: nat)

  const INITIAL := State([], 0, false, [], [], [], [])

  predicate Queued(queue: seq<Task>, id: string) {
    exists i | 0 <= i < |queue| :: queue[i].id == id
  }

  /** Critical tasks go to the front. */
  function Placed(queue: seq<Task>, t: Task): seq<Task> {
    if t.critical then [t] + queue else queue + [t]
  }

  function ProcessNext(s: State, max: nat): State {
    if !s.isRunning || s.activeWorkers >= max || s.queue == [] then s
    else
      s.(queue := s.queue[1..], activeWorkers := s.activeWorkers + 1,
         begun := s.begun + [s.queue[0]], executing := s.executing + [s.queue[0]])
  }

  predicate Enabled(s: State, e: Event) {
    match e
    case Enqueue(t) => !Queued(s.queue, t.id)
    case Finish(k) => k < |s.executing| && s.activeWorkers > 0
    case _ => true
  }

  function Step(s: State, max: nat, e: Event): State {
    if !Enabled(s, e) then s
    else
      match e
      case Enqueue(t) =>
        ProcessNext(s.(queue := Placed(s.queue, t), accepted := s.accepted + [t]), max)
      case Start => ProcessNext(s.(isRunning := true), max)
      case Stop => s.(isRunning := false)
      case Finish(k) =>
        ProcessNext(s.(activeWorkers := s.activeWorkers - 1, finished := s.finished + [s.executing[k]],
                       executing := s.executing[..k] + s.executing[k + 1..]), max)
  }

  function Run(s: State, max: nat, es: seq<Event>): State
    decreases |es|
  {
    if es == [] then s else Run(Step(s, max, es[0]), max, es[1..])
  }

  // ---- Every reachable state ----

  function Ordinary(ts: seq<Task>): seq<Task> {
    if ts == [] then [] else (if ts[0].critical then [] else [ts[0]]) + Ordinary(ts[1..])
  }

  lemma {:induction false} OrdinaryConcat(a: seq<Task>, b: seq<Task>)
    ensures Ordinary(a + b) == Ordinary(a) + Ordinary(b)
    decreases |a|
  {
    if a == [] {
      assert a + b == b;
    } else {
      assert (a + b)[1..] == a[1..] + b;
      OrdinaryConcat(a[1..], b);
    }
  }

  lemma OrdinaryOne(t: Task)
    ensures Ordinary([t]) == if t.critical then [] else [t]
  {
    assert [t][1..] == [];
  }

  predicate DistinctIds(queue: seq<Task>) {
    forall i, j | 0 <= i < j < |queue| :: queue[i].id != queue[j].id
  }

  predicate CriticalFirst(queue: seq<Task>) {
    forall i, j | 0 <= i < j < |queue| :: queue[j].critical ==> queue[i].critical
  }

  /** No task is lost or duplicated, and ordinary tasks leave the queue in the order they entered it. */
  predicate Accounted(s: State) {
    && multiset(s.accepted) == multiset(s.begun) + multiset(s.queue)
    && multiset(s.begun) == multiset(s.executing) + multiset(s.finished)
    && Ordinary(s.accepted) == Ordinary(s.begun) + Ordinary(s.queue)
  }

  predicate Shaped(s: State, max: nat) {
    && s.activeWorkers == |s.executing| <= max
    && DistinctIds(s.queue) && CriticalFirst(s.queue)
  }

  predicate Lively(s: State, max: nat) {
    max >= 1 && s.isRunning && s.queue != [] ==> s.activeWorkers >= 1
  }

  lemma ProcessNextKeepsAccounted(s: State, max: nat)
    requires Accounted(s)
    ensures Accounted(ProcessNext(s, max))
  {
    hide Ordinary;
    if s.queue != [] {
      var t, rest := s.queue[0], s.queue[1..];
      assert s.queue == [t] + rest;
      OrdinaryConcat(s.begun, [t]);
      OrdinaryConcat([t], rest);
      assert Ordinary(s.begun + [t]) + Ordinary(rest) == Ordinary(s.begun) + (Ordinary([t]) + Ordinary(rest));
    }
  }

  lemma ProcessNextKeeps(s: State, max: nat)
    requires Accounted(s) && Shaped(s, max)
    ensures var s' := ProcessNext(s, max); Accounted(s') && Shaped(s', max) && Lively(s', max)
  {
    hide Accounted;
    ProcessNextKeepsAccounted(s, max);
  }

  lemma PlacedKeepsShape(queue: seq<Task>, t: Task)
    requires !Queued(queue, t.id) && DistinctIds(queue) && CriticalFirst(queue)
    ensures DistinctIds(Placed(queue, t)) && CriticalFirst(Placed(queue, t))
  {
  }

  lemma PlacedOrdinary(queue: seq<Task>, t: Task)
    ensures Ordinary(Placed(queue, t)) == Ordinary(queue) + Ordinary([t])
    ensures multiset(Placed(queue, t)) == multiset(queue) + multiset{t}
  {
    OrdinaryOne(t);
    if t.critical {
      OrdinaryConcat([t], queue);
    } else {
      OrdinaryConcat(queue, [t]);
    }
  }

  lemma EnqueueKeepsAccounted(s: State, t: Task)
    requires Accounted(s)
    ensures Accounted(s.(queue := Placed(s.queue, t), accepted := s.accepted + [t]))
  {
    hide Ordinary, Placed;
    PlacedOrdinary(s.queue, t);
    OrdinaryConcat(s.accepted, [t]);
    assert Ordinary(s.begun) + Ordinary(s.queue) + Ordinary([t]) == Ordinary(s.begun) + (Ordinary(s.queue) + Ordinary([t]));
  }

  lemma TakenOut(ts: seq<Task>, k: nat)
    requires k < |ts|
    ensures multiset(ts) == multiset(ts[..k] + ts[k + 1..]) + multiset{ts[k]}
  {
    assert ts == ts[..k] + [ts[k]] + ts[k + 1..];
  }

  lemma FinishKeeps(s: State, k: nat)
    requires Accounted(s) && k < |s.executing|
    ensures Accounted(s.(activeWorkers := if s.activeWorkers > 0 then s.activeWorkers - 1 else 0,
                         finished := s.finished + [s.executing[k]], executing := s.executing[..k] + s.executing[k + 1..]))
  {
    hide Ordinary;
    TakenOut(s.executing, k);
  }

  lemma AccountedIgnoresRunning(s: State)
    requires Accounted(s)
    ensures Accounted(s.(isRunning := true)) && Accounted(s.(isRunning := false))
  {
  }

  lemma StepKeeps(s: State, max: nat, e: Event)
    requires Accounted(s) && Shaped(s, max) && Lively(s, max)
    ensures var s' := Step(s, max, e); Accounted(s') && Shaped(s', max) && Lively(s', max)
  {
    hide Accounted, ProcessNext, DistinctIds, CriticalFirst, Placed;
    if Enabled(s, e) {
      match e
      case Enqueue(t) =>
        EnqueueKeepsAccounted(s, t);
        PlacedKeepsShape(s.queue, t);
        ProcessNextKeeps(s.(queue := Placed(s.queue, t), accepted := s.accepted + [t]), max);
      case Start =>
        AccountedIgnoresRunning(s);
        ProcessNextKeeps(s.(isRunning := true), max);
      case Stop => AccountedIgnoresRunning(s);
      case Finish(k) =>
        FinishKeeps(s, k);
        ProcessNextKeeps(s.(activeWorkers := s.activeWorkers - 1, finished := s.finished + [s.executing[k]],
                            executing := s.executing[..k] + s.executing[k + 1..]), max);
    }
  }

  lemma {:induction false} RunKeeps(s: State, max: nat, es: seq<Event>)
    requires Accounted(s) && Shaped(s, max) && Lively(s, max)
    ensures var s' := Run(s, max, es); Accounted(s') && Shaped(s', max) && Lively(s', max)
    decreases |es|
  {
    if es != [] {
      StepKeeps(s, max, es[0]);
      RunKeeps(Step(s, max, es[0]), max, es[1..]);
    }
  }

  /** Every reachable state: the cap holds, queued ids are distinct, critical tasks stand first, accepted tasks are
      exactly the finished, executing and queued ones, ordinary tasks begin in the order they were accepted, and a
      running pool with work queued has a worker that will come back for it. */
  lemma EveryRun(max: nat, es: seq<Event>)
    ensures var s := Run(INITIAL, max, es);
            && s.activeWorkers <= max
            && DistinctIds(s.queue) && CriticalFirst(s.queue)
            && multiset(s.accepted) == multiset(s.finished) + multiset(s.executing) + multiset(s.queue)
            && Ordinary(s.begun) <= Ordinary(s.accepted)
            && (max >= 1 && s.isRunning && s.queue != [] ==> s.executing != [])
  {
    RunKeeps(INITIAL, max, es);
  }

  /** Running with work queued and no worker that would come back for it. */
  predicate Stalled(s: State) {
    s.isRunning && s.queue != [] && s.executing == []
  }

  /** The pool never stalls exactly when its cap is at least one. */
  lemma NeverStallsExactly(max: nat)
    ensures (forall es: seq<Event> :: !Stalled(Run(INITIAL, max, es))) <==> max >= 1
  {
    if max >= 1 {
      forall es: seq<Event>
        ensures !Stalled(Run(INITIAL, max, es))
      {
        EveryRun(max, es);
      }
    } else {
      var es := [Start, Enqueue(Task("audit", false))];
      assert es[1..][1..] == [];
      var s := Step(INITIAL, 0, Start);
      assert s.queue == [] && s.isRunning;
      assert Run(INITIAL, 0, es) == Step(s, 0, es[1]);
      assert Stalled(Run(INITIAL, 0, es));
    }
  }

  /** A stopped pool takes up nothing until it is started again, whatever is accepted or finishes meanwhile. */
  lemma {:induction false} StoppedPoolBeginsNothing(s: State, max: nat, es: seq<Event>)
    requires !s.isRunning && forall e <- es :: !e.Start?
    ensures !Run(s, max, es).isRunning && Run(s, max, es).begun == s.begun
    decreases |es|
  {
    hide Placed;
    if es != [] {
      assert !es[0].Start?;
      StoppedPoolBeginsNothing(Step(s, max, es[0]), max, es[1..]);
    }
  }

  // ---- When work begins ----

  /** A task is turned away exactly when its id is queued; otherwise a running pool below its cap begins work at once, on
      the new task if it is critical or alone and else on the head of the queue, and any other pool queues the task, at
      the front if it is critical. */
  lemma OfferExactly(s: State, max: nat, t: Task)
    ensures var r := Step(s, max, Enqueue(t));
            if exists i | 0 <= i < |s.queue| :: s.queue[i].id == t.id then r == s
            else
              && r.accepted == s.accepted + [t] && r.finished == s.finished
              && (if s.isRunning && s.activeWorkers < max then
                    var next := if t.critical || s.queue == [] then t else s.queue[0];
                    && r.begun == s.begun + [next] && r.executing == s.executing + [next]
                    && r.activeWorkers == s.activeWorkers + 1
                    && r.queue == (if t.critical then s.queue else if s.queue == [] then [] else s.queue[1..] + [t])
                  else
                    && r.begun == s.begun && r.executing == s.executing && r.activeWorkers == s.activeWorkers
                    && r.queue == (if t.critical then [t] + s.queue else s.queue + [t]))
  {
    if !Queued(s.queue, t.id) {
      assert ([t] + s.queue)[1..] == s.queue;
      assert s.queue != [] ==> (s.queue + [t])[1..] == s.queue[1..] + [t];
    }
  }

  /** The worker of an ended task, and a start below the cap, take up the head of the queue if the pool is running. */
  lemma WorkGoesOn(s: State, max: nat, e: Event)
    requires Shaped(s, max) && Enabled(s, e) && (e.Finish? || (e.Start? && s.activeWorkers < max))
    ensures var r, goesOn := Step(s, max, e), (s.isRunning || e.Start?) && s.queue != [];
            && r.begun == s.begun + (if goesOn then [s.queue[0]] else [])
            && r.queue == (if goesOn then s.queue[1..] else s.queue)
            && r.finished == s.finished + (if e.Finish? then [s.executing[e.which]] else [])
            && multiset(r.executing) + (if e.Finish? then multiset{s.executing[e.which]} else multiset{})
               == multiset(s.executing) + (if goesOn then multiset{s.queue[0]} else multiset{})
            && r.accepted == s.accepted
  {
    hide DistinctIds, CriticalFirst;
    if e.Finish? {
      TakenOut(s.executing, e.which);
    }
  }

  /** The pool runs from a start until it is stopped; stopping touches nothing else. */
  lemma RunsUntilStopped(s: State, max: nat, e: Event)
    ensures Step(s, max, e).isRunning <==> e.Start? || (s.isRunning && !e.Stop?)
    ensures Step(s, max, Stop) == s.(isRunning := false)
  {
    hide Placed;
  }

  /** Steps that can bring in another worker: each calls `processNext` without ending a task. */
  function Wakes(es: seq<Event>): nat
    decreases |es|
  {
    if es == [] then 0 else (if es[0].Enqueue? || es[0].Start? then 1 else 0) + Wakes(es[1..])
  }

  /** In every run the number of active workers grows by at most one for each task offered and each start. */
  lemma {:induction false} ActiveGrowsByWakes(s: State, max: nat, es: seq<Event>)
    ensures Run(s, max, es).activeWorkers <= s.activeWorkers + Wakes(es)
    decreases |es|
  {
    if es != [] {
      ActiveGrowsByWakes(Step(s, max, es[0]), max, es[1..]);
    }
  }

  lemma {:induction false} NoWakes(es: seq<Event>)
    requires forall e <- es :: !e.Enqueue? && !e.Start?
    ensures Wakes(es) == 0
    decreases |es|
  {
    if es != [] {
      assert es[0] in es;
      NoWakes(es[1..]);
    }
  }

  /** So capacity is not always used: a restart wakes a single worker, however long the queue has grown meanwhile, and
      until the next task is offered or the pool is started again that queue is worked off one task at a time. */
  lemma RestartWakesOneWorker(s: State, max: nat, es: seq<Event>)
    requires !s.isRunning && s.activeWorkers == 0 && |s.queue| >= 2 && max >= 2
    requires forall e <- es :: !e.Enqueue? && !e.Start?
    ensures var s' := Step(s, max, Start);
            s'.activeWorkers == 1 && s'.queue != [] && Run(s', max, es).activeWorkers <= 1
  {
    ActiveGrowsByWakes(Step(s, max, Start), max, es);
    NoWakes(es);
  }

  // ---- The code ----

  class Pool {
    const maxConcurrency: nat
    var queue: seq<Task>
    var activeWorkers: nat
    var isRunning: bool
    var accepted: seq<Task>
    var begun: seq<Task>
    var executing: seq<Task>
    var finished: seq<Task>

    ghost function View(): State
      reads this
    {
      State(queue, activeWorkers, isRunning, accepted, begun, executing, finished)
    }

    constructor (maxConcurrency: nat)
      ensures this.maxConcurrency == maxConcurrency && View() == INITIAL
    {
      this.maxConcurrency := maxConcurrency;
      queue, activeWorkers, isRunning := [], 0, false;
      accepted, begun, executing, finished := [], [], [], [];
    }

    method Submit(task: Task)
      modifies this
      ensures View() == Step(old(View()), maxConcurrency, Enqueue(task))
    {
      var duplicate := false;
      for i := 0 to |queue|
        invariant duplicate <==> exists j | 0 <= j < i :: queue[j].id == task.id
      {
        duplicate := duplicate || queue[i].id == task.id;
      }
      if duplicate {
        return;
      }
      if task.critical {
        queue := [task] + queue;
      } else {
        queue := queue + [task];
      }
      accepted := accepted + [task];
      TakeNext();
    }

    method StartPool()
      modifies this
      ensures View() == Step(old(View()), maxConcurrency, Start)
    {
      isRunning := true;
      TakeNext();
    }

    method StopPool()
      modifies this
      ensures View() == Step(old(View()), maxConcurrency, Stop)
    {
      isRunning := false;
    }

    /** `processNext` up to its await. */
    method TakeNext()
      modifies this
      ensures View() == ProcessNext(old(View()), maxConcurrency)
    {
      if !isRunning || activeWorkers >= maxConcurrency || |queue| == 0 {
        return;
      }
      var task := queue[0];
      queue := queue[1..];
      activeWorkers := activeWorkers + 1;
      begun, executing := begun + [task], executing + [task];
    }

    /** `processNext` from its await on, whether the task succeeded or threw. */
    method Complete(k: nat)
      requires k < |executing| && activeWorkers > 0
      modifies this
      ensures View() == Step(old(View()), maxConcurrency, Finish(k))
    {
      finished := finished + [executing[k]];
      executing := executing[..k] + executing[k + 1..];
      activeWorkers := activeWorkers - 1;
      TakeNext();
    }
  }
}

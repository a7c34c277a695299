/** `TaskExecutor.runParallel`: workers share an index and a results array. Between two awaits a worker runs
    undisturbed, so a run is an interleaving of three kinds of stretch: a worker starts, wakes from the overload
    sleep that lies between its bound check and its claim, or gets the result of its call. */
module RunParallel {
  import opened Prelude

  // ---- How many workers ----

  datatype Load = Overloaded | Moderate | Idle

  function Max(a: int, b: int): int {
    if a >= b then a else b
  }

  /** The integer division rounds down, as `Math.floor` does. */
  function DynamicConcurrency(base: int, load: Load): int {
    match load
    case Overloaded => Max(1, base / 4)
    case Moderate => Max(1, base / 2)
    case Idle => base
  }

  /** `Array.from` makes an empty list of a negative length. */
  function WorkerCount(base: int, load: Load, items: nat): nat {
    Max(0, Min(DynamicConcurrency(base, load), items))
  }

  lemma WorkersStartExactly(base: int, load: Load, items: nat)
    ensures WorkerCount(base, load, items) >= 1 <==> items >= 1 && (base >= 1 || load != Idle)
    ensures base >= 1 ==> WorkerCount(base, load, items) <= Min(base, items)
  {
  }

  /** Half of the concurrency asked for under a moderate load and a quarter under a heavy one, rounded down, but at least
      one; all of it, whatever it is, when idle. */
  lemma ConcurrencyExactly(base: int, load: Load)
    ensures var c := DynamicConcurrency(base, load);
            match load
            case Idle => c == base
            case Moderate => c >= 1 && 2 * c > base - 2 && (c > 1 ==> 2 * c <= base)
            case Overloaded => c >= 1 && 4 * c > base - 4 && (c > 1 ==> 4 * c <= base)
  {
  }

  /** As many workers start as the concurrency and the items allow, and none for a concurrency below one. */
  lemma WorkersExactly(base: int, load: Load, items: nat)
    ensures var c, w := DynamicConcurrency(base, load), WorkerCount(base, load, items);
            && w <= items && (c >= 0 ==> w <= c) && (w == items || w == c || (w == 0 && c < 0))
  {
  }

  // ---- The steps ----

  datatype Worker = Entering | Sleeping | Calling(index: nat) | Finished

  /** `calls` lists the items handed to `fn`, in order. */
  datatype State<R> = State(currentIdx: nat, results: seq<Option<R>>, workers: seq<Worker>, calls: seq<nat>)

  datatype Event = Start(who: nat, overloaded: bool) | Wake(who: nat) | Return(who: nat, overloaded: bool)

  /** From the claim on: past the end, the loop's check fails at once. */
  function Claim<R>(s: State<R>, w: nat): State<R>
    requires w < |s.workers|
  {
    var index := s.currentIdx;
    if index < |s.results| then s.(currentIdx := index + 1, workers := s.workers[w := Calling(index)], calls := s.calls + [index])
    else s.(currentIdx := index + 1, workers := s.workers[w := Finished])
  }

  /** From the loop's check on. */
  function Check<R>(s: State<R>, w: nat, overloaded: bool): State<R>
    requires w < |s.workers|
  {
    if s.currentIdx >= |s.results| then s.(workers := s.workers[w := Finished])
    else if overloaded then s.(workers := s.workers[w := Sleeping])
    else Claim(s, w)
  }

  predicate Enabled<R>(s: State<R>, e: Event) {
    && e.who < |s.workers|
    && match e
       case Start(w, _) => s.workers[w].Entering?
       case Wake(w) => s.workers[w].Sleeping?
       case Return(w, _) => s.workers[w].Calling? && s.workers[w].index < |s.results|
  }

  function Step<T, R>(fn: T -> R, items: seq<T>, s: State<R>, e: Event): State<R>
    requires |s.results| == |items| && Enabled(s, e)
  {
    match e
    case Start(w, overloaded) => Check(s, w, overloaded)
    case Wake(w) => Claim(s, w)
    case Return(w, overloaded) =>
      var k := s.workers[w].index;
      Check(s.(results := s.results[k := Some(fn(items[k]))]), w, overloaded)
  }

  function Initial<R>(items: nat, workers: nat): State<R> {
    State(0, seq(items, i => None), seq(workers, i => Entering), [])
  }

  /** `s'` is reached from `s` by these events, each of them enabled. */
  predicate Reaches<T, R(==)>(fn: T -> R, items: seq<T>, s: State<R>, es: seq<Event>, s': State<R>)
    requires |s.results| == |items|
    decreases |es|
  {
    if es == [] then s == s'
    else Enabled(s, es[0]) && Reaches(fn, items, Step(fn, items, s, es[0]), es[1..], s')
  }

  /** One stretch: a result is stored in its place; a check that finds no item left ends the worker; an overloaded check
      claims nothing and sleeps; and any other check, as well as the end of the sleep, claims the next item, or passes the
      end if it is gone by then. */
  lemma StretchExactly<T, R>(fn: T -> R, items: seq<T>, s: State<R>, e: Event)
    requires |s.results| == |items| && Enabled(s, e)
    ensures var r, n, left := Step(fn, items, s, e), s.currentIdx, s.currentIdx < |items|;
            var claims := e.Wake? || (left && !e.overloaded);
            && r.currentIdx == n + (if claims then 1 else 0) && r.calls == s.calls + (if claims && left then [n] else [])
            && r.workers == s.workers[e.who := if !left then Finished else if claims then Calling(n) else Sleeping]
            && r.results == (if e.Return? then var k := s.workers[e.who].index; s.results[k := Some(fn(items[k]))]
                             else s.results)
  {
  }

  // ---- The invariant ----

  function FinishedCount(ws: seq<Worker>): nat {
    if ws == [] then 0 else (if ws[0].Finished? then 1 else 0) + FinishedCount(ws[1..])
  }

  lemma {:induction false} FinishedCountUpdate(ws: seq<Worker>, w: nat, v: Worker)
    requires w < |ws|
    ensures FinishedCount(ws[w := v]) == FinishedCount(ws) + (if v.Finished? then 1 else 0) - (if ws[w].Finished? then 1 else 0)
  {
    if w == 0 {
      assert ws[w := v][1..] == ws[1..];
    } else {
      assert ws[w := v][1..] == ws[1..][w - 1 := v];
      FinishedCountUpdate(ws[1..], w - 1, v);
    }
  }

  lemma {:induction false} FinishedCountBound(ws: seq<Worker>)
    ensures FinishedCount(ws) <= |ws|
    ensures forall w | 0 <= w < |ws| :: !ws[w].Finished? ==> FinishedCount(ws) < |ws|
    ensures FinishedCount(ws) > 0 ==> exists w :: 0 <= w < |ws| && ws[w].Finished?
  {
    if ws != [] {
      FinishedCountBound(ws[1..]);
      forall w | 0 <= w < |ws| && !ws[w].Finished?
        ensures FinishedCount(ws) < |ws|
      {
        if w > 0 {
          assert ws[w] == ws[1..][w - 1];
        }
      }
      if FinishedCount(ws[1..]) > 0 {
        var w :| 0 <= w < |ws[1..]| && ws[1..][w].Finished?;
        assert ws[w + 1].Finished?;
      }
    }
  }

  /** A claimed item is being called by exactly one worker, or its result is in place. */
  ghost predicate Progress<T, R>(fn: T -> R, items: seq<T>, s: State<R>) {
    && |s.results| == |items|
    && (forall k | 0 <= k < |items| :: s.results[k].Some? ==> k < s.currentIdx && s.results[k] == Some(fn(items[k])))
    && (forall k | 0 <= k < |items| && k < s.currentIdx && s.results[k].None? :: Calling(k) in s.workers)
    && (forall w | 0 <= w < |s.workers| && s.workers[w].Calling? ::
          s.workers[w].index < |items| && s.workers[w].index < s.currentIdx && s.results[s.workers[w].index].None?)
    && (forall w, v | 0 <= w < v < |s.workers| && s.workers[w].Calling? :: s.workers[w] != s.workers[v])
  }

  /** Claims past the end come from workers that finish by them, and the worker of the last item is not one. */
  ghost predicate Bounded<R>(s: State<R>) {
    && (FinishedCount(s.workers) > 0 ==> s.currentIdx >= |s.results|)
    && (|s.results| > 0 && s.currentIdx > |s.results| ==>
          s.currentIdx - |s.results| + (if s.results[|s.results| - 1].Some? then 1 else 0) <= FinishedCount(s.workers))
    && (|s.results| > 0 && s.results[|s.results| - 1].Some? ==> FinishedCount(s.workers) > 0)
  }

  function Indices(n: nat): (r: seq<nat>)
    ensures |r| == n && forall i | 0 <= i < n :: r[i] == i
  {
    seq(n, i => i)
  }

  ghost predicate Invariant<T, R>(fn: T -> R, items: seq<T>, s: State<R>) {
    && Progress(fn, items, s)
    && Bounded(s)
    && s.calls == Indices(Min(s.currentIdx, |items|))
  }

  lemma ClaimKeepsProgress<T, R>(fn: T -> R, items: seq<T>, s: State<R>, w: nat)
    requires Progress(fn, items, s) && w < |s.workers| && !s.workers[w].Calling?
    ensures Progress(fn, items, Claim(s, w))
  {
    var s' := Claim(s, w);
    forall k | 0 <= k < |items| && k < s'.currentIdx && s'.results[k].None?
      ensures Calling(k) in s'.workers
    {
      if k < s.currentIdx {
        var v :| 0 <= v < |s.workers| && s.workers[v] == Calling(k);
        assert s'.workers[v] == Calling(k);
      } else {
        assert s'.workers[w] == Calling(k);
      }
    }
  }

  lemma CheckKeepsProgress<T, R>(fn: T -> R, items: seq<T>, s: State<R>, w: nat, overloaded: bool)
    requires Progress(fn, items, s) && w < |s.workers| && !s.workers[w].Calling?
    ensures Progress(fn, items, Check(s, w, overloaded))
  {
    if s.currentIdx < |s.results| && !overloaded {
      ClaimKeepsProgress(fn, items, s, w);
    } else {
      var s' := Check(s, w, overloaded);
      forall k | 0 <= k < |items| && k < s'.currentIdx && s'.results[k].None?
        ensures Calling(k) in s'.workers
      {
        var v :| 0 <= v < |s.workers| && s.workers[v] == Calling(k);
        assert s'.workers[v] == Calling(k);
      }
    }
  }

  /** The state in between: the result is stored and the worker is back at the loop's check. */
  function Stored<T, R>(fn: T -> R, items: seq<T>, s: State<R>, w: nat): State<R>
    requires |s.results| == |items| && Enabled(s, Return(w, false))
  {
    var k := s.workers[w].index;
    s.(results := s.results[k := Some(fn(items[k]))], workers := s.workers[w := Entering])
  }

  lemma StoreKeepsProgress<T, R>(fn: T -> R, items: seq<T>, s: State<R>, w: nat)
    requires Progress(fn, items, s) && Enabled(s, Return(w, false))
    ensures Progress(fn, items, Stored(fn, items, s, w))
  {
    var s' := Stored(fn, items, s, w);
    forall k | 0 <= k < |items| && k < s'.currentIdx && s'.results[k].None?
      ensures Calling(k) in s'.workers
    {
      var v :| 0 <= v < |s.workers| && s.workers[v] == Calling(k);
      assert s'.workers[v] == Calling(k);
    }
  }

  lemma StoreThenCheck<T, R>(fn: T -> R, items: seq<T>, s: State<R>, w: nat, overloaded: bool)
    requires |s.results| == |items| && Enabled(s, Return(w, overloaded))
    ensures Step(fn, items, s, Return(w, overloaded)) == Check(Stored(fn, items, s, w), w, overloaded)
  {
    assert s.workers[w := Entering][w := Finished] == s.workers[w := Finished];
    assert s.workers[w := Entering][w := Sleeping] == s.workers[w := Sleeping];
    assert s.workers[w := Entering][w := Calling(s.currentIdx)] == s.workers[w := Calling(s.currentIdx)];
  }

  lemma StepKeepsBounded<T, R>(fn: T -> R, items: seq<T>, s: State<R>, e: Event)
    requires Invariant(fn, items, s) && Enabled(s, e)
    ensures Bounded(Step(fn, items, s, e))
  {
    var w := e.who;
    FinishedCountUpdate(s.workers, w, Finished);
    FinishedCountUpdate(s.workers, w, Sleeping);
    FinishedCountUpdate(s.workers, w, Calling(s.currentIdx));
  }

  lemma StepKeepsProgress<T, R>(fn: T -> R, items: seq<T>, s: State<R>, e: Event)
    requires Progress(fn, items, s) && Enabled(s, e)
    ensures Progress(fn, items, Step(fn, items, s, e))
  {
    hide Claim, Check, Progress, Stored;
    SameLength(fn, items, s);
    match e
    case Start(w, overloaded) => CheckKeepsProgress(fn, items, s, w, overloaded);
    case Wake(w) => ClaimKeepsProgress(fn, items, s, w);
    case Return(w, overloaded) =>
      StoreKeepsProgress(fn, items, s, w);
      StoreThenCheck(fn, items, s, w, overloaded);
      StoredIsEntering(fn, items, s, w);
      CheckKeepsProgress(fn, items, Stored(fn, items, s, w), w, overloaded);
  }

  lemma StoredIsEntering<T, R>(fn: T -> R, items: seq<T>, s: State<R>, w: nat)
    requires |s.results| == |items| && Enabled(s, Return(w, false))
    ensures w < |Stored(fn, items, s, w).workers| && Stored(fn, items, s, w).workers[w] == Entering
  {
  }

  lemma StepKeepsInvariant<T, R>(fn: T -> R, items: seq<T>, s: State<R>, e: Event)
    requires Invariant(fn, items, s) && Enabled(s, e)
    ensures Invariant(fn, items, Step(fn, items, s, e))
  {
    hide Bounded, Progress;
    StepKeepsBounded(fn, items, s, e);
    StepKeepsProgress(fn, items, s, e);
    SameLength(fn, items, s);
  }

  lemma SameLength<T, R>(fn: T -> R, items: seq<T>, s: State<R>)
    requires Progress(fn, items, s)
    ensures |s.results| == |items|
  {
  }

  // ---- Termination: every stretch of every worker uses something up ----

  function Weight(w: Worker): nat {
    match w
    case Finished => 0
    case Sleeping => 1
    case Entering => 2
    case Calling(_) => 2
  }

  function Weights(ws: seq<Worker>): nat {
    if ws == [] then 0 else Weight(ws[0]) + Weights(ws[1..])
  }

  lemma {:induction false} WeightsUpdate(ws: seq<Worker>, w: nat, v: Worker)
    requires w < |ws|
    ensures Weights(ws[w := v]) == Weights(ws) + Weight(v) - Weight(ws[w])
  {
    if w == 0 {
      assert ws[w := v][1..] == ws[1..];
    } else {
      assert ws[w := v][1..] == ws[1..][w - 1 := v];
      WeightsUpdate(ws[1..], w - 1, v);
    }
  }

  /** What is left to do: two units for each item not yet claimed, and each worker's own. */
  function Left<R>(s: State<R>): nat {
    Weights(s.workers) + 2 * Max(0, |s.results| - s.currentIdx)
  }

  lemma StepUsesUp<T, R>(fn: T -> R, items: seq<T>, s: State<R>, e: Event)
    requires |s.results| == |items| && Enabled(s, e)
    ensures Left(Step(fn, items, s, e)) < Left(s)
  {
    WeightsUpdate(s.workers, e.who, Finished);
    WeightsUpdate(s.workers, e.who, Sleeping);
    WeightsUpdate(s.workers, e.who, Calling(s.currentIdx));
  }

  lemma {:induction false} InitialWeights(n: nat)
    ensures Weights(seq(n, i => Entering)) == 2 * n && FinishedCount(seq(n, i => Entering)) == 0
  {
    if n > 0 {
      assert seq(n, i => Entering)[1..] == seq(n - 1, i => Entering);
      InitialWeights(n - 1);
    }
  }

  lemma {:induction false} RunKeepsInvariant<T, R>(fn: T -> R, items: seq<T>, s: State<R>, es: seq<Event>, s': State<R>)
    requires Invariant(fn, items, s) && Reaches(fn, items, s, es, s')
    ensures Invariant(fn, items, s') && |es| + Left(s') <= Left(s) && |s'.workers| == |s.workers|
    decreases |es|
  {
    if es != [] {
      StepKeepsInvariant(fn, items, s, es[0]);
      StepUsesUp(fn, items, s, es[0]);
      RunKeepsInvariant(fn, items, Step(fn, items, s, es[0]), es[1..], s');
    }
  }

  lemma InitialInvariant<T, R>(fn: T -> R, items: seq<T>, workers: nat)
    ensures Invariant(fn, items, Initial(|items|, workers)) && Left(Initial<R>(|items|, workers)) == 2 * workers + 2 * |items|
  {
    InitialWeights(workers);
  }

  /** Every run: items are handed to `fn` once each, in order; the index overshoots by fewer than the number of
      workers; and the run is over within two stretches per worker and per item. */
  lemma EveryRun<T, R>(fn: T -> R, items: seq<T>, workers: nat, es: seq<Event>, s: State<R>)
    requires workers > 0 && items != [] && Reaches(fn, items, Initial(|items|, workers), es, s)
    ensures s.calls == Indices(Min(s.currentIdx, |items|))
    ensures s.currentIdx < |items| + workers
    ensures |es| <= 2 * workers + 2 * |items|
    ensures forall w, v | 0 <= w < v < |s.workers| && s.workers[w].Calling? && s.workers[v].Calling? ::
              s.workers[w].index != s.workers[v].index
  {
    hide Reaches, Left;
    InitialInvariant(fn, items, workers);
    RunKeepsInvariant(fn, items, Initial(|items|, workers), es, s);
    Overshoot(fn, items, s);
  }

  function InFlight(ws: seq<Worker>): (n: nat)
    ensures n <= |ws|
  {
    if ws == [] then 0 else (if ws[0].Calling? then 1 else 0) + InFlight(ws[1..])
  }

  /** At no moment of any run are more calls in flight than the dynamic concurrency allows, or than there are items. */
  lemma CallsInFlightAreBounded<T, R>(
    fn: T -> R, items: seq<T>, base: int, load: Load, es: seq<Event>, s: State<R>)
    requires Reaches(fn, items, Initial(|items|, WorkerCount(base, load, |items|)), es, s)
    ensures InFlight(s.workers) <= Max(0, Min(DynamicConcurrency(base, load), |items|))
  {
    hide Reaches, Left, InFlight;
    var workers := WorkerCount(base, load, |items|);
    InitialInvariant(fn, items, workers);
    RunKeepsInvariant(fn, items, Initial(|items|, workers), es, s);
  }

  lemma Overshoot<T, R>(fn: T -> R, items: seq<T>, s: State<R>)
    requires Invariant(fn, items, s) && items != [] && s.workers != []
    ensures s.currentIdx < |items| + |s.workers|
  {
    FinishedCountBound(s.workers);
    if s.currentIdx > |items| && s.results[|items| - 1].None? {
      assert Calling(|items| - 1) in s.workers;
    }
  }

  /** A run can stop only when every worker is done, and then the results are `fn` of every item. */
  lemma RunEndsWithMap<T, R>(fn: T -> R, items: seq<T>, workers: nat, es: seq<Event>, s: State<R>)
    requires workers > 0 && Reaches(fn, items, Initial(|items|, workers), es, s)
    requires forall e: Event :: !Enabled(s, e)
    ensures s.results == seq(|items|, i requires 0 <= i < |items| => Some(fn(items[i])))
    ensures s.calls == Indices(|items|)
  {
    InitialInvariant(fn, items, workers);
    RunKeepsInvariant(fn, items, Initial(|items|, workers), es, s);
    forall w | 0 <= w < |s.workers|
      ensures s.workers[w].Finished?
    {
      assert !Enabled(s, Start(w, false)) && !Enabled(s, Wake(w)) && !Enabled(s, Return(w, false));
    }
    FinishedCountBound(s.workers);
    AllFinished(s.workers);
  }

  lemma {:induction false} AllFinished(ws: seq<Worker>)
    requires forall w | 0 <= w < |ws| :: ws[w].Finished?
    ensures FinishedCount(ws) == |ws|
  {
    if ws != [] {
      AllFinished(ws[1..]);
    }
  }

  ghost predicate Stopped<R>(s: State<R>) {
    forall e: Event :: !Enabled(s, e)
  }

  /** `fn` of every item, in place. */
  function Mapped<T, R>(fn: T -> R, items: seq<T>): seq<Option<R>> {
    seq(|items|, i requires 0 <= i < |items| => Some(fn(items[i])))
  }

  /** Every run of this many workers that has stopped holds `fn` of every item. */
  ghost predicate EveryRunCompletes<T, R(!new)>(fn: T -> R, items: seq<T>, workers: nat) {
    forall es: seq<Event>, s: State<R> | Reaches(fn, items, Initial(|items|, workers), es, s) && Stopped(s) ::
      s.results == Mapped(fn, items)
  }

  /** Whatever the interleaving, the promise of `runParallel` is kept exactly when there are no items, or the
      concurrency asked for is positive, or the load raises it to one. */
  lemma CompletesExactly<T, R(!new)>(fn: T -> R, items: seq<T>, base: int, load: Load)
    ensures EveryRunCompletes(fn, items, WorkerCount(base, load, |items|)) <==> items == [] || base >= 1 || load != Idle
  {
    hide Reaches, Stopped;
    var workers := WorkerCount(base, load, |items|);
    WorkersStartExactly(base, load, |items|);
    if workers > 0 {
      forall es: seq<Event>, s: State<R> | Reaches(fn, items, Initial(|items|, workers), es, s) && Stopped(s)
        ensures s.results == Mapped(fn, items)
      {
        StoppedIsMapped(fn, items, workers, es, s);
      }
    } else {
      forall es: seq<Event>, s: State<R> | Reaches(fn, items, Initial(|items|, 0), es, s)
        ensures s == Initial(|items|, 0)
      {
        WithoutWorkers(fn, items, es, s);
      }
      NothingToDo(fn, items);
    }
  }

  lemma StoppedIsMapped<T, R>(fn: T -> R, items: seq<T>, workers: nat, es: seq<Event>, s: State<R>)
    requires workers > 0 && Reaches(fn, items, Initial(|items|, workers), es, s) && Stopped(s)
    ensures s.results == Mapped(fn, items)
  {
    RunEndsWithMap(fn, items, workers, es, s);
  }

  /** Without workers nothing ever starts ... */
  lemma WithoutWorkers<T, R>(fn: T -> R, items: seq<T>, es: seq<Event>, s: State<R>)
    requires Reaches(fn, items, Initial(|items|, 0), es, s)
    ensures s == Initial(|items|, 0)
  {
  }

  /** ... and nothing is what it ends with. */
  lemma NothingToDo<T, R>(fn: T -> R, items: seq<T>)
    ensures var start := Initial<R>(|items|, 0);
            && Stopped(start) && Reaches(fn, items, start, [], start)
            && (start.results == Mapped(fn, items) <==> items == [])
  {
    if items != [] {
      assert Initial<R>(|items|, 0).results[0] == None && Mapped(fn, items)[0] == Some(fn(items[0]));
    }
  }

  // ---- The code ----

  class Executor<T, R> {
    const fn: T -> R
    const items: seq<T>
    const results: array<Option<R>>
    var currentIdx: nat
    var workers: seq<Worker>
    var calls: seq<nat>

    ghost function View(): State<R>
      reads this, results
    {
      State(currentIdx, results[..], workers, calls)
    }

    constructor (fn: T -> R, items: seq<T>, base: int, load: Load)
      ensures this.fn == fn && this.items == items && fresh(results)
      ensures results.Length == |items|
      ensures View() == Initial(|items|, WorkerCount(base, load, |items|))
    {
      this.fn, this.items := fn, items;
      results := new Option<R>[|items|](i => None);
      currentIdx, calls := 0, [];
      workers := seq(WorkerCount(base, load, |items|), i => Entering);
      new;
      assert results[..] == seq(|items|, i => None);
    }

    method ClaimNext(w: nat)
      requires w < |workers|
      modifies this
      ensures View() == Claim(old(View()), w)
    {
      var index := currentIdx;
      currentIdx := currentIdx + 1;
      if index < results.Length {
        calls, workers := calls + [index], workers[w := Calling(index)];
      } else {
        workers := workers[w := Finished];
      }
    }

    method LoopCheck(w: nat, overloaded: bool)
      requires w < |workers|
      modifies this
      ensures View() == Check(old(View()), w, overloaded)
    {
      if currentIdx < results.Length {
        if overloaded {
          workers := workers[w := Sleeping];
        } else {
          ClaimNext(w);
        }
      } else {
        workers := workers[w := Finished];
      }
    }

    /** The result of the awaited call arrives; the worker stores it and goes round its loop. */
    method StoreAndContinue(w: nat, overloaded: bool)
      requires results.Length == |items|
      requires w < |workers| && workers[w].Calling? && workers[w].index < |items|
      modifies this, results
      ensures View() == Step(fn, items, old(View()), Return(w, overloaded))
    {
      var index := workers[w].index;
      results[index] := Some(fn(items[index]));
      assert results[..] == old(results[..])[index := Some(fn(items[index]))];
      LoopCheck(w, overloaded);
    }
  }
}

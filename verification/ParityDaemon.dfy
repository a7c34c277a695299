/** The parity daemon: changed agent files queue up, one is processed at a time, and the end of one arms a timer
    for the next. */
module ParityDaemon {
  import opened Prelude

  type File = string

  /** `arrivals` and `processed` list files in order; `current` is the one being processed. */
  datatype State = State(
    backlog: seq<File>, isProcessing: bool, timers: nat, current: Option<File>, arrivals: seq<File>, processed: seq<File>)

  /** Processing ends the same way whether it threw or not. */
  datatype Event = Change(file: File) | Done(threw: bool) | Timer

  const INITIAL := State([], false, 0, None, [], [])

  function ProcessBacklog(s: State): State {
    if s.isProcessing || s.backlog == [] then s
    else s.(isProcessing := true, current := Some(s.backlog[0]), backlog := s.backlog[1..])
  }

  predicate Enabled(s: State, e: Event) {
    match e
    case Change(_) => true
    case Done(_) => s.isProcessing && s.current.Some?
    case Timer => s.timers > 0
  }

  function Step(s: State, e: Event): State {
    if !Enabled(s, e) then s
    else
      match e
      case Change(file) => ProcessBacklog(s.(backlog := s.backlog + [file], arrivals := s.arrivals + [file]))
      case Done(_) =>
        s.(isProcessing := false, current := None, processed := s.processed + [s.current.value],
           timers := if s.backlog != [] then s.timers + 1 else s.timers)
      case Timer => ProcessBacklog(s.(timers := s.timers - 1))
  }

  function Run(s: State, es: seq<Event>): State
    decreases |es|
  {
    if es == [] then s else Run(Step(s, es[0]), es[1..])
  }

  function InHand(s: State): seq<File> {
    if s.current.Some? then [s.current.value] else []
  }

  /** Nothing is lost, reordered or processed beside another, and waiting files have something to wake them. */
  predicate Invariant(s: State) {
    && s.arrivals == s.processed + InHand(s) + s.backlog
    && (s.isProcessing <==> s.current.Some?)
    && (s.backlog != [] ==> s.isProcessing || s.timers > 0)
  }

  lemma StepKeepsInvariant(s: State, e: Event)
    requires Invariant(s)
    ensures Invariant(Step(s, e))
  {
    if e.Change? {
      assert s.arrivals + [e.file] == s.processed + InHand(s) + (s.backlog + [e.file]);
    }
  }

  lemma {:induction false} RunKeepsInvariant(s: State, es: seq<Event>)
    requires Invariant(s)
    ensures Invariant(Run(s, es))
    decreases |es|
  {
    if es != [] {
      StepKeepsInvariant(s, es[0]);
      RunKeepsInvariant(Step(s, es[0]), es[1..]);
    }
  }

  /** In every run: arrivals are the processed files, the one in hand and the backlog, in that order, and a waiting
      file always has processing under way or a timer armed. */
  lemma EveryRun(es: seq<Event>)
    ensures Invariant(Run(INITIAL, es))
  {
    RunKeepsInvariant(INITIAL, es);
  }

  function Changes(es: seq<Event>): seq<File> {
    if es == [] then [] else (if es[0].Change? then [es[0].file] else []) + Changes(es[1..])
  }

  lemma {:induction false} ArrivalsAreChanges(s: State, es: seq<Event>)
    ensures Run(s, es).arrivals == s.arrivals + Changes(es)
    decreases |es|
  {
    if es != [] {
      ArrivalsAreChanges(Step(s, es[0]), es[1..]);
    }
  }

  /** In every run the changed files, in order of change, are those processed, then the one in hand, then those that
      wait. */
  lemma ChangesAreKept(es: seq<Event>)
    ensures var s := Run(INITIAL, es); s.processed + InHand(s) + s.backlog == Changes(es)
  {
    EveryRun(es);
    ArrivalsAreChanges(INITIAL, es);
    assert [] + Changes(es) == Changes(es);
  }

  /** An idle daemon takes up the first waiting file as soon as a file changes or a timer fires; a busy one goes on with
      the file in hand; and the end of processing leaves the next file to one new timer. */
  lemma WorkBeginsExactly(s: State, e: Event)
    requires Invariant(s) && Enabled(s, e)
    ensures var r, waiting := Step(s, e), s.backlog + (if e.Change? then [e.file] else []);
            match e
            case Done(_) =>
              r.current == None && r.backlog == waiting && r.timers == s.timers + (if waiting == [] then 0 else 1)
            case _ =>
              && r.timers == s.timers - (if e.Timer? then 1 else 0)
              && (if s.current.Some? || waiting == [] then r.current == s.current && r.backlog == waiting
                  else r.current == Some(waiting[0]) && r.backlog == waiting[1..])
  {
    assert s.backlog + [] == s.backlog;
  }

  // ---- Every file is eventually processed ----

  /** How many ends of processing and timers there can be before the `k`-th arrival has been processed. */
  function Wait(s: State, k: nat): int {
    3 * (k + 1 - |s.processed| - |InHand(s)|) + 2 * |InHand(s)| + s.timers
  }

  /** The steps the scheduler owes the daemon, as opposed to the changes that come from outside. */
  function Progress(s: State, es: seq<Event>): nat
    decreases |es|
  {
    if es == [] then 0
    else (if !es[0].Change? && Enabled(s, es[0]) then 1 else 0) + Progress(Step(s, es[0]), es[1..])
  }

  lemma StepShortensWait(s: State, e: Event, k: nat)
    requires Invariant(s) && k < |s.arrivals|
    ensures Wait(Step(s, e), k) <= Wait(s, k) - (if !e.Change? && Enabled(s, e) then 1 else 0)
  {
  }

  lemma {:induction false} RunShortensWait(s: State, es: seq<Event>, k: nat)
    requires Invariant(s) && k < |s.arrivals|
    ensures Wait(Run(s, es), k) <= Wait(s, k) - Progress(s, es) && s.arrivals <= Run(s, es).arrivals
    decreases |es|
  {
    if es != [] {
      StepKeepsInvariant(s, es[0]);
      StepShortensWait(s, es[0], k);
      RunShortensWait(Step(s, es[0]), es[1..], k);
    }
  }

  /** However many further files arrive, also when processing throws: after `Wait` scheduler steps the file has been
      processed, in its turn; and until then the scheduler has a step to take. */
  lemma EveryFileIsProcessed(s: State, es: seq<Event>, k: nat)
    requires Invariant(s) && k < |s.arrivals|
    ensures Progress(s, es) > Wait(s, k) ==> |Run(s, es).processed| > k && Run(s, es).processed[k] == s.arrivals[k]
    ensures |s.processed| <= k ==> Enabled(s, Done(false)) || Enabled(s, Timer)
  {
    RunKeepsInvariant(s, es);
    RunShortensWait(s, es, k);
    var s' := Run(s, es);
    if |s'.processed| > k {
      assert s'.arrivals[k] == s'.processed[k];
    }
  }

  // ---- The code ----

  class Daemon {
    var backlog: seq<File>
    var isProcessing: bool
    var timers: nat
    var current: Option<File>
    var arrivals: seq<File>
    var processed: seq<File>

    ghost function View(): State
      reads this
    {
      State(backlog, isProcessing, timers, current, arrivals, processed)
    }

    constructor ()
      ensures View() == INITIAL
    {
      backlog, isProcessing, timers, current, arrivals, processed := [], false, 0, None, [], [];
    }

    method OnChange(file: File)
      modifies this
      ensures View() == Step(old(View()), Change(file))
    {
      arrivals := arrivals + [file];
      backlog := backlog + [file];
      TakeFromBacklog();
    }

    /** `processBacklog` up to its first await. */
    method TakeFromBacklog()
      modifies this
      ensures View() == ProcessBacklog(old(View()))
    {
      if isProcessing || |backlog| == 0 {
        return;
      }
      isProcessing := true;
      current := Some(backlog[0]);
      backlog := backlog[1..];
    }

    /** The `finally` block. */
    method FinishFile(threw: bool)
      requires isProcessing && current.Some?
      modifies this
      ensures View() == Step(old(View()), Done(threw))
    {
      processed := processed + [current.value];
      current := None;
      isProcessing := false;
      if |backlog| > 0 {
        timers := timers + 1;
      }
    }

    method OnTimer()
      requires timers > 0
      modifies this
      ensures View() == Step(old(View()), Timer)
    {
      timers := timers - 1;
      TakeFromBacklog();
    }
  }
}

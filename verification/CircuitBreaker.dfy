/** The circuit breaker around every hub call. A call is two stretches, its admission and its outcome, and any
    number of calls overlap, so an outcome may come long after the circuit has changed. */
module CircuitBreaker {
  import opened Prelude

  datatype Circuit = Closed | Open | HalfOpen

  const FAILURE_THRESHOLD := 5
  const COOLDOWN_MS := 30000

  datatype State = State(circuit: Circuit, failureCount: nat, lastFailureTime: int, inFlight: nat)

  datatype Event = Call(now: int) | Succeed(now: int) | Fail(now: int)

  const INITIAL := State(Closed, 0, 0, 0)

  /** The call is let through rather than answered with null. */
  predicate Admitted(s: State, now: int) {
    s.circuit != Open || now - s.lastFailureTime > COOLDOWN_MS
  }

  function Step(s: State, e: Event): State {
    match e
    case Call(now) =>
      if !Admitted(s, now) then s
      else s.(circuit := if s.circuit == Open then HalfOpen else s.circuit, inFlight := s.inFlight + 1)
    case Succeed(_) =>
      if s.inFlight == 0 then s
      else if s.circuit != Closed then State(Closed, 0, s.lastFailureTime, s.inFlight - 1)
      else s.(inFlight := s.inFlight - 1)
    case Fail(now) =>
      if s.inFlight == 0 then s
      else State(if s.failureCount + 1 >= FAILURE_THRESHOLD then Open else s.circuit, s.failureCount + 1, now, s.inFlight - 1)
  }

  function Run(s: State, es: seq<Event>): State
    decreases |es|
  {
    if es == [] then s else Run(Step(s, es[0]), es[1..])
  }

  predicate Invariant(s: State) {
    s.circuit == Closed <==> s.failureCount < FAILURE_THRESHOLD
  }

  lemma {:induction false} RunKeepsInvariant(s: State, es: seq<Event>)
    requires Invariant(s)
    ensures Invariant(Run(s, es))
    decreases |es|
  {
    if es != [] {
      RunKeepsInvariant(Step(s, es[0]), es[1..]);
    }
  }

  /** With any number of overlapping calls: the circuit is closed exactly while fewer than five failures are
      counted, so one more failure of a half-open circuit reopens it. */
  lemma ClosedExactlyBelowThreshold(es: seq<Event>, now: int)
    ensures var s := Run(INITIAL, es);
            && (s.circuit == Closed <==> s.failureCount < 5)
            && (s.circuit == HalfOpen && s.inFlight > 0 ==> Step(s, Fail(now)).circuit == Open)
  {
    RunKeepsInvariant(INITIAL, es);
  }

  // ---- What the counter counts ----

  /** The event is a success that closes the circuit. */
  predicate Closes(s: State, e: Event) {
    e.Succeed? && s.inFlight > 0 && s.circuit != Closed
  }

  predicate NeverCloses(s: State, es: seq<Event>)
    decreases |es|
  {
    es == [] || (!Closes(s, es[0]) && NeverCloses(Step(s, es[0]), es[1..]))
  }

  function Failures(s: State, es: seq<Event>): nat
    decreases |es|
  {
    if es == [] then 0 else (if es[0].Fail? && s.inFlight > 0 then 1 else 0) + Failures(Step(s, es[0]), es[1..])
  }

  /** A closing success resets the counter, and nothing else does: until the next one it has counted every failure,
      however many successes came in between while the circuit was closed. */
  lemma {:induction false} CountsFailuresSinceClose(s: State, close: Event, es: seq<Event>)
    requires Closes(s, close) && NeverCloses(Step(s, close), es)
    ensures Run(Step(s, close), es).failureCount == Failures(Step(s, close), es)
  {
    CountsFailures(Step(s, close), es);
  }

  lemma {:induction false} CountsFailures(s: State, es: seq<Event>)
    requires NeverCloses(s, es)
    ensures Run(s, es).failureCount == s.failureCount + Failures(s, es)
    decreases |es|
  {
    if es != [] {
      CountsFailures(Step(s, es[0]), es[1..]);
    }
  }

  // ---- After a trip ----

  predicate NoSuccess(s: State, es: seq<Event>)
    decreases |es|
  {
    es == [] || (!(es[0].Succeed? && s.inFlight > 0) && NoSuccess(Step(s, es[0]), es[1..]))
  }

  /** No call of the run is let through. */
  predicate NoneAdmitted(s: State, es: seq<Event>)
    decreases |es|
  {
    es == [] || (!(es[0].Call? && Admitted(s, es[0].now)) && NoneAdmitted(Step(s, es[0]), es[1..]))
  }

  lemma {:induction false} OpenStaysShut(s: State, es: seq<Event>, trip: int)
    requires s.circuit == Open && s.lastFailureTime >= trip && NoSuccess(s, es) && s.failureCount >= FAILURE_THRESHOLD - 1
    requires forall e <- es :: trip <= e.now <= trip + 30000
    ensures NoneAdmitted(s, es) && Run(s, es).circuit == Open
    decreases |es|
  {
    if es != [] {
      assert es[0] in es;
      OpenStaysShut(Step(s, es[0]), es[1..], trip);
    }
  }

  /** From the failure that trips the circuit on, no operation starts for 30 seconds, unless a call that was
      already in flight succeeds first; later failures only prolong the wait. */
  lemma NoStartDuringCooldown(before: seq<Event>, trip: int, es: seq<Event>)
    requires var s := Run(INITIAL, before); s.inFlight > 0 && Step(s, Fail(trip)).circuit == Open
    requires NoSuccess(Step(Run(INITIAL, before), Fail(trip)), es)
    requires forall e <- es :: trip <= e.now <= trip + 30000
    ensures NoneAdmitted(Step(Run(INITIAL, before), Fail(trip)), es)
  {
    RunKeepsInvariant(INITIAL, before);
    OpenStaysShut(Step(Run(INITIAL, before), Fail(trip)), es, trip);
  }

  /** All times of the run lie within the cooldown of a trip. */
  predicate DuringCooldown(es: seq<Event>, trip: int) {
    forall e <- es :: trip <= e.now <= trip + 30000
  }

  /** With nothing in flight an open circuit has no success to come. */
  lemma {:induction false} NothingInFlightStaysShut(s: State, es: seq<Event>, trip: int)
    requires s.circuit == Open && s.lastFailureTime >= trip && s.inFlight == 0 && DuringCooldown(es, trip)
    ensures NoneAdmitted(s, es)
    decreases |es|
  {
    if es != [] {
      assert es[0] in es;
      NothingInFlightStaysShut(Step(s, es[0]), es[1..], trip);
    }
  }

  /** A success right after the trip, and then a call. */
  lemma OtherCallReopens(s: State, trip: int)
    requires s.inFlight >= 2 && Step(s, Fail(trip)).circuit == Open
    ensures var es := [Succeed(trip), Call(trip)];
            DuringCooldown(es, trip) && !NoneAdmitted(Step(s, Fail(trip)), es)
  {
    var t, es := Step(s, Fail(trip)), [Succeed(trip), Call(trip)];
    assert es[1..] == [Call(trip)];
    assert Step(t, es[0]).circuit == Closed;
  }

  /** The failure that trips the circuit stops every operation for 30 seconds, whatever happens in them, exactly when
      the failed call was the only one in flight. */
  lemma CooldownHoldsExactly(before: seq<Event>, trip: int)
    requires var s := Run(INITIAL, before); s.inFlight > 0 && Step(s, Fail(trip)).circuit == Open
    ensures var s := Run(INITIAL, before);
            (forall es | DuringCooldown(es, trip) :: NoneAdmitted(Step(s, Fail(trip)), es)) <==> s.inFlight == 1
  {
    var s := Run(INITIAL, before);
    if s.inFlight == 1 {
      forall es | DuringCooldown(es, trip)
        ensures NoneAdmitted(Step(s, Fail(trip)), es)
      {
        NothingInFlightStaysShut(Step(s, Fail(trip)), es, trip);
      }
    } else {
      OtherCallReopens(s, trip);
    }
  }

  /** The exception is real: the success of a call from before the trip reopens the gate within the cooldown. */
  lemma LateSuccessEndsCooldown(s: State, now: int)
    requires Invariant(s) && s.circuit == Open && s.inFlight > 0 && now - s.lastFailureTime <= 30000
    ensures !Admitted(s, now) && Admitted(Step(s, Succeed(now)), now) && Step(s, Succeed(now)).failureCount == 0
  {
  }

  // ---- After the cooldown ----

  /** When a call last failed. */
  function LastFailure(s: State, es: seq<Event>): Option<int>
    decreases |es|
  {
    if es == [] then None
    else
      var later := LastFailure(Step(s, es[0]), es[1..]);
      if later.Some? then later else if es[0].Fail? && s.inFlight > 0 then Some(es[0].now) else None
  }

  lemma {:induction false} LastFailureIsKept(s: State, es: seq<Event>)
    ensures Run(s, es).lastFailureTime == LastFailure(s, es).GetOr(s.lastFailureTime)
    decreases |es|
  {
    if es != [] {
      LastFailureIsKept(Step(s, es[0]), es[1..]);
    }
  }

  /** In every run a call is held back exactly while the circuit is open and the last failure is at most 30000 ms ago;
      the call that comes through an open circuit makes it half-open. */
  lemma HeldBackExactly(es: seq<Event>, now: int)
    ensures var s, shut := Run(INITIAL, es), now - LastFailure(INITIAL, es).GetOr(0) <= 30000;
            && Step(s, Call(now)).inFlight == s.inFlight + (if s.circuit == Open && shut then 0 else 1)
            && Step(s, Call(now)).circuit == (if s.circuit == Open && !shut then HalfOpen else s.circuit)
  {
    LastFailureIsKept(INITIAL, es);
  }

  /** The cooldown ends: when no call has failed since a failure that left the circuit open, then 30 seconds after it the
      circuit is closed or lets the next call through, and the success of a call then closes it with a clean counter. */
  lemma CooldownEnds(before: seq<Event>, trip: int, es: seq<Event>, now: int, done: int)
    requires Run(INITIAL, before).inFlight > 0 && Step(Run(INITIAL, before), Fail(trip)).circuit == Open
    requires LastFailure(Step(Run(INITIAL, before), Fail(trip)), es).None? && now > trip + 30000
    ensures var s := Run(Step(Run(INITIAL, before), Fail(trip)), es);
            var probe := Step(s, Call(now));
            && probe.inFlight == s.inFlight + 1 && probe.circuit == (if s.circuit == Open then HalfOpen else s.circuit)
            && Step(probe, Succeed(done)).circuit == Closed && Step(probe, Succeed(done)).failureCount < 5
            && (s.circuit == Open ==> Step(probe, Succeed(done)).failureCount == 0)
  {
    var t := Step(Run(INITIAL, before), Fail(trip));
    LastFailureIsKept(t, es);
    RunKeepsInvariant(INITIAL, before);
    RunKeepsInvariant(t, es);
  }

  // ---- The code ----

  class Breaker {
    var circuitStatus: Circuit
    var failureCount: nat
    var lastFailureTime: int
    var inFlight: nat

    ghost function View(): State
      reads this
    {
      State(circuitStatus, failureCount, lastFailureTime, inFlight)
    }

    constructor ()
      ensures View() == INITIAL
    {
      circuitStatus, failureCount, lastFailureTime, inFlight := Closed, 0, 0, 0;
    }

    /** `_call` up to its await. */
    method Begin(now: int) returns (admitted: bool)
      modifies this
      ensures View() == Step(old(View()), Call(now)) && admitted == Admitted(old(View()), now)
    {
      if circuitStatus == Open {
        if now - lastFailureTime > COOLDOWN_MS {
          circuitStatus := HalfOpen;
        } else {
          return false;
        }
      }
      inFlight := inFlight + 1;
      admitted := true;
    }

    method Succeeded(now: int)
      requires inFlight > 0
      modifies this
      ensures View() == Step(old(View()), Succeed(now))
    {
      inFlight := inFlight - 1;
      if circuitStatus != Closed {
        circuitStatus := Closed;
        failureCount := 0;
      }
    }

    method Failed(now: int)
      requires inFlight > 0
      modifies this
      ensures View() == Step(old(View()), Fail(now))
    {
      inFlight := inFlight - 1;
      failureCount := failureCount + 1;
      lastFailureTime := now;
      if failureCount >= FAILURE_THRESHOLD {
        circuitStatus := Open;
      }
    }
  }
}

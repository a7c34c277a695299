/** Which messages a client is given, told from the events alone: each receive it starts is worth one message, and the
    capacity of its channel that many more. */
module BroadcastCredit {
  import opened Broadcaster

  // ---- One offer ----

  /** Whatever a client has missed before, an offer gives it the message last published unless its buffer is full and its
      reader is not blocked in a receive; and nobody else notices. */
  lemma OfferExactly(s: State, id: Id)
    requires Invariant(s) && Enabled(s, Offer(id))
    ensures var c, s' := s.clients[id], Step(s, Offer(id));
            && id in s'.clients && s'.published == s.published && s'.pending == s.pending - {id}
            && s'.clients[id].Seen()
               == c.Seen() + (if c.waiting || |c.buffer| < c.capacity then [|s.published| - 1] else [])
            && !s'.clients[id].waiting && s'.clients - {id} == s.clients - {id}
  {
    assert ClientOk(s, id);
  }

  // ---- The reference: what the events say ----

  /** The hub without its channels. */
  datatype Rounds = Rounds(log: seq<string>, locked: bool, members: set<Id>, pending: set<Id>)

  function Turn(k: Rounds, e: Event): Rounds {
    match e
    case Register(id, _) => if k.locked then k else k.(members := k.members + {id})
    case Unregister(id) => if k.locked then k else k.(members := k.members - {id})
    case Publish(msg) => if k.locked then k else Rounds(k.log + [msg], true, k.members, k.members)
    case Offer(id) => if k.locked then k.(pending := k.pending - {id}) else k
    case EndRound => if k.pending == {} then k.(locked := false) else k
    case Receive(_) => k
  }

  /** One client: the capacity of its channel, how many receives it has started, and what it was given. */
  datatype Ear = Away | Here(capacity: nat, started: nat, given: seq<nat>)

  /** A message is given while there is credit; a reader that waits for one starts no further receive. */
  function Hears(k: Rounds, ear: Ear, e: Event, id: Id): Ear {
    match ear
    case Away => if e.Register? && e.id == id && !k.locked then Here(e.capacity, 0, []) else Away
    case Here(capacity, started, given) =>
      if e == Unregister(id) && !k.locked then Away
      else if e == Offer(id) && k.locked && id in k.pending && k.log != [] && |given| < started + capacity then
        ear.(given := given + [|k.log| - 1])
      else if e == Receive(id) && started <= |given| then ear.(started := started + 1)
      else ear
  }

  function Listen(k: Rounds, ear: Ear, es: seq<Event>, id: Id): (Rounds, Ear)
    decreases |es|
  {
    if es == [] then (k, ear) else Listen(Turn(k, es[0]), Hears(k, ear, es[0], id), es[1..], id)
  }

  // ---- The hub follows it ----

  predicate SameRounds(s: State, k: Rounds) {
    s.published == k.log && s.locked == k.locked && s.clients.Keys == k.members && s.pending == k.pending
  }

  /** The channel holds what was given and not yet asked for; its reader waits when it has asked for one more. */
  predicate SameClient(s: State, ear: Ear, id: Id) {
    match ear
    case Away => id !in s.clients
    case Here(capacity, started, given) =>
      && id in s.clients && started <= |given| + 1
      && var c := s.clients[id];
         && c.capacity == capacity && c.Seen() == given && (c.waiting <==> started == |given| + 1)
         && |c.received| == if started <= |given| then started else |given|
  }

  lemma OfferFollows(s: State, k: Rounds, ear: Ear, id: Id)
    requires Invariant(s) && SameRounds(s, k) && SameClient(s, ear, id) && Enabled(s, Offer(id))
    ensures SameClient(Step(s, Offer(id)), Hears(k, ear, Offer(id), id), id)
  {
    assert ClientOk(s, id);
    OfferExactly(s, id);
  }

  lemma ReceiveFollows(s: State, k: Rounds, ear: Ear, id: Id)
    requires Invariant(s) && SameClient(s, ear, id) && Enabled(s, Receive(id))
    ensures SameClient(Step(s, Receive(id)), Hears(k, ear, Receive(id), id), id)
  {
    assert ClientOk(s, id);
    ReceiveKeepsSeen(s.clients[id]);
  }

  lemma StepFollows(s: State, k: Rounds, ear: Ear, e: Event, id: Id)
    requires Invariant(s) && SameRounds(s, k) && SameClient(s, ear, id)
    ensures SameRounds(Step(s, e), Turn(k, e)) && SameClient(Step(s, e), Hears(k, ear, e, id), id)
  {
    RoundsFollow(s, k, e);
    if Enabled(s, e) && e == Offer(id) {
      OfferFollows(s, k, ear, id);
    } else if Enabled(s, e) && e == Receive(id) {
      ReceiveFollows(s, k, ear, id);
    } else if ear.Here? {
      UntouchedClient(s, e, id);
    }
  }

  lemma UntouchedClient(s: State, e: Event, id: Id)
    requires Invariant(s) && id in s.clients && (Enabled(s, e) ==> e != Offer(id) && e != Receive(id))
    ensures if Enabled(s, e) && e == Unregister(id) then id !in Step(s, e).clients
            else id in Step(s, e).clients && Step(s, e).clients[id] == s.clients[id]
  {
  }

  lemma RoundsFollow(s: State, k: Rounds, e: Event)
    requires Invariant(s) && SameRounds(s, k)
    ensures SameRounds(Step(s, e), Turn(k, e))
  {
    hide ClientOk;
  }

  lemma {:induction false} RunFollows(s: State, k: Rounds, ear: Ear, es: seq<Event>, id: Id)
    requires Invariant(s) && SameRounds(s, k) && SameClient(s, ear, id)
    ensures var (k', ear') := Listen(k, ear, es, id); SameRounds(Run(s, es), k') && SameClient(Run(s, es), ear', id)
    decreases |es|
  {
    hide Invariant, SameRounds, SameClient, Step, Turn, Hears;
    if es != [] {
      StepKeepsInvariant(s, es[0]);
      StepFollows(s, k, ear, es[0], id);
      RunFollows(Step(s, es[0]), Turn(k, es[0]), Hears(k, ear, es[0], id), es[1..], id);
    }
  }

  /** In every run a client is registered, has been given and has read exactly what the events say. */
  lemma GivenExactly(es: seq<Event>, id: Id)
    ensures var s, (k, ear) := Run(INITIAL, es), Listen(Rounds([], false, {}, {}), Away, es, id);
            && s.published == k.log && (id in s.clients <==> ear.Here?)
            && (ear.Here? ==>
                 var c, read := s.clients[id], if ear.started <= |ear.given| then ear.started else |ear.given|;
                 && c.received == ear.given[..read] && c.buffer == ear.given[read..] && c.capacity == ear.capacity
                 && (c.waiting <==> ear.started > |ear.given|))
  {
    hide Run, Listen;
    var k, ear := Rounds([], false, {}, {}), Away;
    RunFollows(INITIAL, k, ear, es, id);
    var s, end := Run(INITIAL, es), Listen(k, ear, es, id).1;
    if end.Here? {
      var c := s.clients[id];
      assert c.received == c.Seen()[..|c.received|] && c.buffer == c.Seen()[|c.received|..];
    }
  }
}

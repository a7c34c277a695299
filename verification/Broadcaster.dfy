/** The hub's fan-out: one broadcaster goroutine offers every message to every registered channel without
    blocking, while clients register, leave and receive. The lock excludes registration from a round of offers,
    but not receives, so those interleave with the offers of a round. */
module Broadcaster {

  type Id = nat

  /** One client channel with its reader. A message is known by its place in the log of published ones.
      `waiting` is a reader blocked in its receive: then an offer is handed over without entering the buffer,
      which is the only way through a channel of capacity 0. */
  datatype Client = Client(capacity: nat, buffer: seq<nat>, waiting: bool, received: seq<nat>, joined: nat) {
    /** What has come through the channel, in order: read already, then still buffered. */
    function Seen(): seq<nat> {
      received + buffer
    }
  }

  /** `pending` are the clients the current round has yet to offer the last published message to. */
  datatype State = State(published: seq<string>, clients: map<Id, Client>, locked: bool, pending: set<Id>)

  datatype Event =
    | Register(id: Id, capacity: nat)
    | Unregister(id: Id)
    | Publish(msg: string)
    | Offer(id: Id)
    | EndRound
    | Receive(id: Id)

  /** The `select` with an empty `default`: hand over, buffer, or skip a slow client. */
  function Offered(c: Client, m: nat): Client {
    if c.waiting then c.(waiting := false, received := c.received + [m])
    else if |c.buffer| < c.capacity then c.(buffer := c.buffer + [m])
    else c
  }

  /** The reader reaches its receive: it takes the oldest buffered message or blocks. */
  function Received(c: Client): Client {
    if c.buffer == [] then c.(waiting := true)
    else c.(received := c.received + [c.buffer[0]], buffer := c.buffer[1..])
  }

  predicate Enabled(s: State, e: Event) {
    match e
    case Register(id, _) => !s.locked && id !in s.clients
    case Unregister(id) => !s.locked && id in s.clients
    case Publish(_) => !s.locked
    case Offer(id) => s.locked && id in s.pending && id in s.clients && s.published != []
    case EndRound => s.locked && s.pending == {}
    case Receive(id) => id in s.clients && !s.clients[id].waiting
  }

  function Step(s: State, e: Event): State {
    if !Enabled(s, e) then s
    else
      match e
      case Register(id, capacity) => s.(clients := s.clients[id := Client(capacity, [], false, [], |s.published|)])
      case Unregister(id) => s.(clients := s.clients - {id})
      case Publish(msg) => s.(published := s.published + [msg], locked := true, pending := s.clients.Keys)
      case Offer(id) => s.(clients := s.clients[id := Offered(s.clients[id], |s.published| - 1)], pending := s.pending - {id})
      case EndRound => s.(locked := false)
      case Receive(id) => s.(clients := s.clients[id := Received(s.clients[id])])
  }

  function Run(s: State, es: seq<Event>): State
    decreases |es|
  {
    if es == [] then s else Run(Step(s, es[0]), es[1..])
  }

  const INITIAL := State([], map[], false, {})

  // ---- Every client sees an ordered, duplicate-free part of what was published since it joined ----

  /** Strictly increasing places in the log, from the client's registration on and below `limit`. */
  predicate Subsequence(places: seq<nat>, joined: nat, limit: int) {
    && (forall i | 0 <= i < |places| :: joined <= places[i] < limit)
    && (forall i, j | 0 <= i < j < |places| :: places[i] < places[j])
  }

  predicate ClientOk(s: State, id: Id)
    requires id in s.clients
  {
    var c := s.clients[id];
    && |c.buffer| <= c.capacity
    && (c.waiting ==> c.buffer == [])
    && c.joined <= |s.published|
    && Subsequence(c.Seen(), c.joined, if id in s.pending then |s.published| - 1 else |s.published|)
  }

  predicate Invariant(s: State) {
    && (forall id | id in s.clients :: ClientOk(s, id))
    && s.pending <= s.clients.Keys
    && (!s.locked ==> s.pending == {})
    && (s.locked ==> s.published != [])
    && (forall id | id in s.pending :: s.clients[id].joined < |s.published|)
  }

  lemma OfferKeepsClient(s: State, id: Id)
    requires Invariant(s) && Enabled(s, Offer(id))
    ensures ClientOk(Step(s, Offer(id)), id)
  {
    var c, m := s.clients[id], |s.published| - 1;
    assert ClientOk(s, id);
    if c.waiting {
      assert Offered(c, m).Seen() == c.Seen() + [m];
    } else if |c.buffer| < c.capacity {
      assert Offered(c, m).Seen() == c.Seen() + [m];
    }
  }

  lemma ReceiveKeepsSeen(c: Client)
    ensures Received(c).Seen() == c.Seen()
  {
  }

  lemma StepKeepsInvariant(s: State, e: Event)
    requires Invariant(s)
    ensures Invariant(Step(s, e))
  {
    if Enabled(s, e) {
      var s' := Step(s, e);
      forall id | id in s'.clients
        ensures ClientOk(s', id)
      {
        if e == Offer(id) {
          OfferKeepsClient(s, id);
        } else if e == Receive(id) {
          ReceiveKeepsSeen(s.clients[id]);
          assert ClientOk(s, id);
        } else if e.Register? && e.id == id {
        } else {
          assert ClientOk(s, id);
        }
      }
    }
  }

  lemma {:induction false} RunKeepsInvariant(s: State, es: seq<Event>)
    requires Invariant(s)
    ensures Invariant(Run(s, es))
    decreases |es|
  {
    if es != [] {
      StepKeepsInvariant(s, es[0]);
      RunKeepsInvariant(Step(s, es[0]), es[1..]);
    }
  }

  /** In every run: what a client has received and still holds is an ordered, duplicate-free part of the messages
      published since it registered, and its buffer is within the channel's capacity. */
  lemma EveryClientSeesSubsequence(es: seq<Event>, id: Id)
    requires id in Run(INITIAL, es).clients
    ensures var s := Run(INITIAL, es);
            var c := s.clients[id];
            Subsequence(c.Seen(), c.joined, |s.published|) && |c.buffer| <= c.capacity
  {
    RunKeepsInvariant(INITIAL, es);
    assert ClientOk(Run(INITIAL, es), id);
  }

  /** Nothing a client has received is ever taken back or reordered, and its channel keeps what it holds. */
  lemma SeenOnlyGrows(s: State, e: Event, id: Id)
    requires Invariant(s) && id in s.clients && id in Step(s, e).clients
    ensures s.clients[id].Seen() <= Step(s, e).clients[id].Seen()
    ensures s.clients[id].received <= Step(s, e).clients[id].received
    ensures s.clients[id].joined == Step(s, e).clients[id].joined
  {
    assert ClientOk(s, id);
    ReceiveKeepsSeen(s.clients[id]);
  }

  // ---- What a client misses: exactly the messages offered while it was busy with a full buffer ----

  predicate Slow(c: Client) {
    !c.waiting && |c.buffer| >= c.capacity
  }

  function Range(from: nat, to: nat): seq<nat>
    requires from <= to
  {
    seq(to - from, i requires 0 <= i < to - from => from + i)
  }

  /** The client has seen every message since it joined, but for one still to be offered in this round. */
  predicate MissedNothing(s: State, id: Id)
    requires id in s.clients && ClientOk(s, id)
    requires id in s.pending ==> s.clients[id].joined < |s.published|
  {
    s.clients[id].Seen() == Range(s.clients[id].joined, if id in s.pending then |s.published| - 1 else |s.published|)
  }

  lemma OfferMissesExactlyWhenSlow(s: State, id: Id)
    requires Invariant(s) && Enabled(s, Offer(id)) && MissedNothing(s, id)
    ensures Invariant(Step(s, Offer(id)))
    ensures MissedNothing(Step(s, Offer(id)), id) <==> !Slow(s.clients[id])
  {
    StepKeepsInvariant(s, Offer(id));
    var c, m := s.clients[id], |s.published| - 1;
    if Slow(c) {
      assert |Offered(c, m).Seen()| == m - c.joined;
    } else {
      assert Offered(c, m).Seen() == c.Seen() + [m];
      assert Range(c.joined, m + 1) == Range(c.joined, m) + [m];
    }
  }

  /** No offer of the run finds the client slow, and the run does not unregister it. */
  predicate Attentive(s: State, es: seq<Event>, id: Id)
    requires id in s.clients
    decreases |es|
  {
    es == [] ||
    (&& id in Step(s, es[0]).clients
     && (es[0] == Offer(id) && Enabled(s, es[0]) ==> !Slow(s.clients[id]))
     && Attentive(Step(s, es[0]), es[1..], id))
  }

  lemma {:induction false} AttentiveClientMissesNothing(s: State, es: seq<Event>, id: Id)
    requires Invariant(s) && id in s.clients && MissedNothing(s, id) && Attentive(s, es, id)
    ensures var s' := Run(s, es); Invariant(s') && id in s'.clients && MissedNothing(s', id)
    decreases |es|
  {
    if es != [] {
      var e, s1 := es[0], Step(s, es[0]);
      StepKeepsInvariant(s, e);
      assert ClientOk(s, id) && ClientOk(s1, id);
      if e == Offer(id) && Enabled(s, e) {
        OfferMissesExactlyWhenSlow(s, id);
      } else if e == Receive(id) {
        ReceiveKeepsSeen(s.clients[id]);
      }
      AttentiveClientMissesNothing(s1, es[1..], id);
    }
  }

  // ---- The order in which Go walks the client map does not matter ----

  /** The outcome of one whole round, without an order. */
  function RoundOf(clients: map<Id, Client>, ids: set<Id>, m: nat): map<Id, Client> {
    map id | id in clients :: if id in ids then Offered(clients[id], m) else clients[id]
  }

  /** Offers to different clients commute, also with the receives of other clients in between. */
  lemma OffersCommute(s: State, c: Id, d: Id, e: Event)
    requires c != d && (e == Offer(d) || e == Receive(d))
    ensures Step(Step(s, Offer(c)), e) == Step(Step(s, e), Offer(c))
  {
    if Enabled(s, Offer(c)) && Enabled(s, e) {
      var s1, s2 := Step(Step(s, Offer(c)), e), Step(Step(s, e), Offer(c));
      assert s1.clients == s2.clients;
      assert s1.pending == s2.pending;
    }
  }

  /** The offers and receives of one client among those of a round. */
  function Own(es: seq<Event>, id: Id): seq<Event>
    decreases |es|
  {
    if es == [] then [] else (if es[0] == Offer(id) || es[0] == Receive(id) then [es[0]] else []) + Own(es[1..], id)
  }

  predicate InRound(es: seq<Event>) {
    forall e <- es :: e.Offer? || e.Receive?
  }

  /** The two states look the same to the client. */
  predicate AlikeFor(s: State, t: State, id: Id) {
    && s.published == t.published && s.locked == t.locked
    && (id in s.clients <==> id in t.clients) && (id in s.clients ==> s.clients[id] == t.clients[id])
    && (id in s.pending <==> id in t.pending)
  }

  lemma StepAlike(s: State, t: State, e: Event, id: Id)
    requires AlikeFor(s, t, id) && (e.Offer? || e.Receive?)
    ensures AlikeFor(Step(s, e), if e == Offer(id) || e == Receive(id) then Step(t, e) else t, id)
  {
  }

  /** A client's part of a round depends on its own offers and receives only. */
  lemma {:induction false} OwnEventsDecide(s: State, t: State, es: seq<Event>, id: Id)
    requires AlikeFor(s, t, id) && InRound(es)
    ensures AlikeFor(Run(s, es), Run(t, Own(es, id)), id)
    decreases |es|
  {
    hide AlikeFor, Step;
    if es != [] {
      var e := es[0];
      assert e in es && InRound(es[1..]);
      StepAlike(s, t, e, id);
      if e == Offer(id) || e == Receive(id) {
        assert Own(es, id)[0] == e && Own(es, id)[1..] == Own(es[1..], id);
        OwnEventsDecide(Step(s, e), Step(t, e), es[1..], id);
      } else {
        assert [] + Own(es[1..], id) == Own(es[1..], id);
        OwnEventsDecide(Step(s, e), t, es[1..], id);
      }
    }
  }

  /** The order in which a round goes through the clients is invisible, also with receives in between: two ways to go
      through it in which each client has the same offers and receives in the same order end in the same state. */
  lemma RoundOrderIsInvisible(s: State, es: seq<Event>, fs: seq<Event>)
    requires InRound(es) && InRound(fs) && forall id :: Own(es, id) == Own(fs, id)
    ensures Run(s, es) == Run(s, fs)
  {
    hide Run, Own, InRound;
    var a, b := Run(s, es), Run(s, fs);
    forall id
      ensures AlikeFor(a, b, id)
    {
      OwnEventsDecide(s, s, es, id);
      OwnEventsDecide(s, s, fs, id);
    }
    AlikeForAll(a, b);
  }

  lemma AlikeForAll(a: State, b: State)
    requires forall id :: AlikeFor(a, b, id)
    ensures a == b
  {
    assert AlikeFor(a, b, 0);
    forall id
      ensures (id in a.clients <==> id in b.clients) && (id in a.clients ==> a.clients[id] == b.clients[id])
      ensures id in a.pending <==> id in b.pending
    {
      assert AlikeFor(a, b, id);
    }
    assert a.clients.Keys == b.clients.Keys;
    assert a.pending == b.pending;
  }

  // ---- The code ----

  class Hub {
    var published: seq<string>
    var clients: map<Id, Client>
    var locked: bool
    var pending: set<Id>

    ghost function View(): State
      reads this
    {
      State(published, clients, locked, pending)
    }

    constructor ()
      ensures View() == INITIAL
    {
      published, clients, locked, pending := [], map[], false, {};
    }

    /** WatchHealth and WatchEvents make unbuffered channels; ServeSSE makes one of capacity 10. */
    method RegisterClient(id: Id, capacity: nat)
      requires !locked && id !in clients
      modifies this
      ensures View() == Step(old(View()), Register(id, capacity))
    {
      clients := clients[id := Client(capacity, [], false, [], |published|)];
    }

    method UnregisterClient(id: Id)
      requires !locked && id in clients
      modifies this
      ensures View() == Step(old(View()), Unregister(id))
    {
      clients := clients - {id};
    }

    method ReceiveNext(id: Id)
      requires id in clients && !clients[id].waiting
      modifies this
      ensures View() == Step(old(View()), Receive(id))
    {
      var c := clients[id];
      if c.buffer == [] {
        clients := clients[id := c.(waiting := true)];
      } else {
        clients := clients[id := c.(received := c.received + [c.buffer[0]], buffer := c.buffer[1..])];
      }
    }

    method OfferTo(id: Id)
      requires locked && id in pending && id in clients && published != []
      modifies this
      ensures View() == Step(old(View()), Offer(id))
    {
      var c, m := clients[id], |published| - 1;
      if c.waiting {
        c := c.(waiting := false, received := c.received + [m]);
      } else if |c.buffer| < c.capacity {
        c := c.(buffer := c.buffer + [m]);
      }
      clients, pending := clients[id := c], pending - {id};
    }

    /** One turn of the broadcaster's loop, undisturbed: whatever order the map is walked in, the round ends the same. */
    method Broadcast(msg: string)
      requires !locked
      modifies this
      ensures published == old(published) + [msg] && !locked && pending == {}
      ensures clients == RoundOf(old(clients), old(clients).Keys, |old(published)|)
    {
      published, locked, pending := published + [msg], true, clients.Keys;
      ghost var before := clients;
      while pending != {}
        invariant locked && published == old(published) + [msg]
        invariant pending <= before.Keys && clients == RoundOf(before, before.Keys - pending, |old(published)|)
        decreases pending
      {
        var id :| id in pending;
        OfferTo(id);
      }
      locked := false;
      assert before.Keys - {} == before.Keys;
    }
  }
}

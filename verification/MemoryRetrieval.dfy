/** The memory table: what is remembered, and which entries a query is answered with. Similarities are computed over
    the reals: `val` gives the value of a float's bit pattern and `root` is the square root. */
module MemoryRetrieval {
  import opened Prelude
  import opened Wire
  import opened MemoryMessages
  import opened StableOrder
  import opened Similarity

  // ---- Embeddings as little-endian blobs ----

  function Blob(es: seq<bits32>): (b: bytes)
    ensures |b| == 4 * |es|
  {
    if es == [] then [] else Blob(es[..|es| - 1]) + Fixed(4, es[|es| - 1])
  }

  function Float(b: bytes): bits32
    requires |b| == 4
  {
    assert Pow256(4) == 0x1_0000_0000;
    FixedValue(b)
  }

  /** Whole floats only; up to three bytes at the end are ignored. */
  function Unblob(b: bytes): (es: seq<bits32>)
    ensures |es| == |b| / 4
  {
    if |b| < 4 then [] else [Float(b[..4])] + Unblob(b[4..])
  }

  lemma {:induction false} UnblobAppended(b: bytes, e: bits32)
    requires |b| % 4 == 0
    ensures Unblob(b + Fixed(4, e)) == Unblob(b) + [e]
  {
    hide Fixed, FixedValue;
    var c := b + Fixed(4, e);
    if b == [] {
      assert c == Fixed(4, e) && c[..4] == c && c[4..] == [];
      assert Pow256(4) == 0x1_0000_0000;
      FixedValueRoundTrip(4, e);
    } else {
      assert c[..4] == b[..4] && c[4..] == b[4..] + Fixed(4, e);
      UnblobAppended(b[4..], e);
    }
  }

  /** A stored embedding decodes to what was stored. */
  lemma {:induction false} BlobRoundTrip(es: seq<bits32>)
    ensures Unblob(Blob(es)) == es
  {
    if es != [] {
      BlobRoundTrip(es[..|es| - 1]);
      UnblobAppended(Blob(es[..|es| - 1]), es[|es| - 1]);
      assert es == es[..|es| - 1] + [es[|es| - 1]];
    }
  }

  // ---- The table and its queries ----

  /** A row; `time` orders rows by recency and `timestamp` is its text. The blob holds the embedding. */
  datatype Row = Row(
    id: bytes, agentId: bytes, objective: bytes, action: bytes, result: bytes, time: nat, timestamp: bytes, blob: bytes)

  /** The row holds what was remembered, column by column. */
  predicate Holds(r: Row, m: MemoryEntry) {
    && r.id == m.id && r.agentId == m.agentId && r.objective == m.objective && r.action == m.action && r.result == m.result
    && r.blob == Blob(m.embedding)
  }

  function EntryOf(r: Row): MemoryEntry {
    MemoryEntry(r.id, r.agentId, r.objective, r.action, r.result, r.timestamp, Unblob(r.blob), [])
  }

  function Matching(table: seq<Row>, agentId: bytes): seq<Row> {
    if table == [] then []
    else
      var r := table[|table| - 1];
      Matching(table[..|table| - 1], agentId) + if r.agentId == agentId then [r] else []
  }

  function Times(rows: seq<Row>): seq<real> {
    seq(|rows|, i requires 0 <= i < |rows| => rows[i].time as real)
  }

  /** The rows of an agent, latest first; rows of the same second in the order in which they were stored. */
  function Recent(table: seq<Row>, agentId: bytes): seq<Row> {
    var rows := Matching(table, agentId);
    Rearranged(rows, Order(Times(rows)))
  }

  /** `LIMIT n`; a negative limit is none. */
  function Limited(rows: seq<Row>, limit: int): seq<Row> {
    if limit < 0 then rows else rows[..Min(limit, |rows|)]
  }

  const FETCH_LIMIT := 1000

  /** What the table is asked for: an agent, how many entries, and the embedding of the query text, if there is one. */
  datatype Query = Query(agentId: bytes, limit: int32, embedding: seq<bits32>)

  function Fetched(table: seq<Row>, q: Query): seq<Row> {
    Limited(Recent(table, q.agentId), if q.embedding == [] then q.limit else FETCH_LIMIT)
  }

  /** How embeddings are compared. */
  datatype Metric = Metric(val: bits32 -> real, root: real -> real)

  function Values(m: Metric, es: seq<bits32>): seq<real> {
    seq(|es|, i requires 0 <= i < |es| => m.val(es[i]))
  }

  function Score(m: Metric, query: seq<bits32>, e: MemoryEntry): real
    requires IsRoot(m.root)
  {
    if |query| > 0 && |e.embedding| > 0 then Cosine(Values(m, query), Values(m, e.embedding), m.root) else 1.0
  }

  function Entries(rows: seq<Row>): (es: seq<MemoryEntry>) {
    seq(|rows|, i requires 0 <= i < |rows| => EntryOf(rows[i]))
  }

  function Scores(m: Metric, query: seq<bits32>, es: seq<MemoryEntry>): seq<real>
    requires IsRoot(m.root)
  {
    seq(|es|, i requires 0 <= i < |es| => Score(m, query, es[i]))
  }

  /** The reply; None when slicing with a negative limit panics. */
  function Retrieved(table: seq<Row>, q: Query, m: Metric): Option<seq<MemoryEntry>>
    requires IsRoot(m.root)
  {
    var es := Entries(Fetched(table, q));
    if q.embedding == [] then Some(es)
    else if q.limit < 0 then None
    else Some(Rearranged(es, Order(Scores(m, q.embedding, es)))[..Min(q.limit, |es|)])
  }

  class MemoryTable {
    var table: seq<Row>

    constructor ()
      ensures table == []
    {
      table := [];
    }

    /** Rejected when the id, the primary key, is taken. */
    method Remember(entry: MemoryEntry, time: nat, timestamp: bytes) returns (ok: bool)
      modifies this
      ensures ok == forall i | 0 <= i < |old(table)| :: old(table)[i].id != entry.id
      ensures (if ok then |table| == |old(table)| + 1 && table[..|table| - 1] == old(table) else table == old(table))
      ensures ok ==> var r := table[|table| - 1]; Holds(r, entry) && r.time == time && r.timestamp == timestamp
    {
      var blob, i := [], 0;
      while i < |entry.embedding|
        invariant i <= |entry.embedding| && blob == Blob(entry.embedding[..i])
      {
        assert entry.embedding[..i + 1][..i] == entry.embedding[..i];
        blob := blob + Fixed(4, entry.embedding[i]);
        i := i + 1;
      }
      assert entry.embedding[..i] == entry.embedding;
      if exists k :: 0 <= k < |table| && table[k].id == entry.id {
        return false;
      }
      table := table + [Row(entry.id, entry.agentId, entry.objective, entry.action, entry.result, time, timestamp, blob)];
      return true;
    }

    method Retrieve(q: Query, m: Metric) returns (sent: Option<seq<MemoryEntry>>)
      requires IsRoot(m.root)
      ensures sent == Retrieved(table, q, m)
    {
      hide Cosine, IsRoot, Fetched, Order, EntryOf;
      var rows := Fetched(table, q);
      var allMemories, scores := [], [];
      for i := 0 to |rows|
        invariant |allMemories| == |scores| == i
        invariant forall k | 0 <= k < i :: allMemories[k] == EntryOf(rows[k])
        invariant forall k | 0 <= k < i :: scores[k] == Score(m, q.embedding, allMemories[k])
      {
        var entry := EntryOf(rows[i]);
        var score := 1.0;
        if |q.embedding| > 0 && |entry.embedding| > 0 {
          score := CosineSimilarity(Values(m, q.embedding), Values(m, entry.embedding), m.root);
        }
        allMemories, scores := allMemories + [entry], scores + [score];
      }
      assert allMemories == Entries(rows);
      if |q.embedding| > 0 {
        assert scores == Scores(m, q.embedding, allMemories);
        allMemories := Rearranged(allMemories, Order(scores));
        if q.limit < 0 {
          return None;
        }
        allMemories := allMemories[..Min(q.limit, |allMemories|)];
      }
      return Some(allMemories);
    }
  }

  // ---- What a query is answered with ----

  lemma ScoreInRange(m: Metric, query: seq<bits32>, e: MemoryEntry)
    requires IsRoot(m.root)
    ensures -1.0 <= Score(m, query, e) <= 1.0
  {
    CosineInRange(Values(m, query), Values(m, e.embedding), m.root);
  }

  /** The reply to a query text, as positions among the fetched entries, which come latest first. */
  function Returned(table: seq<Row>, q: Query, m: Metric): (p: seq<nat>)
    requires IsRoot(m.root) && q.limit >= 0
    ensures forall i | 0 <= i < |p| :: p[i] < |Fetched(table, q)|
  {
    var scores := Scores(m, q.embedding, Entries(Fetched(table, q)));
    Order(scores)[..Min(q.limit, |scores|)]
  }

  function FetchedScore(table: seq<Row>, q: Query, m: Metric, x: nat): real
    requires IsRoot(m.root) && x < |Fetched(table, q)|
  {
    Score(m, q.embedding, EntryOf(Fetched(table, q)[x]))
  }

  /** A query with a text panics exactly when its limit is negative; otherwise the reply consists of the first
      min(limit, count) entries in the order of `Returned`, among the latest thousand entries of the agent. */
  lemma ReplyIs(table: seq<Row>, q: Query, m: Metric)
    requires IsRoot(m.root) && q.embedding != []
    ensures Retrieved(table, q, m).None? <==> q.limit < 0
    ensures (q.limit >= 0 ==>
               var reply, p := Retrieved(table, q, m).value, Returned(table, q, m);
               && |reply| == |p| == Min(q.limit, |Fetched(table, q)|)
               && forall i | 0 <= i < |p| :: reply[i] == EntryOf(Fetched(table, q)[p[i]]))
    ensures |Fetched(table, q)| == Min(FETCH_LIMIT, |Recent(table, q.agentId)|)
  {
    hide Order, Score;
  }

  /** The reply is in descending order of score, and entries that score the same are in recency order. */
  lemma ReplyIsRanked(table: seq<Row>, q: Query, m: Metric, i: nat, j: nat)
    requires IsRoot(m.root) && q.limit >= 0 && i < j < |Returned(table, q, m)|
    ensures var x, y := Returned(table, q, m)[i], Returned(table, q, m)[j];
            || FetchedScore(table, q, m, x) > FetchedScore(table, q, m, y)
            || (FetchedScore(table, q, m, x) == FetchedScore(table, q, m, y) && x < y)
  {
    hide Score, Order, Fetched;
    var scores := Scores(m, q.embedding, Entries(Fetched(table, q)));
    OrderIsOrder(scores);
    assert Before(scores, Order(scores)[i], Order(scores)[j]);
  }

  /** A fetched entry that is left out scores no higher than any entry of the reply, and where it scores the same it
      is older. */
  lemma NoBetterEntryIsOmitted(table: seq<Row>, q: Query, m: Metric, i: nat, y: nat)
    requires IsRoot(m.root) && q.limit >= 0 && i < |Returned(table, q, m)|
    requires y < |Fetched(table, q)| && y !in Returned(table, q, m)
    ensures var x := Returned(table, q, m)[i];
            || FetchedScore(table, q, m, x) > FetchedScore(table, q, m, y)
            || (FetchedScore(table, q, m, x) == FetchedScore(table, q, m, y) && x < y)
  {
    hide Score, Order, Fetched;
    var scores := Scores(m, q.embedding, Entries(Fetched(table, q)));
    TopBeatsRest(scores, Min(q.limit, |scores|), i, y);
  }

  /** An entry without an embedding scores 1 and is never outranked: it is left out only when the reply is full, and
      then every entry of the reply scores 1 as well and is newer. */
  lemma PlainEntryIsOutrankedByNone(table: seq<Row>, q: Query, m: Metric, i: nat, y: nat)
    requires IsRoot(m.root) && q.limit >= 0 && i < |Returned(table, q, m)|
    requires y < |Fetched(table, q)| && y !in Returned(table, q, m) && EntryOf(Fetched(table, q)[y]).embedding == []
    ensures |Returned(table, q, m)| == q.limit
    ensures Returned(table, q, m)[i] < y && FetchedScore(table, q, m, Returned(table, q, m)[i]) == 1.0
  {
    hide Order, Fetched, Cosine, IsRoot;
    var scores := Scores(m, q.embedding, Entries(Fetched(table, q)));
    NoBetterEntryIsOmitted(table, q, m, i, y);
    ScoreInRange(m, q.embedding, EntryOf(Fetched(table, q)[Returned(table, q, m)[i]]));
    OrderIsOrder(scores);
    assert y in Order(scores) && Order(scores)[..|scores|] == Order(scores);
  }

  // ---- What was remembered can be retrieved ----

  lemma {:induction false} MatchingHas(table: seq<Row>, r: Row)
    requires r in table
    ensures r in Matching(table, r.agentId)
  {
    var init := table[..|table| - 1];
    if r in init {
      MatchingHas(init, r);
    } else {
      assert r == table[|table| - 1];
    }
  }

  /** A remembered entry comes back as it was, but for the time stamp and unknown fields, from a query of its agent
      without a text, exactly when no limit is set or it exceeds the number of the agent's rows that are more recent;
      and it stands right behind those. */
  lemma RememberedIsRetrieved(table: seq<Row>, m: Metric, entry: MemoryEntry, row: Row, q: Query) returns (x: nat)
    requires IsRoot(m.root) && row in table && Holds(row, entry)
    requires q.agentId == entry.agentId && q.embedding == []
    ensures var rows := Matching(table, q.agentId);
            && x < |rows| && rows[x] == row
            && var place, reply := |Ahead(Times(rows), x)|, Retrieved(table, q, m).value;
            && (place < |reply| <==> q.limit < 0 || place < q.limit)
            && (place < |reply| ==> reply[place] == entry.(timestamp := row.timestamp, unknown := []))
  {
    hide Blob, Unblob, Order, Ahead;
    var rows := Matching(table, q.agentId);
    BlobRoundTrip(entry.embedding);
    MatchingHas(table, row);
    x :| 0 <= x < |rows| && rows[x] == row;
    PlaceInOrder(Times(rows), x);
  }
}

/** Which rows of the memory table a query gets to see, and what a score is, told on the rows and embeddings themselves. */
module MemoryLaws {
  import opened Wire
  import opened MemoryMessages
  import opened StableOrder
  import opened Similarity
  import opened MemoryRetrieval

  // ---- Rows ----

  /** The row at `x` is more recent than the one at `y`, or of the same second and stored earlier. */
  predicate Precedes(table: seq<Row>, x: nat, y: nat)
    requires x < |table| && y < |table|
  {
    table[x].time > table[y].time || (table[x].time == table[y].time && x < y)
  }

  /** Where the rows of an agent stand in the table. */
  function Places(table: seq<Row>, agentId: bytes): seq<nat> {
    if table == [] then []
    else
      var n := |table| - 1;
      Places(table[..n], agentId) + if table[n].agentId == agentId then [n] else []
  }

  lemma {:induction false} PlacesOfMatching(table: seq<Row>, agentId: bytes)
    ensures var p, rows := Places(table, agentId), Matching(table, agentId);
            && |p| == |rows| && (forall i | 0 <= i < |p| :: p[i] < |table| && rows[i] == table[p[i]])
            && (forall i, j | 0 <= i < j < |p| :: p[i] < p[j])
    ensures forall x: nat | x < |table| :: x in Places(table, agentId) <==> table[x].agentId == agentId
  {
    if table != [] {
      var n, init := |table| - 1, table[..|table| - 1];
      PlacesOfMatching(init, agentId);
      var p, q := Places(table, agentId), Places(init, agentId);
      assert p == q + if table[n].agentId == agentId then [n] else [];
      forall x: nat | x < |table|
        ensures x in p <==> table[x].agentId == agentId
      {
        if x < n {
          assert init[x] == table[x];
        } else {
          assert n !in q;
        }
      }
    }
  }

  /** How many rows a query is given at most; negative for no limit. */
  function RowLimit(q: Query): int {
    if q.embedding == [] then q.limit else 1000
  }

  lemma LimitedIs(rows: seq<Row>, limit: int)
    ensures var r := Limited(rows, limit); r <= rows && (r == rows || |r| == limit) && (limit >= 0 ==> |r| <= limit)
  {
  }

  lemma FetchedIsLimited(table: seq<Row>, q: Query)
    ensures Fetched(table, q) == Limited(Recent(table, q.agentId), RowLimit(q))
  {
  }

  /** A query sees rows of its agent only, each once, the most recent first; and a row of the agent is kept from it only
      when the limit is reached by rows that come before it. */
  lemma FetchedIsRecent(table: seq<Row>, q: Query) returns (p: seq<nat>)
    ensures |p| == |Fetched(table, q)| && (RowLimit(q) >= 0 ==> |p| <= RowLimit(q))
    ensures forall i | 0 <= i < |p| ::
              p[i] < |table| && Fetched(table, q)[i] == table[p[i]] && table[p[i]].agentId == q.agentId
    ensures forall i, j | 0 <= i < j < |p| :: Precedes(table, p[i], p[j])
    ensures forall x: nat | x < |table| && table[x].agentId == q.agentId && x !in p ::
              |p| == RowLimit(q) && forall i | 0 <= i < |p| :: Precedes(table, p[i], x)
  {
    hide Places, Matching, Order, Limited, IsOrder;
    var places, rows := Places(table, q.agentId), Matching(table, q.agentId);
    var o, k := Order(Times(rows)), |Fetched(table, q)|;
    PlacesOfMatching(table, q.agentId);
    FetchedIsLimited(table, q);
    LimitedIs(Recent(table, q.agentId), RowLimit(q));
    p := seq(k, i requires 0 <= i < k => places[o[i]]);
    OrderPrecedes(table, places, rows);
    forall i | 0 <= i < k
      ensures places[o[i]] in p
    {
      assert p[i] == places[o[i]];
    }
    forall x: nat | x < |table| && table[x].agentId == q.agentId && x !in p
      ensures |p| == RowLimit(q) && forall i | 0 <= i < |p| :: Precedes(table, p[i], x)
    {
      assert x in places;
      var y: nat :| y < |places| && places[y] == x;
      var j := PlaceOf(Times(rows), y);
      assert j >= k;
      forall i | 0 <= i < |p|
        ensures Precedes(table, p[i], x)
      {
        assert Precedes(table, places[o[i]], places[o[j]]);
      }
    }
    forall i, j | 0 <= i < j < |p|
      ensures Precedes(table, p[i], p[j])
    {
      assert Precedes(table, places[o[i]], places[o[j]]);
    }
  }

  lemma PlaceOf(keys: seq<real>, y: nat) returns (j: nat)
    requires y < |keys|
    ensures j < |keys| && Order(keys)[j] == y
  {
    hide Order, Ascends;
    OrderIsOrder(keys);
    assert y in Order(keys);
    j :| j < |keys| && Order(keys)[j] == y;
  }

  lemma OrderPrecedes(table: seq<Row>, places: seq<nat>, rows: seq<Row>)
    requires |places| == |rows| && (forall i | 0 <= i < |rows| :: places[i] < |table| && rows[i] == table[places[i]])
    requires forall i, j | 0 <= i < j < |places| :: places[i] < places[j]
    ensures var o := Order(Times(rows));
            forall i, j | 0 <= i < j < |o| :: Precedes(table, places[o[i]], places[o[j]])
  {
    hide Order;
    var keys := Times(rows);
    var o := Order(keys);
    OrderIsOrder(keys);
    forall i, j | 0 <= i < j < |o|
      ensures Precedes(table, places[o[i]], places[o[j]])
    {
      assert Before(keys, o[i], o[j]);
      assert keys[o[i]] == rows[o[i]].time as real && keys[o[j]] == rows[o[j]].time as real;
    }
  }

  /** A stored embedding is one four-byte number after the other. */
  lemma {:induction false} BlobExactly(es: seq<bits32>, i: nat)
    requires i < |es|
    ensures Blob(es)[4 * i..4 * i + 4] == Fixed(4, es[i])
  {
    hide Fixed;
    var n := |es| - 1;
    var init, last := Blob(es[..n]), Fixed(4, es[n]);
    if i == n {
      assert (init + last)[4 * n..] == last;
    } else {
      BlobExactly(es[..n], i);
      assert (init + last)[4 * i..4 * i + 4] == init[4 * i..4 * i + 4];
    }
  }

  // ---- Scores ----

  /** The sum of the products of two embeddings, coordinate by coordinate. */
  function Products(m: Metric, a: seq<bits32>, b: seq<bits32>): real
    requires |a| == |b|
  {
    if a == [] then 0.0 else m.val(a[0]) * m.val(b[0]) + Products(m, a[1..], b[1..])
  }

  lemma {:induction false} ProductsAppended(m: Metric, a: seq<bits32>, b: seq<bits32>, u: bits32, v: bits32)
    requires |a| == |b|
    ensures Products(m, a + [u], b + [v]) == Products(m, a, b) + m.val(u) * m.val(v)
  {
    if a == [] {
      assert (a + [u])[1..] == [] && (b + [v])[1..] == [];
    } else {
      assert (a + [u])[1..] == a[1..] + [u] && (b + [v])[1..] == b[1..] + [v];
      ProductsAppended(m, a[1..], b[1..], u, v);
    }
  }

  lemma {:induction false} DotIsProducts(m: Metric, a: seq<bits32>, b: seq<bits32>, n: nat)
    requires n <= |a| == |b|
    ensures Dot(Values(m, a), Values(m, b), n) == Products(m, a[..n], b[..n])
  {
    hide Products;
    if n > 0 {
      DotIsProducts(m, a, b, n - 1);
      assert a[..n] == a[..n - 1] + [a[n - 1]] && b[..n] == b[..n - 1] + [b[n - 1]];
      ProductsAppended(m, a[..n - 1], b[..n - 1], a[n - 1], b[n - 1]);
    } else {
      NoProducts(m, a[..0], b[..0]);
    }
  }

  lemma NoProducts(m: Metric, a: seq<bits32>, b: seq<bits32>)
    requires a == [] && b == []
    ensures Products(m, a, b) == 0.0
  {
  }

  predicate IsZero(m: Metric, a: seq<bits32>) {
    forall i | 0 <= i < |a| :: m.val(a[i]) == 0.0
  }

  /** The sum of squares vanishes exactly when every coordinate does. */
  lemma {:induction false} ZeroExactly(m: Metric, a: seq<bits32>)
    ensures if IsZero(m, a) then Products(m, a, a) == 0.0 else Products(m, a, a) > 0.0
  {
    if a != [] {
      hide IsZero;
      ZeroExactly(m, a[1..]);
      var v := m.val(a[0]);
      var square := v * v;
      SquareIs(v, square);
      ZeroTail(m, a);
      assert Products(m, a, a) == square + Products(m, a[1..], a[1..]);
    }
  }

  lemma ZeroTail(m: Metric, a: seq<bits32>)
    requires a != []
    ensures IsZero(m, a) <==> m.val(a[0]) == 0.0 && IsZero(m, a[1..])
  {
    if m.val(a[0]) == 0.0 && IsZero(m, a[1..]) {
      forall i | 0 <= i < |a|
        ensures m.val(a[i]) == 0.0
      {
        assert i > 0 ==> a[1..][i - 1] == a[i];
      }
    }
  }

  /** The score of a stored entry: 1 when it or the query has no embedding, 0 when the lengths differ or one is the zero
      vector, and otherwise the sum of products over the product of the lengths. */
  lemma ScoreExactly(m: Metric, query: seq<bits32>, e: MemoryEntry)
    requires IsRoot(m.root)
    ensures var s, a, b := Score(m, query, e), query, e.embedding;
            if a == [] || b == [] then s == 1.0
            else if |a| != |b| || IsZero(m, a) || IsZero(m, b) then s == 0.0
            else var x, y := m.root(Products(m, a, a)), m.root(Products(m, b, b));
                 IsRootOf(x, Products(m, a, a)) && IsRootOf(y, Products(m, b, b)) && s * (x * y) == Products(m, a, b)
  {
    hide Products, Dot, IsRoot, IsRootOf, IsZero, Cosine;
    var a, b := query, e.embedding;
    CosineExactly(Values(m, a), Values(m, b), m.root);
    if |a| == |b| {
      EmbeddingSums(m, a, b);
    }
  }

  lemma EmbeddingSums(m: Metric, a: seq<bits32>, b: seq<bits32>)
    requires |a| == |b|
    ensures var va, vb := Values(m, a), Values(m, b);
            && Dot(va, va, |va|) == Products(m, a, a) && Dot(vb, vb, |vb|) == Products(m, b, b)
            && Dot(va, vb, |va|) == Products(m, a, b)
            && (IsZero(m, a) <==> Products(m, a, a) == 0.0) && (IsZero(m, b) <==> Products(m, b, b) == 0.0)
  {
    hide Products, Dot, IsZero;
    assert a[..|a|] == a && b[..|b|] == b;
    DotIsProducts(m, a, a, |a|);
    DotIsProducts(m, b, b, |b|);
    DotIsProducts(m, a, b, |a|);
    ZeroExactly(m, a);
    ZeroExactly(m, b);
  }
}

/** The stable descending order of a list of scores, as positions into the list. It stands for the library sorts that
    rank modules by fan-in and memories by similarity. */
module StableOrder {

  /** A higher score comes first; equal scores keep their places. */
  predicate Before(keys: seq<real>, i: nat, j: nat)
    requires i < |keys| && j < |keys|
  {
    keys[i] > keys[j] || (keys[i] == keys[j] && i < j)
  }

  predicate InRange(keys: seq<real>, p: seq<nat>) {
    forall i | 0 <= i < |p| :: p[i] < |keys|
  }

  predicate Ascends(keys: seq<real>, p: seq<nat>)
    requires InRange(keys, p)
  {
    forall i, j | 0 <= i < j < |p| :: Before(keys, p[i], p[j])
  }

  /** `p` lists every position, once, in stable descending order. */
  predicate IsOrder(keys: seq<real>, p: seq<nat>) {
    && |p| == |keys| && InRange(keys, p) && Ascends(keys, p)
    && forall x: nat | x < |keys| :: x in p
  }

  function Insert(keys: seq<real>, p: seq<nat>, x: nat): (r: seq<nat>)
    requires InRange(keys, p) && x < |keys|
    ensures |r| == |p| + 1 && forall i | 0 <= i < |r| :: r[i] == x || r[i] in p
  {
    if p == [] || keys[p[|p| - 1]] >= keys[x] then p + [x]
    else Insert(keys, p[..|p| - 1], x) + [p[|p| - 1]]
  }

  function OrderOf(keys: seq<real>, n: nat): (p: seq<nat>)
    requires n <= |keys|
    ensures |p| == n && forall i | 0 <= i < n :: p[i] < n
  {
    if n == 0 then [] else Insert(keys, OrderOf(keys, n - 1), n - 1)
  }

  function Order(keys: seq<real>): (p: seq<nat>)
    ensures InRange(keys, p) && |p| == |keys|
  {
    OrderOf(keys, |keys|)
  }

  function Rearranged<T>(xs: seq<T>, p: seq<nat>): (r: seq<T>)
    requires forall i | 0 <= i < |p| :: p[i] < |xs|
    ensures |r| == |p| && forall i | 0 <= i < |p| :: r[i] == xs[p[i]]
  {
    seq(|p|, i requires 0 <= i < |p| => xs[p[i]])
  }

  lemma {:induction false} InsertAscends(keys: seq<real>, p: seq<nat>, x: nat)
    requires InRange(keys, p) && Ascends(keys, p) && x < |keys| && forall i | 0 <= i < |p| :: p[i] < x
    ensures Ascends(keys, Insert(keys, p, x))
  {
    if p != [] && keys[p[|p| - 1]] < keys[x] {
      var init, last := p[..|p| - 1], p[|p| - 1];
      InsertAscends(keys, init, x);
      var r := Insert(keys, init, x);
      forall i | 0 <= i < |r|
        ensures Before(keys, r[i], last)
      {
        assert r[i] in r;
        if r[i] != x {
          var k :| 0 <= k < |init| && init[k] == r[i];
          assert Before(keys, p[k], last);
        }
      }
    } else if p != [] {
      forall i | 0 <= i < |p|
        ensures Before(keys, p[i], x)
      {
        assert p[i] in p;
        assert i < |p| - 1 ==> Before(keys, p[i], p[|p| - 1]);
      }
    }
  }

  lemma {:induction false} OrderOfAscends(keys: seq<real>, n: nat)
    requires n <= |keys|
    ensures Ascends(keys, OrderOf(keys, n))
  {
    hide Insert;
    if n > 0 {
      OrderOfAscends(keys, n - 1);
      InsertAscends(keys, OrderOf(keys, n - 1), n - 1);
    }
  }

  lemma {:induction false} InsertHas(keys: seq<real>, p: seq<nat>, x: nat, y: nat)
    requires InRange(keys, p) && x < |keys|
    ensures y in Insert(keys, p, x) <==> y == x || y in p
  {
    if p != [] && keys[p[|p| - 1]] < keys[x] {
      InsertHas(keys, p[..|p| - 1], x, y);
      assert p == p[..|p| - 1] + [p[|p| - 1]];
    }
  }

  lemma {:induction false} OrderOfHas(keys: seq<real>, n: nat, x: nat)
    requires n <= |keys|
    ensures x in OrderOf(keys, n) <==> x < n
  {
    if n > 0 {
      OrderOfHas(keys, n - 1, x);
      InsertHas(keys, OrderOf(keys, n - 1), n - 1, x);
    }
  }

  /** What sorting computes is the stable descending order ... */
  lemma OrderIsOrder(keys: seq<real>)
    ensures IsOrder(keys, Order(keys))
  {
    hide Ascends;
    OrderOfAscends(keys, |keys|);
    forall x: nat | x < |keys|
      ensures x in Order(keys)
    {
      OrderOfHas(keys, |keys|, x);
    }
  }

  /** ... and there is only one. */
  lemma OrderIsUnique(keys: seq<real>, p: seq<nat>)
    requires IsOrder(keys, p)
    ensures p == Order(keys)
  {
    OrderIsOrder(keys);
    forall x
      ensures x in p <==> x in Order(keys)
    {
      OrderOfHas(keys, |keys|, x);
    }
    SameElementsSameOrder(keys, p, Order(keys));
  }

  lemma {:induction false} SameElementsSameOrder(keys: seq<real>, p: seq<nat>, q: seq<nat>)
    requires InRange(keys, p) && InRange(keys, q) && Ascends(keys, p) && Ascends(keys, q)
    requires |p| == |q| && forall x :: x in p <==> x in q
    ensures p == q
  {
    if p != [] {
      assert p[0] in q && q[0] in p;
      var i :| 0 <= i < |q| && q[i] == p[0];
      var j :| 0 <= j < |p| && p[j] == q[0];
      assert p[0] == q[0];
      forall x
        ensures x in p[1..] <==> x in q[1..]
      {
        TailElements(keys, p, x);
        TailElements(keys, q, x);
      }
      SameElementsSameOrder(keys, p[1..], q[1..]);
    }
  }

  lemma TailElements(keys: seq<real>, p: seq<nat>, x: nat)
    requires p != [] && InRange(keys, p) && Ascends(keys, p)
    ensures x in p[1..] <==> x in p && x != p[0]
  {
    if x in p && x != p[0] {
      var k :| 0 <= k < |p| && p[k] == x;
      assert p[1..][k - 1] == x;
    }
    if x in p[1..] {
      var k :| 0 <= k < |p| - 1 && p[1..][k] == x;
      assert Before(keys, p[0], p[k + 1]);
    }
  }

  /** A position left out of the first `k` comes after each of them. */
  lemma TopBeatsRest(keys: seq<real>, k: nat, i: nat, x: nat)
    requires i < k <= |keys| && x < |keys| && x !in Order(keys)[..k]
    ensures Before(keys, Order(keys)[i], x)
  {
    OrderIsOrder(keys);
    var p := Order(keys);
    assert x in p && p == p[..k] + p[k..];
    var j :| 0 <= j < |p| - k && p[k..][j] == x;
  }

  /** The positions that come before `x`. */
  function Ahead(keys: seq<real>, x: nat): set<nat>
    requires x < |keys|
  {
    set y | 0 <= y < |keys| && Before(keys, y, x)
  }

  function Elements(p: seq<nat>): (s: set<nat>)
    ensures forall y :: y in s <==> y in p
  {
    set i | 0 <= i < |p| :: p[i]
  }

  lemma {:induction false} DistinctElements(p: seq<nat>)
    requires forall i, j | 0 <= i < j < |p| :: p[i] != p[j]
    ensures |Elements(p)| == |p|
  {
    if p != [] {
      var init, last := p[..|p| - 1], p[|p| - 1];
      DistinctElements(init);
      assert p == init + [last];
      assert Elements(p) == Elements(init) + {last};
    }
  }

  /** A position stands behind as many others as come before it. */
  lemma PlaceInOrder(keys: seq<real>, x: nat)
    requires x < |keys|
    ensures |Ahead(keys, x)| < |keys| && Order(keys)[|Ahead(keys, x)|] == x
  {
    hide Order;
    OrderIsOrder(keys);
    var p := Order(keys);
    assert x in p;
    var k :| 0 <= k < |p| && p[k] == x;
    forall y
      ensures y in Ahead(keys, x) <==> y in p[..k]
    {
      if y in Ahead(keys, x) {
        assert y in p;
        var j :| 0 <= j < |p| && p[j] == y;
        assert j < k;
        assert p[..k][j] == y;
      }
    }
    assert Ahead(keys, x) == Elements(p[..k]);
    DistinctElements(p[..k]);
  }
}

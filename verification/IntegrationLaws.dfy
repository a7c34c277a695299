/** Which pairs must be among those picked for integration tests, and in which order they stand. */
module IntegrationLaws {
  import opened Prelude
  import opened IntegrationPairs

  // ---- Completeness ----

  /** A hub imports a hub. */
  predicate HubToHub(g: Imports, hubs: seq<string>, p: Pair) {
    p.0 in hubs && p.1 in hubs && p.0 in g && p.1 in g[p.0]
  }

  /** One of the ten strongest hubs has the other module among its first three imports. */
  predicate Lead(g: Imports, hubs: seq<string>, p: Pair) {
    && p.0 in hubs[..if |hubs| < 10 then |hubs| else 10] && p.0 in g
    && exists j | 0 <= j < 3 && j < |g[p.0]| :: g[p.0][j] == p.1
  }

  /** The pairs come in three stages, each of which is complete but for repeated keys. */
  lemma Stages(g: Imports, order: seq<string>, hubs: seq<string>) returns (m: nat, n: nat)
    requires Lists(g, order) && KnownTo(g, hubs)
    ensures var all := AllPairs(g, order, hubs);
            && DistinctKeys(all) && m <= n <= |all|
            && (forall i | 0 <= i < |all| :: i < m <==> Mutual(g, all[i].0, all[i].1))
            && (forall i | m <= i < |all| :: i < n <==> HubToHub(g, hubs, all[i]))
            && (forall i | n <= i < |all| :: Lead(g, hubs, all[i]))
            && (forall p | HubToHub(g, hubs, p) :: Listed(all[..n], Key(p)))
            && (forall p | Lead(g, hubs, p) :: Listed(all, Key(p)))
            && all[..m] == AddAll([], MutualPairs(g, order, |order|))
            && all[..n] == AddAll(all[..m], HubPairs(g, hubs, |hubs|))
            && all == AddAll(all[..n], LeadPairs(g, hubs, Min(|hubs|, 10)))
  {
    hide Key, Mutual, MutualPairs, HubPairs, LeadPairs, AddAll, Listed, HubToHub, Lead;
    var more, last := HubPairs(g, hubs, |hubs|), LeadPairs(g, hubs, Min(|hubs|, 10));
    var first := AddAll([], MutualPairs(g, order, |order|));
    var second := AddAll(first, more);
    var all := AllPairs(g, order, hubs);
    m := MutualFirst(g, order, hubs);
    AddAllKeeps([], MutualPairs(g, order, |order|));
    AddAllKeeps(first, more);
    AddAllKeeps(second, last);
    n := |second|;
    assert |all[..m]| == |first|;
    assert all[..n] == second;
    forall p
      ensures p in more <==> HubToHub(g, hubs, p)
    {
      HubStage(g, hubs, p);
    }
    forall p
      ensures p in last <==> Lead(g, hubs, p)
    {
      LeadStage(g, hubs, p);
    }
    forall i | m <= i < |all|
      ensures i < n <==> HubToHub(g, hubs, all[i])
    {
      if i < n {
        assert all[i] == second[i];
      }
    }
  }

  lemma HubStage(g: Imports, hubs: seq<string>, p: Pair)
    requires KnownTo(g, hubs)
    ensures p in HubPairs(g, hubs, |hubs|) <==> HubToHub(g, hubs, p)
  {
    hide HubPairs;
    HubPairsExactly(g, hubs, |hubs|, p);
    assert hubs[..|hubs|] == hubs;
  }

  lemma LeadStage(g: Imports, hubs: seq<string>, p: Pair)
    requires KnownTo(g, hubs)
    ensures p in LeadPairs(g, hubs, Min(|hubs|, 10)) <==> Lead(g, hubs, p)
  {
    hide LeadPairs;
    LeadPairsExactly(g, hubs, Min(|hubs|, 10), p);
    if Lead(g, hubs, p) {
      var j :| 0 <= j < 3 && j < |g[p.0]| && g[p.0][j] == p.1;
      assert g[p.0][..Min(|g[p.0]|, 3)][j] == p.1;
    }
  }

  /** An import of a hub by a hub, with names free of bars, is reported, or else all twenty slots are taken by mutual
      imports and imports among hubs. */
  lemma HubPairIsReported(g: Imports, order: seq<string>, hubs: seq<string>, a: string, b: string)
    requires Lists(g, order) && KnownTo(g, hubs)
    requires HubToHub(g, hubs, (a, b)) && '|' !in a && '|' !in b
    ensures var r := StrongestPairs(g, order, hubs);
            || Includes(r, (a, b))
            || (|r| == 20 && forall i | 0 <= i < 20 :: Mutual(g, r[i].0, r[i].1) || HubToHub(g, hubs, r[i]))
  {
    hide Key, Mutual, HubToHub, AllPairs, SamePair;
    var m, n := Stages(g, order, hubs);
    var all, r := AllPairs(g, order, hubs), StrongestPairs(g, order, hubs);
    var i :| 0 <= i < n && Key(all[..n][i]) == Key((a, b));
    SameKeySamePair((a, b), all[i]);
    if i < 20 {
      assert r[i] == all[i] && r[i] in r;
    }
  }

  /** Each of the first three imports of the ten strongest hubs, with names free of bars, is reported, or else all twenty
      slots are taken. */
  lemma LeadIsReported(g: Imports, order: seq<string>, hubs: seq<string>, a: string, b: string)
    requires Lists(g, order) && KnownTo(g, hubs)
    requires Lead(g, hubs, (a, b)) && '|' !in a && '|' !in b
    ensures var r := StrongestPairs(g, order, hubs); Includes(r, (a, b)) || |r| == 20
  {
    hide Key, Mutual, HubToHub, Lead, AllPairs, SamePair;
    var m, n := Stages(g, order, hubs);
    var all, r := AllPairs(g, order, hubs), StrongestPairs(g, order, hubs);
    var i :| 0 <= i < |all| && Key(all[i]) == Key((a, b));
    SameKeySamePair((a, b), all[i]);
    if i < 20 {
      assert r[i] == all[i] && r[i] in r;
    }
  }

  /** Mutual imports come first, then imports among hubs, then the first imports of strong hubs. */
  lemma StagesInOrder(g: Imports, order: seq<string>, hubs: seq<string>, i: nat, j: nat)
    requires Lists(g, order) && KnownTo(g, hubs)
    requires i < j < |StrongestPairs(g, order, hubs)|
    ensures var r := StrongestPairs(g, order, hubs);
            && (Mutual(g, r[j].0, r[j].1) ==> Mutual(g, r[i].0, r[i].1))
            && (HubToHub(g, hubs, r[j]) ==> Mutual(g, r[i].0, r[i].1) || HubToHub(g, hubs, r[i]))
            && (Mutual(g, r[j].0, r[j].1) || HubToHub(g, hubs, r[j]) || Lead(g, hubs, r[j]))
  {
    hide Mutual, HubToHub, Lead, AllPairs;
    var m, n := Stages(g, order, hubs);
  }

  // ---- The order within a stage ----

  /** The first place of `x`. */
  function At(names: seq<string>, x: string): (i: nat)
    requires x in names
    ensures i < |names| && names[i] == x && forall j | 0 <= j < i :: names[j] != x
  {
    if names[0] == x then 0 else 1 + At(names[1..], x)
  }

  predicate Placed(g: Imports, names: seq<string>, p: Pair) {
    p.0 in names && p.0 in g && p.1 in g[p.0]
  }

  /** The module of `p` comes before that of `q` among `names`, or it is the same and imports `p.1` first. */
  predicate Sooner(g: Imports, names: seq<string>, p: Pair, q: Pair)
    requires Placed(g, names, p) && Placed(g, names, q)
  {
    At(names, p.0) < At(names, q.0) || (p.0 == q.0 && At(g[p.0], p.1) <= At(g[p.0], q.1))
  }

  /** In order, but for pairs that repeat an earlier one. */
  predicate Sorted(g: Imports, names: seq<string>, ps: seq<Pair>) {
    && (forall i | 0 <= i < |ps| :: Placed(g, names, ps[i]))
    && forall i, j | 0 <= i < j < |ps| :: Sooner(g, names, ps[i], ps[j]) || ps[j] in ps[..i]
  }

  lemma SortedRepeat(g: Imports, names: seq<string>, ps: seq<Pair>, p: Pair)
    requires Sorted(g, names, ps) && p in ps
    ensures Sorted(g, names, ps + [p])
  {
    var f := First(ps, p);
    var more := ps + [p];
    forall i, j | 0 <= i < j < |more|
      ensures Sooner(g, names, more[i], more[j]) || more[j] in more[..i]
    {
      assert more[..i] == ps[..i];
      if j == |ps| {
        if i > f {
          assert more[..i][f] == p;
        } else {
          assert i < f ==> Sooner(g, names, ps[i], ps[f]) || ps[f] in ps[..i];
        }
      }
    }
  }

  lemma First(ps: seq<Pair>, p: Pair) returns (f: nat)
    requires p in ps
    ensures f < |ps| && ps[f] == p && p !in ps[..f]
  {
    if ps[0] == p {
      f := 0;
    } else {
      f := First(ps[1..], p);
      f := f + 1;
      assert ps[..f] == [ps[0]] + ps[1..][..f - 1];
    }
  }

  lemma SortedAppended(g: Imports, names: seq<string>, ps: seq<Pair>, block: seq<Pair>)
    requires Sorted(g, names, ps) && Sorted(g, names, block)
    requires forall p, q | p in ps && q in block :: Sooner(g, names, p, q)
    ensures Sorted(g, names, ps + block)
  {
    hide Sooner, Placed;
    var n, more := |ps|, ps + block;
    forall i, j | 0 <= i < j < |more|
      ensures Sooner(g, names, more[i], more[j]) || more[j] in more[..i]
    {
      if j < n {
        assert more[..i] == ps[..i];
      } else if i < n {
        assert more[i] in ps && more[j] in block;
      } else {
        assert more[..i] == ps + block[..i - n];
      }
    }
  }

  /** One more import of the module `a`. */
  lemma ImportAppended(g: Imports, names: seq<string>, ps: seq<Pair>, a: string, n: nat)
    requires a in g && a in names && n < |g[a]| && Sorted(g, names, ps)
    requires forall p | p in ps :: p.0 == a && p.1 in g[a][..n]
    requires g[a][n] in g[a][..n] ==> (a, g[a][n]) in ps
    ensures Sorted(g, names, ps + [(a, g[a][n])])
  {
    var p := (a, g[a][n]);
    if p in ps {
      SortedRepeat(g, names, ps, p);
    } else {
      assert forall j | 0 <= j < n :: g[a][..n][j] == g[a][j];
      forall q | q in ps
        ensures Sooner(g, names, q, p)
      {
        var j :| 0 <= j < n && g[a][..n][j] == q.1;
        assert At(g[a], q.1) <= j;
      }
      SortedAppended(g, names, ps, [p]);
    }
  }

  lemma {:induction false} MutualOfSorted(g: Imports, names: seq<string>, a: string, n: nat)
    requires a in g && a in names && n <= |g[a]|
    ensures Sorted(g, names, MutualOf(g, a, n))
  {
    hide Sorted, Mutual;
    if n == 0 {
      NoneSorted(g, names);
    } else {
      var ps, p := MutualOf(g, a, n - 1), (a, g[a][n - 1]);
      MutualOfSorted(g, names, a, n - 1);
      forall q
        ensures q in ps <==> q.0 == a && Mutual(g, a, q.1) && q.1 in g[a][..n - 1]
      {
        MutualOfExactly(g, a, n - 1, q);
      }
      if Mutual(g, a, g[a][n - 1]) {
        ImportAppended(g, names, ps, a, n - 1);
      }
      assert ps + [] == ps;
    }
  }

  lemma NoneSorted(g: Imports, names: seq<string>)
    ensures Sorted(g, names, [])
  {
  }

  lemma {:induction false} HubsOfSorted(g: Imports, names: seq<string>, hubs: seq<string>, h: string, n: nat)
    requires h in g && h in names && n <= |g[h]|
    ensures Sorted(g, names, HubsOf(g, hubs, h, n))
  {
    hide Sorted;
    if n == 0 {
      NoneSorted(g, names);
    } else {
      var ps, p := HubsOf(g, hubs, h, n - 1), (h, g[h][n - 1]);
      HubsOfSorted(g, names, hubs, h, n - 1);
      forall q
        ensures q in ps <==> q.0 == h && q.1 in g[h][..n - 1] && q.1 in hubs
      {
        HubsOfExactly(g, hubs, h, n - 1, q);
      }
      if g[h][n - 1] in hubs {
        ImportAppended(g, names, ps, h, n - 1);
      }
      assert ps + [] == ps;
    }
  }

  lemma {:induction false} LeadsSorted(g: Imports, names: seq<string>, h: string, n: nat)
    requires h in g && h in names && n <= |g[h]|
    ensures Sorted(g, names, Leads(g, h, n))
  {
    hide Sorted;
    if n == 0 {
      NoneSorted(g, names);
    } else {
      var ps := Leads(g, h, n - 1);
      LeadsSorted(g, names, h, n - 1);
      forall q
        ensures q in ps <==> q.0 == h && q.1 in g[h][..n - 1]
      {
        LeadsExactly(g, h, n - 1, q);
      }
      ImportAppended(g, names, ps, h, n - 1);
    }
  }

  predicate Distinct(names: seq<string>) {
    forall i, j | 0 <= i < j < |names| :: names[i] != names[j]
  }

  /** One more module. */
  lemma ModuleAppended(g: Imports, names: seq<string>, ps: seq<Pair>, block: seq<Pair>, n: nat)
    requires n < |names| && Distinct(names) && Sorted(g, names, ps) && Sorted(g, names, block)
    requires (forall p | p in ps :: p.0 in names[..n]) && (forall q | q in block :: q.0 == names[n])
    ensures Sorted(g, names, ps + block)
  {
    forall p, q | p in ps && q in block
      ensures Sooner(g, names, p, q)
    {
      var j :| 0 <= j < n && names[..n][j] == p.0;
      assert At(names, p.0) <= j;
    }
    SortedAppended(g, names, ps, block);
  }

  lemma {:induction false} MutualPairsSorted(g: Imports, order: seq<string>, n: nat)
    requires n <= |order| && KnownTo(g, order) && Distinct(order)
    ensures Sorted(g, order, MutualPairs(g, order, n))
  {
    hide Sorted, MutualOf, Mutual, Distinct;
    if n == 0 {
      NoneSorted(g, order);
    } else {
      var a := order[n - 1];
      MutualPairsSorted(g, order, n - 1);
      MutualOfSorted(g, order, a, |g[a]|);
      forall p
        ensures p in MutualPairs(g, order, n - 1) ==> p.0 in order[..n - 1]
        ensures p in MutualOf(g, a, |g[a]|) ==> p.0 == a
      {
        MutualPairsExactly(g, order, n - 1, p);
        MutualOfExactly(g, a, |g[a]|, p);
      }
      ModuleAppended(g, order, MutualPairs(g, order, n - 1), MutualOf(g, a, |g[a]|), n - 1);
    }
  }

  lemma {:induction false} HubPairsSorted(g: Imports, hubs: seq<string>, n: nat)
    requires n <= |hubs| && KnownTo(g, hubs) && Distinct(hubs)
    ensures Sorted(g, hubs, HubPairs(g, hubs, n))
  {
    hide Sorted, HubsOf, Distinct;
    if n == 0 {
      NoneSorted(g, hubs);
    } else {
      var h := hubs[n - 1];
      HubPairsSorted(g, hubs, n - 1);
      HubsOfSorted(g, hubs, hubs, h, |g[h]|);
      forall p
        ensures p in HubPairs(g, hubs, n - 1) ==> p.0 in hubs[..n - 1]
        ensures p in HubsOf(g, hubs, h, |g[h]|) ==> p.0 == h
      {
        HubPairsExactly(g, hubs, n - 1, p);
        HubsOfExactly(g, hubs, h, |g[h]|, p);
      }
      ModuleAppended(g, hubs, HubPairs(g, hubs, n - 1), HubsOf(g, hubs, h, |g[h]|), n - 1);
    }
  }

  lemma {:induction false} LeadPairsSorted(g: Imports, hubs: seq<string>, n: nat)
    requires n <= |hubs| && KnownTo(g, hubs) && Distinct(hubs)
    ensures Sorted(g, hubs, LeadPairs(g, hubs, n))
  {
    hide Sorted, Leads, Distinct;
    if n == 0 {
      NoneSorted(g, hubs);
    } else {
      var h := hubs[n - 1];
      var k := Min(|g[h]|, 3);
      LeadPairsSorted(g, hubs, n - 1);
      LeadsSorted(g, hubs, h, k);
      forall p
        ensures p in LeadPairs(g, hubs, n - 1) ==> p.0 in hubs[..n - 1]
        ensures p in Leads(g, h, k) ==> p.0 == h
      {
        LeadPairsExactly(g, hubs, n - 1, p);
        LeadsExactly(g, h, k, p);
      }
      ModuleAppended(g, hubs, LeadPairs(g, hubs, n - 1), Leads(g, h, k), n - 1);
    }
  }

  predicate Before(g: Imports, names: seq<string>, p: Pair, q: Pair) {
    Placed(g, names, p) && Placed(g, names, q) && Sooner(g, names, p, q)
  }

  lemma SortedAt(g: Imports, names: seq<string>, ps: seq<Pair>, p: Pair)
    requires ps != [] && Sorted(g, names, ps) && p in ps
    ensures var init, last := ps[..|ps| - 1], ps[|ps| - 1];
            Sorted(g, names, init) && (Before(g, names, p, last) || last in init)
  {
    var n := |ps| - 1;
    var init := ps[..n];
    assert forall i | 0 <= i < n :: init[..i] == ps[..i];
    var k :| 0 <= k < |ps| && ps[k] == p;
    if k < n && ps[n] in ps[..k] {
      var j :| 0 <= j < k && ps[..k][j] == ps[n];
      assert init[j] == ps[n];
    }
  }

  /** What `AddAll` adds is in order, and of the pairs with one key it adds the first. */
  lemma {:induction false} AddedInOrder(g: Imports, names: seq<string>, ps: seq<Pair>, more: seq<Pair>)
    requires DistinctKeys(ps) && Sorted(g, names, more)
    ensures var r := AddAll(ps, more);
            && |ps| <= |r| && (forall i, j | |ps| <= i < j < |r| :: Before(g, names, r[i], r[j]))
            && (forall i, q | |ps| <= i < |r| && q in more && Key(q) == Key(r[i]) :: Before(g, names, r[i], q))
  {
    hide Key, Sorted, Before;
    AddAllKeeps(ps, more);
    if more != [] {
      var init, p := more[..|more| - 1], more[|more| - 1];
      assert more == init + [p];
      SortedAt(g, names, more, p);
      AddedInOrder(g, names, ps, init);
      AddAllKeeps(ps, init);
      var before, r := AddAll(ps, init), AddAll(ps, more);
      assert forall i | 0 <= i < |before| :: r[i] == before[i];
      forall q | q in init
        ensures Before(g, names, q, p) || p in init
      {
        assert q in more;
        SortedAt(g, names, more, q);
      }
      SelfBefore(g, names, more, p);
    }
  }

  lemma SelfBefore(g: Imports, names: seq<string>, ps: seq<Pair>, p: Pair)
    requires Sorted(g, names, ps) && p in ps
    ensures Before(g, names, p, p)
  {
  }

  /** Within each stage the pairs stand in the order of their first modules, in the walk or by rank, and pairs of one
      module in the order of its imports; and a mutual import is reported from the module that the walk met first. */
  lemma StageInOrder(g: Imports, order: seq<string>, hubs: seq<string>, i: nat, j: nat)
    requires Lists(g, order) && KnownTo(g, hubs) && Distinct(order) && Distinct(hubs)
    requires i < j < |StrongestPairs(g, order, hubs)|
    ensures var r := StrongestPairs(g, order, hubs);
            var both, hub := Mutual(g, r[i].0, r[i].1), HubToHub(g, hubs, r[i]);
            && (Mutual(g, r[j].0, r[j].1) ==> Before(g, order, r[i], r[j]))
            && (!both && HubToHub(g, hubs, r[j]) ==> Before(g, hubs, r[i], r[j]))
            && (!both && !hub ==> Before(g, hubs, r[i], r[j]))
  {
    hide Mutual, HubToHub, Lead, AllPairs, Before, Distinct, AddAll, Key, Listed;
    var m, n := Stages(g, order, hubs);
    var all := AllPairs(g, order, hubs);
    MutualPairsSorted(g, order, |order|);
    HubPairsSorted(g, hubs, |hubs|);
    LeadPairsSorted(g, hubs, Min(|hubs|, 10));
    AddedInOrder(g, order, [], MutualPairs(g, order, |order|));
    AddedInOrder(g, hubs, all[..m], HubPairs(g, hubs, |hubs|));
    AddedInOrder(g, hubs, all[..n], LeadPairs(g, hubs, Min(|hubs|, 10)));
    if j < m {
      assert Before(g, order, all[..m][i], all[..m][j]);
    } else if m <= i && j < n {
      assert Before(g, hubs, all[..n][i], all[..n][j]);
    }
  }

  lemma MutualFacesForward(g: Imports, order: seq<string>, hubs: seq<string>, p: Pair)
    requires Lists(g, order) && KnownTo(g, hubs) && Distinct(order)
    requires p in StrongestPairs(g, order, hubs) && Mutual(g, p.0, p.1)
    ensures p.0 in order && p.1 in order && At(order, p.0) <= At(order, p.1)
  {
    hide Mutual, HubToHub, Lead, AllPairs, Distinct, AddAll, Key, Listed, Sorted;
    var m, n := Stages(g, order, hubs);
    var all, q := AllPairs(g, order, hubs), (p.1, p.0);
    var i :| 0 <= i < |StrongestPairs(g, order, hubs)| && StrongestPairs(g, order, hubs)[i] == p;
    assert all[..m][i] == p;
    MutualPairsSorted(g, order, |order|);
    AddedInOrder(g, order, [], MutualPairs(g, order, |order|));
    MutualIsMutual(g, order, p);
    MutualPairsExactly(g, order, |order|, q);
    assert order[..|order|] == order;
    SamePairSameKey(q, p);
  }

  lemma MutualIsMutual(g: Imports, order: seq<string>, p: Pair)
    requires Lists(g, order) && Mutual(g, p.0, p.1)
    ensures Mutual(g, p.1, p.0) && p.0 in order && p.1 in order
  {
  }
}

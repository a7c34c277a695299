/** Which pairs of modules are picked for integration tests. */
module IntegrationPairs {
  import opened Prelude

  type Pair = (string, string)

  // ---- Unordered pairs and their keys ----

  /** The order in which strings are sorted: by their first different character, a prefix first. */
  predicate AtMost(a: string, b: string) {
    a == "" || (b != "" && (a[0] < b[0] || (a[0] == b[0] && AtMost(a[1..], b[1..]))))
  }

  lemma {:induction false} AtMostIsTotal(a: string, b: string)
    ensures AtMost(a, b) || AtMost(b, a)
    ensures AtMost(a, b) && AtMost(b, a) ==> a == b
  {
    if a != "" && b != "" {
      AtMostIsTotal(a[1..], b[1..]);
      assert a == [a[0]] + a[1..] && b == [b[0]] + b[1..];
    }
  }

  /** The two names, sorted and joined. */
  function Key(p: Pair): string {
    if AtMost(p.0, p.1) then p.0 + "|" + p.1 else p.1 + "|" + p.0
  }

  predicate SamePair(p: Pair, q: Pair) {
    p == q || p == (q.1, q.0)
  }

  lemma SamePairSameKey(p: Pair, q: Pair)
    requires SamePair(p, q)
    ensures Key(p) == Key(q)
  {
    AtMostIsTotal(p.0, p.1);
  }

  /** A key determines its pair when the names of the pair hold no bar. */
  lemma SameKeySamePair(p: Pair, q: Pair)
    requires Key(p) == Key(q) && '|' !in p.0 && '|' !in p.1
    ensures SamePair(p, q)
  {
    var (a, b) := if AtMost(p.0, p.1) then (p.0, p.1) else (p.1, p.0);
    var (c, d) := if AtMost(q.0, q.1) then (q.0, q.1) else (q.1, q.0);
    var k := Key(p);
    assert k == a + "|" + b == c + "|" + d;
    assert k[|c|] == '|';
    assert forall i | 0 <= i < |a| :: k[i] == a[i];
    assert forall i | 0 <= i < |b| :: k[|a| + 1 + i] == b[i];
    assert |c| == |a|;
    assert k[..|a|] == a && k[..|c|] == c && k[|a| + 1..] == b && k[|c| + 1..] == d;
  }

  // ---- Keeping the first pair of each key ----

  predicate Listed(ps: seq<Pair>, key: string) {
    exists i | 0 <= i < |ps| :: Key(ps[i]) == key
  }

  function Add(ps: seq<Pair>, p: Pair): seq<Pair> {
    if Listed(ps, Key(p)) then ps else ps + [p]
  }

  function AddAll(ps: seq<Pair>, more: seq<Pair>): (r: seq<Pair>) {
    if more == [] then ps else Add(AddAll(ps, more[..|more| - 1]), more[|more| - 1])
  }

  lemma {:induction false} AddAllAppended(ps: seq<Pair>, a: seq<Pair>, b: seq<Pair>)
    ensures AddAll(ps, a + b) == AddAll(AddAll(ps, a), b)
  {
    hide Add;
    if b == [] {
      assert a + b == a;
    } else {
      AddAllAppended(ps, a, b[..|b| - 1]);
      assert (a + b)[..|a + b| - 1] == a + b[..|b| - 1];
    }
  }

  predicate DistinctKeys(ps: seq<Pair>) {
    forall i, j | 0 <= i < j < |ps| :: Key(ps[i]) != Key(ps[j])
  }

  /** What `AddAll` keeps: everything it had, then new pairs from `more`, one of each key. */
  lemma {:induction false} AddAllKeeps(ps: seq<Pair>, more: seq<Pair>)
    requires DistinctKeys(ps)
    ensures var r := AddAll(ps, more);
            && ps <= r && DistinctKeys(r)
            && (forall i | |ps| <= i < |r| :: r[i] in more && !Listed(ps, Key(r[i])))
            && (forall p | p in more :: Listed(r, Key(p)))
  {
    hide Key;
    if more != [] {
      var init, p := more[..|more| - 1], more[|more| - 1];
      AddAllKeeps(ps, init);
      var before, r := AddAll(ps, init), AddAll(ps, more);
      assert more == init + [p];
      assert before <= r;
      assert forall i | 0 <= i < |before| :: r[i] == before[i];
      assert forall i | 0 <= i < |ps| :: before[i] == ps[i];
      if !Listed(before, Key(p)) {
        assert r[|before|] == p;
      }
    }
  }

  // ---- The candidates, in the order in which they are considered ----

  type Imports = map<string, seq<string>>

  predicate KnownTo(g: Imports, fs: seq<string>) {
    forall i | 0 <= i < |fs| :: fs[i] in g
  }

  /** `order` lists the known files. */
  predicate Lists(g: Imports, order: seq<string>) {
    KnownTo(g, order) && forall f | f in g :: f in order
  }

  predicate Mutual(g: Imports, a: string, b: string) {
    a in g && b in g && b in g[a] && a in g[b]
  }

  /** The mutual imports among the first `n` imports of `a`. */
  function MutualOf(g: Imports, a: string, n: nat): seq<Pair>
    requires a in g && n <= |g[a]|
  {
    if n == 0 then [] else
      MutualOf(g, a, n - 1) + if Mutual(g, a, g[a][n - 1]) then [(a, g[a][n - 1])] else []
  }

  /** The mutual imports of the first `n` modules. */
  function MutualPairs(g: Imports, order: seq<string>, n: nat): seq<Pair>
    requires n <= |order| && KnownTo(g, order)
  {
    if n == 0 then [] else MutualPairs(g, order, n - 1) + MutualOf(g, order[n - 1], |g[order[n - 1]]|)
  }

  /** The hubs among the first `n` imports of the hub `h`. */
  function HubsOf(g: Imports, hubs: seq<string>, h: string, n: nat): seq<Pair>
    requires h in g && n <= |g[h]|
  {
    if n == 0 then [] else HubsOf(g, hubs, h, n - 1) + if g[h][n - 1] in hubs then [(h, g[h][n - 1])] else []
  }

  function HubPairs(g: Imports, hubs: seq<string>, n: nat): seq<Pair>
    requires n <= |hubs| && KnownTo(g, hubs)
  {
    if n == 0 then [] else HubPairs(g, hubs, n - 1) + HubsOf(g, hubs, hubs[n - 1], |g[hubs[n - 1]]|)
  }

  /** The first `n` imports of `h`. */
  function Leads(g: Imports, h: string, n: nat): seq<Pair>
    requires h in g && n <= |g[h]|
  {
    if n == 0 then [] else Leads(g, h, n - 1) + [(h, g[h][n - 1])]
  }

  /** The first three imports of each of the first `n` hubs. */
  function LeadPairs(g: Imports, hubs: seq<string>, n: nat): seq<Pair>
    requires n <= |hubs| && KnownTo(g, hubs)
  {
    if n == 0 then [] else LeadPairs(g, hubs, n - 1) + Leads(g, hubs[n - 1], Min(|g[hubs[n - 1]]|, 3))
  }

  function AllPairs(g: Imports, order: seq<string>, hubs: seq<string>): seq<Pair>
    requires KnownTo(g, order) && KnownTo(g, hubs)
  {
    AddAll(AddAll(AddAll([], MutualPairs(g, order, |order|)), HubPairs(g, hubs, |hubs|)),
           LeadPairs(g, hubs, Min(|hubs|, 10)))
  }

  /** The pairs that are reported. */
  function StrongestPairs(g: Imports, order: seq<string>, hubs: seq<string>): (r: seq<Pair>)
    requires KnownTo(g, order) && KnownTo(g, hubs)
    ensures |r| <= 20
  {
    var all := AllPairs(g, order, hubs);
    all[..Min(|all|, 20)]
  }

  // ---- What is promised of them ----

  lemma {:induction false} MutualOfExactly(g: Imports, a: string, n: nat, p: Pair)
    requires a in g && n <= |g[a]|
    ensures p in MutualOf(g, a, n) <==> p.0 == a && Mutual(g, a, p.1) && p.1 in g[a][..n]
  {
    hide Mutual;
    if n > 0 {
      MutualOfExactly(g, a, n - 1, p);
      assert g[a][..n] == g[a][..n - 1] + [g[a][n - 1]];
    }
  }

  lemma {:induction false} MutualPairsExactly(g: Imports, order: seq<string>, n: nat, p: Pair)
    requires n <= |order| && KnownTo(g, order)
    ensures p in MutualPairs(g, order, n) <==> p.0 in order[..n] && Mutual(g, p.0, p.1)
  {
    hide MutualOf;
    if n > 0 {
      MutualPairsExactly(g, order, n - 1, p);
      MutualOfExactly(g, order[n - 1], |g[order[n - 1]]|, p);
      assert order[..n] == order[..n - 1] + [order[n - 1]];
    }
  }

  lemma {:induction false} HubsOfExactly(g: Imports, hubs: seq<string>, h: string, n: nat, p: Pair)
    requires h in g && n <= |g[h]|
    ensures p in HubsOf(g, hubs, h, n) <==> p.0 == h && p.1 in g[h][..n] && p.1 in hubs
  {
    if n > 0 {
      HubsOfExactly(g, hubs, h, n - 1, p);
      assert g[h][..n] == g[h][..n - 1] + [g[h][n - 1]];
    }
  }

  lemma {:induction false} HubPairsExactly(g: Imports, hubs: seq<string>, n: nat, p: Pair)
    requires n <= |hubs| && KnownTo(g, hubs)
    ensures p in HubPairs(g, hubs, n) <==> p.0 in hubs[..n] && p.0 in g && p.1 in g[p.0] && p.1 in hubs
  {
    hide HubsOf;
    if n > 0 {
      HubPairsExactly(g, hubs, n - 1, p);
      HubsOfExactly(g, hubs, hubs[n - 1], |g[hubs[n - 1]]|, p);
      assert hubs[..n] == hubs[..n - 1] + [hubs[n - 1]];
    }
  }

  lemma {:induction false} LeadsExactly(g: Imports, h: string, n: nat, p: Pair)
    requires h in g && n <= |g[h]|
    ensures p in Leads(g, h, n) <==> p.0 == h && p.1 in g[h][..n]
  {
    if n > 0 {
      LeadsExactly(g, h, n - 1, p);
      assert g[h][..n] == g[h][..n - 1] + [g[h][n - 1]];
    }
  }

  lemma {:induction false} LeadPairsExactly(g: Imports, hubs: seq<string>, n: nat, p: Pair)
    requires n <= |hubs| && KnownTo(g, hubs)
    ensures (p in LeadPairs(g, hubs, n)
             <==> p.0 in hubs[..n] && p.0 in g && p.1 in g[p.0][..Min(|g[p.0]|, 3)])
  {
    hide Leads;
    if n > 0 {
      LeadPairsExactly(g, hubs, n - 1, p);
      LeadsExactly(g, hubs[n - 1], Min(|g[hubs[n - 1]]|, 3), p);
      assert hubs[..n] == hubs[..n - 1] + [hubs[n - 1]];
    }
  }

  predicate Includes(ps: seq<Pair>, p: Pair) {
    exists q | q in ps :: SamePair(p, q)
  }

  lemma MutualFirst(g: Imports, order: seq<string>, hubs: seq<string>) returns (m: nat)
    requires Lists(g, order) && KnownTo(g, hubs)
    ensures var all := AllPairs(g, order, hubs);
            && DistinctKeys(all) && m <= |all| && all[..m] == AddAll([], MutualPairs(g, order, |order|))
            && (forall i | 0 <= i < |all| :: i < m <==> Mutual(g, all[i].0, all[i].1))
            && (forall a, b | Mutual(g, a, b) :: Listed(all[..m], Key((a, b))))
  {
    hide Key, Mutual, MutualPairs, HubPairs, LeadPairs, AddAll, Listed;
    var ps := MutualPairs(g, order, |order|);
    var first := AddAll([], ps);
    var second := AddAll(first, HubPairs(g, hubs, |hubs|));
    var all := AllPairs(g, order, hubs);
    m := |first|;
    AddAllKeeps([], ps);
    AddAllKeeps(first, HubPairs(g, hubs, |hubs|));
    AddAllKeeps(second, LeadPairs(g, hubs, Min(|hubs|, 10)));
    assert all[..m] == first;
    forall a, b | Mutual(g, a, b)
      ensures Listed(first, Key((a, b)))
    {
      MutualIsKnown(g, a, b);
      MutualPairsExactly(g, order, |order|, (a, b));
      assert order[..|order|] == order;
    }
    forall i | 0 <= i < |all|
      ensures i < m <==> Mutual(g, all[i].0, all[i].1)
    {
      var p := all[i];
      assert p == (p.0, p.1);
      MutualPairsExactly(g, order, |order|, p);
      if i < m {
        assert p == first[i] && first[i] in ps;
      } else if i < |second| {
        assert p == second[i];
      } else if Listed(first, Key(p)) {
        ListedLonger(first, second, Key(p));
      }
    }
  }

  lemma MutualIsKnown(g: Imports, a: string, b: string)
    requires Mutual(g, a, b)
    ensures a in g && b in g
  {
  }

  lemma ListedLonger(ps: seq<Pair>, more: seq<Pair>, key: string)
    requires ps <= more && Listed(ps, key)
    ensures Listed(more, key)
  {
    var i :| 0 <= i < |ps| && Key(ps[i]) == key;
    assert more[i] == ps[i];
  }

  /** No pair is reported twice, in either orientation. */
  lemma NoPairTwice(g: Imports, order: seq<string>, hubs: seq<string>, i: nat, j: nat)
    requires Lists(g, order) && KnownTo(g, hubs)
    requires i < j < |StrongestPairs(g, order, hubs)|
    ensures var r := StrongestPairs(g, order, hubs);
            !SamePair(r[i], r[j])
  {
    hide Key, AllPairs;
    var m := MutualFirst(g, order, hubs);
    var r := StrongestPairs(g, order, hubs);
    if SamePair(r[i], r[j]) {
      SamePairSameKey(r[i], r[j]);
    }
  }

  /** Every reported mutual import comes before every pair that was only derived from a hub. */
  lemma MutualBeforeDerived(g: Imports, order: seq<string>, hubs: seq<string>, i: nat, j: nat)
    requires Lists(g, order) && KnownTo(g, hubs)
    requires i < j < |StrongestPairs(g, order, hubs)|
    ensures var r := StrongestPairs(g, order, hubs);
            Mutual(g, r[j].0, r[j].1) ==> Mutual(g, r[i].0, r[i].1)
  {
    hide Mutual, AllPairs;
    var m := MutualFirst(g, order, hubs);
  }

  /** Every reported pair is an import of its first module, and unless it is mutual that module is a hub: it imports
      another hub, or it is one of the ten strongest and imports the second module among its first three. */
  lemma EveryPairHasAReason(g: Imports, order: seq<string>, hubs: seq<string>, p: Pair)
    requires KnownTo(g, order) && KnownTo(g, hubs)
    requires p in StrongestPairs(g, order, hubs)
    ensures || Mutual(g, p.0, p.1)
            || (p.0 in hubs && p.0 in g && p.1 in g[p.0] && p.1 in hubs)
            || (p.0 in hubs[..Min(|hubs|, 10)] && p.0 in g && p.1 in g[p.0][..Min(|g[p.0]|, 3)])
  {
    hide Key, Mutual, MutualPairs, HubPairs, LeadPairs, AddAll, Listed;
    var ps := MutualPairs(g, order, |order|);
    var first := AddAll([], ps);
    var second := AddAll(first, HubPairs(g, hubs, |hubs|));
    AddAllKeeps([], ps);
    AddAllKeeps(first, HubPairs(g, hubs, |hubs|));
    AddAllKeeps(second, LeadPairs(g, hubs, Min(|hubs|, 10)));
    var all := AllPairs(g, order, hubs);
    var i :| 0 <= i < |all| && all[i] == p;
    MutualPairsExactly(g, order, |order|, p);
    HubPairsExactly(g, hubs, |hubs|, p);
    LeadPairsExactly(g, hubs, Min(|hubs|, 10), p);
    assert hubs[..|hubs|] == hubs;
    if i < |first| {
      assert p == first[i];
    } else if i < |second| {
      assert p == second[i];
    }
  }

  /** A mutual import whose names hold no bar is reported, or else all twenty slots are taken by mutual imports. */
  lemma MutualIsReported(g: Imports, order: seq<string>, hubs: seq<string>, a: string, b: string)
    requires Lists(g, order) && KnownTo(g, hubs)
    requires Mutual(g, a, b) && '|' !in a && '|' !in b
    ensures var r := StrongestPairs(g, order, hubs);
            Includes(r, (a, b)) || (|r| == 20 && forall i | 0 <= i < 20 :: Mutual(g, r[i].0, r[i].1))
  {
    hide Key, Mutual, AllPairs, SamePair;
    var m := MutualFirst(g, order, hubs);
    var all, r := AllPairs(g, order, hubs), StrongestPairs(g, order, hubs);
    var i :| 0 <= i < m && Key(all[..m][i]) == Key((a, b));
    SameKeySamePair((a, b), all[i]);
    if i < 20 {
      assert r[i] == all[i] && r[i] in r;
    }
  }

  /** No two different mutual imports share a key. */
  ghost predicate KeysTellMutualImportsApart(g: Imports) {
    forall a, b, c, d | Mutual(g, a, b) && Mutual(g, c, d) && Key((a, b)) == Key((c, d)) :: SamePair((a, b), (c, d))
  }

  /** For any names: while there is room, every mutual import is reported exactly when no two different ones share a
      key. */
  lemma ReportedExactly(g: Imports, order: seq<string>, hubs: seq<string>)
    requires Lists(g, order) && KnownTo(g, hubs) && |StrongestPairs(g, order, hubs)| < 20
    ensures var r := StrongestPairs(g, order, hubs);
            (forall a, b | Mutual(g, a, b) :: Includes(r, (a, b))) <==> KeysTellMutualImportsApart(g)
  {
    hide Key, Mutual, AllPairs, SamePair;
    var m := MutualFirst(g, order, hubs);
    var r := StrongestPairs(g, order, hubs);
    assert r == AllPairs(g, order, hubs);
    if forall a, b | Mutual(g, a, b) :: Includes(r, (a, b)) {
      forall a, b, c, d | Mutual(g, a, b) && Mutual(g, c, d) && Key((a, b)) == Key((c, d))
        ensures SamePair((a, b), (c, d))
      {
        BothReportedAreSame(r, (a, b), (c, d));
      }
    }
    if KeysTellMutualImportsApart(g) {
      forall a, b | Mutual(g, a, b)
        ensures Includes(r, (a, b))
      {
        var i :| 0 <= i < m && Key(r[..m][i]) == Key((a, b));
        assert r[i] == (r[i].0, r[i].1) && Mutual(g, r[i].0, r[i].1) && r[i] in r;
      }
    }
  }

  /** Of two pairs with one key only the first is kept. */
  lemma BothReportedAreSame(r: seq<Pair>, p: Pair, q: Pair)
    requires DistinctKeys(r) && Key(p) == Key(q) && Includes(r, p) && Includes(r, q)
    ensures SamePair(p, q)
  {
    hide Key;
    var i :| 0 <= i < |r| && SamePair(p, r[i]);
    var j :| 0 <= j < |r| && SamePair(q, r[j]);
    SamePairSameKey(p, r[i]);
    SamePairSameKey(q, r[j]);
    assert i == j;
  }

  /** With bars in file names two different mutual imports can share a key, and at most one of them is reported. */
  lemma BarLosesMutualImport(order: seq<string>)
    requires Lists(BARRED, order)
    ensures var p, q := ("x.ts", "y.ts|z.ts"), ("x.ts|y.ts", "z.ts");
            && Mutual(BARRED, p.0, p.1) && Mutual(BARRED, q.0, q.1)
            && !(Includes(StrongestPairs(BARRED, order, []), p) && Includes(StrongestPairs(BARRED, order, []), q))
  {
    hide AllPairs, Key, SamePair;
    var p, q := ("x.ts", "y.ts|z.ts"), ("x.ts|y.ts", "z.ts");
    var m := MutualFirst(BARRED, order, []);
    BarsCollide();
    if Includes(StrongestPairs(BARRED, order, []), p) && Includes(StrongestPairs(BARRED, order, []), q) {
      BothReportedAreSame(StrongestPairs(BARRED, order, []), p, q);
    }
  }

  const BARRED: Imports := map[
    "x.ts" := ["y.ts|z.ts"], "y.ts|z.ts" := ["x.ts"], "x.ts|y.ts" := ["z.ts"], "z.ts" := ["x.ts|y.ts"]
  ]

  lemma BarsCollide()
    ensures Key(("x.ts", "y.ts|z.ts")) == Key(("x.ts|y.ts", "z.ts"))
    ensures !SamePair(("x.ts", "y.ts|z.ts"), ("x.ts|y.ts", "z.ts"))
  {
    assert "x.ts"[0] < "y.ts|z.ts"[0] && "x.ts|y.ts"[0] < "z.ts"[0];
    assert "x.ts" + "|" + "y.ts|z.ts" == "x.ts|y.ts" + "|" + "z.ts";
    assert |"x.ts"| != |"x.ts|y.ts"| && "x.ts"[0] != "z.ts"[0];
  }
}

/** What the import graph promises: a transposed index without loss, and candidates that nobody outranks. */
module DependencyLaws {
  import opened StableOrder
  import opened DependencyGraph
  import opened DoubleProduct
  import IntegrationLaws

  // ---- The transposed index ----

  lemma OneMoreCounted(imports: seq<string>, m: nat, target: string)
    requires 0 < m <= |imports|
    ensures (multiset(imports[..m])[target]
             == multiset(imports[..m - 1])[target] + if imports[m - 1] == target then 1 else 0)
  {
    assert imports[..m] == imports[..m - 1] + [imports[m - 1]];
  }

  lemma {:induction false} HitsCount(imports: seq<string>, m: nat, target: string, importer: string, p: string)
    requires m <= |imports|
    ensures multiset(Hits(imports, m, target, importer))[p] == if p == importer then multiset(imports[..m])[target] else 0
  {
    if m > 0 {
      HitsCount(imports, m - 1, target, importer, p);
      OneMoreCounted(imports, m, target);
    } else {
      assert imports[..0] == [];
    }
  }

  lemma {:induction false} ImportersCount(ss: seq<Source>, n: nat, target: string, x: nat)
    requires DistinctPaths(ss) && n <= |ss| && x < |ss|
    ensures (multiset(Importers(ss, n, target))[ss[x].path]
             == if x < n then multiset(ImportsOf(ss[x]))[target] else 0)
  {
    hide Hits;
    if n > 0 {
      var imports := ImportsOf(ss[n - 1]);
      ImportersCount(ss, n - 1, target, x);
      HitsCount(imports, |imports|, target, ss[n - 1].path, ss[x].path);
      assert imports[..|imports|] == imports;
    }
  }

  /** A file is listed among the importers of `target` exactly as often as it imports it. */
  lemma TransposedExactly(ss: seq<Source>, target: string, x: nat)
    requires DistinctPaths(ss) && x < |ss|
    ensures multiset(Importers(ss, |ss|, target))[ss[x].path] == multiset(ImportsOf(ss[x]))[target]
  {
    ImportersCount(ss, |ss|, target, x);
  }

  /** Only files of the tree are listed as importers. */
  lemma {:induction false} ImportersAreKnown(ss: seq<Source>, n: nat, target: string, p: string)
    requires n <= |ss| && p in Importers(ss, n, target)
    ensures exists x | 0 <= x < n :: ss[x].path == p && target in ImportsOf(ss[x])
  {
    hide Hits;
    var imports := ImportsOf(ss[n - 1]);
    var hits := Hits(imports, |imports|, target, ss[n - 1].path);
    if p in hits {
      HitsCount(imports, |imports|, target, ss[n - 1].path, p);
      assert imports[..|imports|] == imports && p in multiset(hits);
      assert target in multiset(imports);
      assert ss[n - 1].path == p;
    } else {
      ImportersAreKnown(ss, n - 1, target, p);
    }
  }

  // ---- Conservation ----

  function FanInSum(ss: seq<Source>, n: nat, k: nat): nat
    requires n <= |ss| && k <= |ss|
  {
    if k == 0 then 0 else FanInSum(ss, n, k - 1) + |Importers(ss, n, ss[k - 1].path)|
  }

  function HitSum(ss: seq<Source>, imports: seq<string>, m: nat, k: nat): nat
    requires m <= |imports| && k <= |ss|
  {
    if k == 0 then 0 else HitSum(ss, imports, m, k - 1) + |Hits(imports, m, ss[k - 1].path, "")|
  }

  /** How many of the first `m` entries name a file of the tree. */
  function KnownAmong(ss: seq<Source>, imports: seq<string>, m: nat): nat
    requires m <= |imports|
  {
    if m == 0 then 0 else KnownAmong(ss, imports, m - 1) + if imports[m - 1] in Paths(ss) then 1 else 0
  }

  function KnownImports(ss: seq<Source>, n: nat): nat
    requires n <= |ss|
  {
    if n == 0 then 0 else KnownImports(ss, n - 1) + KnownAmong(ss, ImportsOf(ss[n - 1]), |ImportsOf(ss[n - 1])|)
  }

  lemma {:induction false} HitsLength(imports: seq<string>, m: nat, target: string, p: string, q: string)
    requires m <= |imports|
    ensures |Hits(imports, m, target, p)| == |Hits(imports, m, target, q)|
  {
    if m > 0 {
      HitsLength(imports, m - 1, target, p, q);
    }
  }

  /** One more entry adds one hit if it names one of the first `k` files. */
  lemma {:induction false} HitSumNext(ss: seq<Source>, imports: seq<string>, m: nat, k: nat)
    requires DistinctPaths(ss) && 0 < m <= |imports| && k <= |ss|
    ensures (HitSum(ss, imports, m, k)
             == HitSum(ss, imports, m - 1, k) + if imports[m - 1] in Paths(ss)[..k] then 1 else 0)
  {
    if k > 0 {
      HitSumNext(ss, imports, m, k - 1);
      var f, before := ss[k - 1].path, Paths(ss)[..k - 1];
      assert Paths(ss)[..k] == before + [f];
      assert forall x | 0 <= x < k - 1 :: before[x] == ss[x].path != f;
    }
  }

  lemma {:induction false} NoHitsAtAll(ss: seq<Source>, imports: seq<string>, k: nat)
    requires k <= |ss|
    ensures HitSum(ss, imports, 0, k) == 0
  {
    if k > 0 {
      NoHitsAtAll(ss, imports, k - 1);
    }
  }

  lemma {:induction false} HitSumIsKnown(ss: seq<Source>, imports: seq<string>, m: nat)
    requires DistinctPaths(ss) && m <= |imports|
    ensures HitSum(ss, imports, m, |ss|) == KnownAmong(ss, imports, m)
  {
    hide HitSum;
    if m == 0 {
      NoHitsAtAll(ss, imports, |ss|);
    } else {
      HitSumIsKnown(ss, imports, m - 1);
      HitSumNext(ss, imports, m, |ss|);
      assert Paths(ss)[..|ss|] == Paths(ss);
    }
  }

  lemma {:induction false} FanInSumNext(ss: seq<Source>, n: nat, k: nat)
    requires 0 < n <= |ss| && k <= |ss|
    ensures var imports := ImportsOf(ss[n - 1]);
            FanInSum(ss, n, k) == FanInSum(ss, n - 1, k) + HitSum(ss, imports, |imports|, k)
  {
    hide Hits;
    if k > 0 {
      FanInSumNext(ss, n, k - 1);
      var imports := ImportsOf(ss[n - 1]);
      HitsLength(imports, |imports|, ss[k - 1].path, ss[n - 1].path, "");
    }
  }

  lemma {:induction false} NoFanIn(ss: seq<Source>, k: nat)
    requires k <= |ss|
    ensures FanInSum(ss, 0, k) == 0
  {
    if k > 0 {
      NoFanIn(ss, k - 1);
    }
  }

  lemma {:induction false} FanInSumIsKnown(ss: seq<Source>, n: nat)
    requires DistinctPaths(ss) && n <= |ss|
    ensures FanInSum(ss, n, |ss|) == KnownImports(ss, n)
  {
    hide FanInSum, HitSum, KnownAmong;
    if n == 0 {
      NoFanIn(ss, |ss|);
    } else {
      FanInSumIsKnown(ss, n - 1);
      FanInSumNext(ss, n, |ss|);
      HitSumIsKnown(ss, ImportsOf(ss[n - 1]), |ImportsOf(ss[n - 1])|);
    }
  }

  /** The total fan-in is the number of import entries that name a file of the tree. */
  lemma TotalFanIn(ss: seq<Source>)
    requires DistinctPaths(ss)
    ensures FanInSum(ss, |ss|, |ss|) == KnownImports(ss, |ss|)
  {
    FanInSumIsKnown(ss, |ss|);
  }

  // ---- The candidates for end-to-end tests ----

  /** The number of slots is the one the code computes with doubles. */
  lemma SlotsAreTheDoubles(ss: seq<Source>)
    requires |ss| < 0x1_0000_0000
    ensures var c := CeilOfProduct(|ss|);
            E2ECount(|ss|) == if c > 1 then c else 1
  {
    hide CeilOfProduct;
    CeilIsExact(|ss|);
  }

  /** A file outside the candidates is not imported more often than one inside, whatever their number. */
  lemma NoOutsiderRanksHigher(ss: seq<Source>, f: string, e: string)
    requires f in Paths(ss) && f !in E2ECandidates(ss) && e in E2ECandidates(ss)
    ensures FanIn(ss, f) <= FanIn(ss, e)
  {
    hide FanIn, Order, Imported;
    var fs, c := Imported(ss, |ss|), E2ECandidates(ss);
    var keys := Keys(ss, fs);
    var p := Order(keys);
    var i :| 0 <= i < |c| && c[i] == e;
    if FanIn(ss, f) > 0 {
      var y :| 0 <= y < |ss| && Paths(ss)[y] == f;
      assert ss[y].path == f;
      ImportedExactly(ss, |ss|, f);
      var x :| 0 <= x < |fs| && fs[x] == f;
      assert forall k | 0 <= k < |c| :: c[k] == fs[p[k]];
      TopBeatsRest(keys, |c|, i, x);
    }
  }

  /** Candidates are imported at all, and a slot stays empty only when every imported file has one. */
  lemma SlotsAreFilled(ss: seq<Source>, f: string)
    ensures f in E2ECandidates(ss) ==> f in Paths(ss) && FanIn(ss, f) > 0
    ensures f in Paths(ss) && FanIn(ss, f) > 0 && f !in E2ECandidates(ss) ==> |E2ECandidates(ss)| == E2ECount(|ss|)
  {
    hide FanIn, Imported, Ranked, E2ECount;
    var r := Ranked(ss);
    RankedIsImported(ss, f);
    ImportedExactly(ss, |ss|, f);
    if f in E2ECandidates(ss) {
      assert f in r;
      var x :| 0 <= x < |ss| && ss[x].path == f;
      assert Paths(ss)[x] == f;
    }
    if f in Paths(ss) && FanIn(ss, f) > 0 && f !in E2ECandidates(ss) {
      var y :| 0 <= y < |ss| && Paths(ss)[y] == f;
      assert ss[y].path == f;
      assert r[..|r|] == r;
    }
  }

  // ---- Ranking ----

  /** The place of `f` in the walk; -1 for a file outside. */
  function Met(ss: seq<Source>, f: string): int {
    if f in Paths(ss) then IntegrationLaws.At(Paths(ss), f) else -1
  }

  /** `f` is imported more often than `e`, or as often and met earlier by the walk. */
  predicate Outranks(ss: seq<Source>, f: string, e: string) {
    0 <= Met(ss, f) && 0 <= Met(ss, e)
    && (FanIn(ss, f) > FanIn(ss, e) || (FanIn(ss, f) == FanIn(ss, e) && Met(ss, f) < Met(ss, e)))
  }

  lemma PathIsAt(ss: seq<Source>, x: nat)
    requires DistinctPaths(ss) && x < |ss|
    ensures ss[x].path in Paths(ss) && IntegrationLaws.At(Paths(ss), ss[x].path) == x
  {
    assert Paths(ss)[x] == ss[x].path;
    var y := IntegrationLaws.At(Paths(ss), ss[x].path);
    assert Paths(ss)[y] == ss[y].path;
  }

  lemma {:induction false} ImportedInWalkOrder(ss: seq<Source>, n: nat)
    requires DistinctPaths(ss) && n <= |ss|
    ensures forall i | 0 <= i < |Imported(ss, n)| :: 0 <= Met(ss, Imported(ss, n)[i]) < n
    ensures forall i, j | 0 <= i < j < |Imported(ss, n)| :: Met(ss, Imported(ss, n)[i]) < Met(ss, Imported(ss, n)[j])
  {
    hide FanIn, Paths, DistinctPaths;
    if n > 0 {
      ImportedInWalkOrder(ss, n - 1);
      PathIsAt(ss, n - 1);
      var before, fs := Imported(ss, n - 1), Imported(ss, n);
      assert forall i | 0 <= i < |before| :: fs[i] == before[i];
    }
  }

  /** The isolated modules are listed once each, as the walk met them. */
  lemma {:induction false} IsolatedInWalkOrder(ss: seq<Source>, n: nat)
    requires DistinctPaths(ss) && n <= |ss|
    ensures forall i | 0 <= i < |Isolated(ss, n)| :: 0 <= Met(ss, Isolated(ss, n)[i]) < n
    ensures forall i, j | 0 <= i < j < |Isolated(ss, n)| :: Met(ss, Isolated(ss, n)[i]) < Met(ss, Isolated(ss, n)[j])
  {
    hide FanIn, Paths, DistinctPaths;
    if n > 0 {
      IsolatedInWalkOrder(ss, n - 1);
      PathIsAt(ss, n - 1);
      var before, fs := Isolated(ss, n - 1), Isolated(ss, n);
      assert forall i | 0 <= i < |before| :: fs[i] == before[i];
    }
  }

  lemma {:induction false} HitsAre(imports: seq<string>, m: nat, target: string, importer: string)
    requires m <= |imports|
    ensures forall i | 0 <= i < |Hits(imports, m, target, importer)| :: Hits(imports, m, target, importer)[i] == importer
  {
    if m > 0 {
      HitsAre(imports, m - 1, target, importer);
    }
  }

  /** The importers of a file are listed as the walk met them. */
  lemma {:induction false} ImportersInWalkOrder(ss: seq<Source>, n: nat, target: string)
    requires DistinctPaths(ss) && n <= |ss|
    ensures forall i | 0 <= i < |Importers(ss, n, target)| :: 0 <= Met(ss, Importers(ss, n, target)[i]) < n
    ensures forall i, j | 0 <= i < j < |Importers(ss, n, target)| ::
              Met(ss, Importers(ss, n, target)[i]) <= Met(ss, Importers(ss, n, target)[j])
  {
    hide Hits, Paths, DistinctPaths, Met, ImportsOf;
    if n > 0 {
      var imports := ImportsOf(ss[n - 1]);
      ImportersInWalkOrder(ss, n - 1, target);
      MetAt(ss, n - 1);
      HitsAre(imports, |imports|, target, ss[n - 1].path);
      var before, fs := Importers(ss, n - 1, target), Importers(ss, n, target);
      forall i | 0 <= i < |fs|
        ensures if i < |before| then fs[i] == before[i] else fs[i] == ss[n - 1].path
      {
        var hits := Hits(imports, |imports|, target, ss[n - 1].path);
        assert i >= |before| ==> fs[i] == hits[i - |before|];
      }
    }
  }

  lemma MetAt(ss: seq<Source>, x: nat)
    requires DistinctPaths(ss) && x < |ss|
    ensures Met(ss, ss[x].path) == x
  {
    PathIsAt(ss, x);
  }

  lemma RankedInOrder(ss: seq<Source>, i: nat, j: nat)
    requires DistinctPaths(ss) && i < j < |Ranked(ss)|
    ensures Outranks(ss, Ranked(ss)[i], Ranked(ss)[j])
  {
    hide FanIn, Imported, Order, Ascends, Paths;
    var fs := Imported(ss, |ss|);
    var keys := Keys(ss, fs);
    var o := Order(keys);
    ImportedInWalkOrder(ss, |ss|);
    OrderIsOrder(keys);
    InOrderAt(keys, o, i, j);
    assert Ranked(ss)[i] == fs[o[i]] && Ranked(ss)[j] == fs[o[j]];
    assert keys[o[i]] == FanIn(ss, fs[o[i]]) as real && keys[o[j]] == FanIn(ss, fs[o[j]]) as real;
  }

  lemma InOrderAt(keys: seq<real>, p: seq<nat>, i: nat, j: nat)
    requires InRange(keys, p) && Ascends(keys, p) && i < j < |p|
    ensures Before(keys, p[i], p[j])
  {
  }

  lemma {:induction false} HubsAmongInOrder(ss: seq<Source>, fs: seq<string>)
    requires forall i, j | 0 <= i < j < |fs| :: Outranks(ss, fs[i], fs[j])
    ensures var hs := HubsAmong(ss, fs); forall i, j | 0 <= i < j < |hs| :: Outranks(ss, hs[i], hs[j])
  {
    hide FanIn, Outranks;
    if fs != [] {
      var init, f := fs[..|fs| - 1], fs[|fs| - 1];
      HubsAmongInOrder(ss, init);
      var before, hs := HubsAmong(ss, init), HubsAmong(ss, fs);
      forall i, j | 0 <= i < j < |hs|
        ensures Outranks(ss, hs[i], hs[j])
      {
        assert hs[i] == before[i] && before[i] in before;
        HubsAmongExactly(ss, init, hs[i]);
        if j == |before| {
          var k :| 0 <= k < |init| && init[k] == hs[i];
          assert Outranks(ss, fs[k], fs[|init|]);
        }
      }
    }
  }

  /** The candidates and the hubs stand in descending order of fan-in, and of equally imported files the one comes first
      that the walk met first; so no file is listed twice. */
  lemma RankedByFanIn(ss: seq<Source>)
    requires DistinctPaths(ss)
    ensures var c := E2ECandidates(ss); forall i, j | 0 <= i < j < |c| :: Outranks(ss, c[i], c[j])
    ensures var h := Hubs(ss); forall i, j | 0 <= i < j < |h| :: Outranks(ss, h[i], h[j])
    ensures IntegrationLaws.Distinct(Paths(ss)) && IntegrationLaws.Distinct(Hubs(ss))
  {
    hide FanIn, Ranked, HubsAmong, Outranks, E2ECount;
    forall i, j | 0 <= i < j < |Ranked(ss)|
      ensures Outranks(ss, Ranked(ss)[i], Ranked(ss)[j])
    {
      RankedInOrder(ss, i, j);
    }
    HubsAmongInOrder(ss, Ranked(ss));
    assert Hubs(ss) == HubsAmong(ss, Ranked(ss));
    var hs := Hubs(ss);
    forall i, j | 0 <= i < j < |hs|
      ensures hs[i] != hs[j]
    {
      assert Outranks(ss, hs[i], hs[j]);
      NoneOutranksItself(ss, hs[i]);
    }
  }

  lemma NoneOutranksItself(ss: seq<Source>, f: string)
    ensures !Outranks(ss, f, f)
  {
  }

  /** The isolated modules are exactly the files of the tree that import something and that nobody imports. */
  lemma {:induction false} IsolatedExactly(ss: seq<Source>, n: nat, f: string)
    requires n <= |ss|
    ensures (f in Isolated(ss, n)
             <==> FanIn(ss, f) == 0 && exists x | 0 <= x < n :: ss[x].path == f && ImportsOf(ss[x]) != [])
  {
    hide FanIn;
    if n > 0 {
      IsolatedExactly(ss, n - 1, f);
    }
  }
}

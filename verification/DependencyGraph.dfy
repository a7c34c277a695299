/** The import graph of a source tree: who imports whom, how often, and which modules deserve end-to-end tests. */
module DependencyGraph {
  import opened Prelude
  import opened StableOrder
  import opened IntegrationPairs

  /** A source file and the files its relative imports resolve to; None when it cannot be read. */
  datatype Source = Source(path: string, imports: Option<seq<string>>)

  function ImportsOf(s: Source): seq<string> {
    s.imports.GetOr([])
  }

  /** A directory walk meets each file once. */
  predicate DistinctPaths(ss: seq<Source>) {
    forall i, j | 0 <= i < j < |ss| :: ss[i].path != ss[j].path
  }

  function Paths(ss: seq<Source>): seq<string> {
    seq(|ss|, i requires 0 <= i < |ss| => ss[i].path)
  }

  /** `importer` once for every import of `target` among the first `m`. */
  function Hits(imports: seq<string>, m: nat, target: string, importer: string): seq<string>
    requires m <= |imports|
  {
    if m == 0 then []
    else Hits(imports, m - 1, target, importer) + if imports[m - 1] == target then [importer] else []
  }

  /** The importers of `target` among the first `n` files, in walk order. */
  function Importers(ss: seq<Source>, n: nat, target: string): seq<string>
    requires n <= |ss|
  {
    if n == 0 then []
    else Importers(ss, n - 1, target) + Hits(ImportsOf(ss[n - 1]), |ImportsOf(ss[n - 1])|, target, ss[n - 1].path)
  }

  function FanIn(ss: seq<Source>, target: string): nat {
    |Importers(ss, |ss|, target)|
  }

  // ---- Ranking by fan-in ----

  /** The files with importers, in walk order, among the first `n`. */
  function Imported(ss: seq<Source>, n: nat): seq<string>
    requires n <= |ss|
  {
    if n == 0 then []
    else Imported(ss, n - 1) + if FanIn(ss, ss[n - 1].path) > 0 then [ss[n - 1].path] else []
  }

  function Keys(ss: seq<Source>, fs: seq<string>): seq<real> {
    seq(|fs|, i requires 0 <= i < |fs| => FanIn(ss, fs[i]) as real)
  }

  function Ranked(ss: seq<Source>): seq<string> {
    var fs := Imported(ss, |ss|);
    Rearranged(fs, Order(Keys(ss, fs)))
  }

  /** A twentieth of the files, rounded up, and at least one. */
  function E2ECount(n: nat): (c: nat)
    ensures c >= 1 && 20 * c >= n && (c > 1 ==> 20 * (c - 1) < n)
  {
    var c := -(-(n as real * 0.05)).Floor;
    if c > 1 then c else 1
  }

  function E2ECandidates(ss: seq<Source>): seq<string> {
    Ranked(ss)[..Min(|Ranked(ss)|, E2ECount(|ss|))]
  }

  /** The hubs, strongest first. */
  function HubsAmong(ss: seq<Source>, fs: seq<string>): seq<string> {
    if fs == [] then []
    else
      var f := fs[|fs| - 1];
      HubsAmong(ss, fs[..|fs| - 1]) + if FanIn(ss, f) >= 4 then [f] else []
  }

  /** The imports of the first `n` files, by path. */
  function ImportsTo(ss: seq<Source>, n: nat): Imports
    requires n <= |ss|
  {
    if n == 0 then map[] else ImportsTo(ss, n - 1)[ss[n - 1].path := ImportsOf(ss[n - 1])]
  }

  function ImportMap(ss: seq<Source>): Imports {
    ImportsTo(ss, |ss|)
  }

  /** The files without importers that import something, among the first `n`. */
  function Isolated(ss: seq<Source>, n: nat): (r: seq<string>)
    requires n <= |ss|
  {
    if n == 0 then []
    else
      var f := ss[n - 1];
      Isolated(ss, n - 1) + if FanIn(ss, f.path) == 0 && |ImportsOf(f)| > 0 then [f.path] else []
  }

  // ---- The graph ----

  class DependencyNode {
    const file: string
    var imports: seq<string>
    var importedBy: seq<string>
    var fanIn: nat
    var fanOut: nat
    var isHub: bool

    constructor (path: string)
      ensures file == path && imports == importedBy == [] && fanIn == fanOut == 0 && !isHub
    {
      file, imports, importedBy, fanIn, fanOut, isHub := path, [], [], 0, 0, false;
    }
  }

  /** The list of pairs and the set of keys seen, grown together. */
  class PairList {
    var items: seq<Pair>
    var seen: set<string>

    ghost predicate Valid()
      reads this
    {
      forall k :: k in seen <==> Listed(items, k)
    }

    constructor ()
      ensures Valid() && items == []
    {
      items, seen := [], {};
    }

    method Offer(p: Pair)
      requires Valid()
      modifies this
      ensures Valid() && items == Add(old(items), p)
    {
      hide Key;
      var key := Key(p);
      if key !in seen {
        seen := seen + {key};
        items := items + [p];
        assert items[|items| - 1] == p;
        assert forall k :: k != key && Listed(items, k) ==> Listed(old(items), k);
        assert forall i | 0 <= i < |old(items)| :: items[i] == old(items)[i];
      }
    }
  }

  class Graph {
    var nodes: map<string, DependencyNode>
    /** The keys of `nodes` in insertion order, which is the order in which its values are visited. */
    var order: seq<string>

    constructor ()
      ensures nodes == map[] && order == []
    {
      nodes, order := map[], [];
    }

    /** One node for each of the first `n` files. */
    ghost predicate Registers(ss: seq<Source>, n: nat)
      reads this
      requires n <= |ss|
    {
      && |order| == n && (forall x | 0 <= x < n :: order[x] == ss[x].path && order[x] in nodes)
      && nodes.Keys == ImportsTo(ss, n).Keys
      && (forall f | f in nodes :: nodes[f].file == f)
    }

    /** The nodes after the first `i` files and the first `j` imports of the next one. */
    ghost predicate Records(ss: seq<Source>, i: nat, j: nat)
      reads this, nodes.Values
      requires Registers(ss, |ss|) && i <= |ss| && (if i < |ss| then j <= |ImportsOf(ss[i])| else j == 0)
    {
      forall x | 0 <= x < |ss| :: IsRow(nodes[order[x]], ss, x, i, j)
    }

    /** What the finished graph says of the files. */
    ghost predicate Describes(ss: seq<Source>)
      reads this, nodes.Values
    {
      && Registers(ss, |ss|)
      && forall f | f in nodes :: IsFinal(nodes[f], ss)
    }

    method Build(ss: seq<Source>) returns (e2e: seq<string>, pairs: seq<Pair>, isolated: seq<string>)
      requires DistinctPaths(ss)
      modifies this
      ensures Describes(ss)
      ensures e2e == E2ECandidates(ss)
      ensures Lists(ImportMap(ss), Paths(ss)) && KnownTo(ImportMap(ss), Hubs(ss))
      ensures pairs == StrongestPairs(ImportMap(ss), Paths(ss), Hubs(ss))
      ensures isolated == Isolated(ss, |ss|)
    {
      hide IsRow, IsFinal, KnownTo, Ranked, HubsAmong, ImportMap, ImportsTo, Isolated, StrongestPairs, DistinctPaths;
      nodes, order := map[], [];
      AddNodes(ss);
      var i := 0;
      while i < |ss|
        invariant i <= |ss| && Registers(ss, |ss|) && Records(ss, i, 0)
        invariant forall f | f in nodes :: fresh(nodes[f]) && !nodes[f].isHub
      {
        ReadImports(ss, i);
        i := i + 1;
      }
      MarkHubs(ss);
      var sortedByFanIn := MostImported(ss);
      var files := FilesOf(sortedByFanIn);
      e2e := files[..Min(|files|, E2ECount(|order|))];
      assert files == Ranked(ss);
      assert order == Paths(ss);
      AllAreKnown(ss);
      pairs := FindStrongestPairs(sortedByFanIn, ss);
      isolated := IsolatedModules(ss);
    }

    method AddNodes(ss: seq<Source>)
      requires nodes == map[] && order == [] && DistinctPaths(ss)
      modifies this
      ensures Registers(ss, |ss|) && Records(ss, 0, 0)
      ensures forall f | f in nodes :: fresh(nodes[f]) && !nodes[f].isHub
    {
      hide IsRow;
      var i := 0;
      while i < |ss|
        invariant i <= |ss| && Registers(ss, i)
        invariant forall f | f in nodes :: fresh(nodes[f]) && IsEmpty(nodes[f])
      {
        var node := new DependencyNode(ss[i].path);
        nodes := nodes[ss[i].path := node];
        order := order + [ss[i].path];
        i := i + 1;
      }
      forall x | 0 <= x < |ss|
        ensures IsRow(nodes[order[x]], ss, x, 0, 0)
      {
        EmptyIsRow(nodes[order[x]], ss, x);
      }
    }

    /** The imports of one file, or nothing when it cannot be read. */
    method ReadImports(ss: seq<Source>, i: nat)
      requires DistinctPaths(ss) && i < |ss| && Registers(ss, |ss|) && Records(ss, i, 0)
      modifies nodes.Values
      ensures Records(ss, i + 1, 0)
      ensures forall f | f in nodes :: nodes[f].isHub == old(nodes[f].isHub)
    {
      hide IsRow, ImportsTo;
      if ss[i].imports.Some? {
        var imports := ss[i].imports.value;
        var j := 0;
        while j < |imports|
          invariant j <= |imports| && Records(ss, i, j)
          invariant forall f | f in nodes :: nodes[f].isHub == old(nodes[f].isHub)
        {
          AddImport(ss, i, j);
          j := j + 1;
        }
      }
      forall x | 0 <= x < |ss|
        ensures IsRow(nodes[order[x]], ss, x, i + 1, 0)
      {
        NextRow(nodes[order[x]], ss, x, i);
      }
    }

    method AddImport(ss: seq<Source>, i: nat, j: nat)
      requires DistinctPaths(ss) && i < |ss| && j < |ImportsOf(ss[i])| && Registers(ss, |ss|) && Records(ss, i, j)
      modifies nodes.Values
      ensures Records(ss, i, j + 1)
      ensures forall f | f in nodes :: nodes[f].isHub == old(nodes[f].isHub)
    {
      hide ImportsTo, Hits, Importers;
      var node, resolved := nodes[order[i]], ImportsOf(ss[i])[j];
      node.imports := node.imports + [resolved];
      node.fanOut := node.fanOut + 1;
      if resolved in nodes {
        var target := nodes[resolved];
        target.importedBy := target.importedBy + [ss[i].path];
        target.fanIn := target.fanIn + 1;
      }
      forall x | 0 <= x < |ss|
        ensures IsRow(nodes[order[x]], ss, x, i, j + 1)
      {
        assert old(IsRow(nodes[order[x]], ss, x, i, j));
        OneMoreHit(ss, i, j, order[x]);
      }
    }

    method MarkHubs(ss: seq<Source>)
      requires DistinctPaths(ss) && Registers(ss, |ss|) && Records(ss, |ss|, 0)
      modifies nodes.Values
      ensures Describes(ss)
    {
      hide IsFinal, IsRow;
      var i := 0;
      while i < |order|
        invariant i <= |order|
        invariant forall x | i <= x < |order| :: IsRow(nodes[order[x]], ss, x, |ss|, 0)
        invariant forall f | f in ImportsTo(ss, i) :: f in nodes && IsFinal(nodes[f], ss)
      {
        var node := nodes[order[i]];
        node.isHub := node.fanIn >= 4;
        MarkedIsFinal(node, ss, i);
        i := i + 1;
      }
    }

    /** `ns` are the nodes of the files `fs`. */
    ghost predicate AreNodesOf(ns: seq<DependencyNode>, fs: seq<string>)
      reads this
    {
      |ns| == |fs| && forall k | 0 <= k < |ns| :: fs[k] in nodes && ns[k] == nodes[fs[k]] && ns[k].file == fs[k]
    }

    /** The nodes with importers, by descending fan-in. */
    method MostImported(ss: seq<Source>) returns (sorted: seq<DependencyNode>)
      requires Describes(ss)
      ensures AreNodesOf(sorted, Ranked(ss))
    {
      hide ImportsTo, FanIn, Order;
      var positive, keys, i := [], [], 0;
      while i < |order|
        invariant i <= |order| && AreNodesOf(positive, Imported(ss, i)) && |keys| == |positive|
        invariant forall k | 0 <= k < |keys| :: keys[k] == FanIn(ss, positive[k].file) as real
      {
        var node := nodes[order[i]];
        assert IsFinal(node, ss);
        if node.fanIn > 0 {
          positive, keys := positive + [node], keys + [node.fanIn as real];
        }
        i := i + 1;
      }
      assert keys == Keys(ss, Imported(ss, |ss|));
      sorted := Rearranged(positive, Order(keys));
    }

    static method FilesOf(ns: seq<DependencyNode>) returns (fs: seq<string>)
      ensures |fs| == |ns| && forall k | 0 <= k < |fs| :: fs[k] == ns[k].file
    {
      fs := [];
      var i := 0;
      while i < |ns|
        invariant i <= |ns| && |fs| == i && forall k | 0 <= k < i :: fs[k] == ns[k].file
      {
        fs := fs + [ns[i].file];
        i := i + 1;
      }
    }

    method IsolatedModules(ss: seq<Source>) returns (r: seq<string>)
      requires DistinctPaths(ss) && Describes(ss)
      ensures r == Isolated(ss, |ss|)
    {
      hide ImportsTo, FanIn;
      r := [];
      var i := 0;
      while i < |order|
        invariant i <= |order| && r == Isolated(ss, i)
      {
        var node := nodes[order[i]];
        assert IsFinal(node, ss);
        ImportsToAt(ss, |ss|, i);
        if node.fanIn == 0 && node.fanOut > 0 {
          r := r + [node.file];
        }
        i := i + 1;
      }
    }

    method FindStrongestPairs(sortedByFanIn: seq<DependencyNode>, ss: seq<Source>) returns (r: seq<Pair>)
      requires Describes(ss) && AreNodesOf(sortedByFanIn, Ranked(ss))
      requires KnownTo(ImportMap(ss), order) && KnownTo(ImportMap(ss), Hubs(ss))
      ensures r == StrongestPairs(ImportMap(ss), order, Hubs(ss))
    {
      hide ImportMap, Ranked, HubsAmong, AddAll, MutualOf, HubsOf, Leads, Hubs, IsFinal, ImportsTo, Add, Key, Listed, Paths,
        FanIn, Importers, DistinctPaths;
      ghost var g, names := ImportMap(ss), Hubs(ss);
      var pairs := new PairList();
      var i := 0;
      NothingAdded([]);
      while i < |order|
        invariant i <= |order| && fresh(pairs) && pairs.Valid()
        invariant pairs.items == AddAll([], MutualPairs(g, order, i))
      {
        AddAllAppended([], MutualPairs(g, order, i), MutualOf(g, order[i], |g[order[i]]|));
        AddMutual(nodes[order[i]], pairs, ss);
        i := i + 1;
      }
      var hubs := HubsOnly(sortedByFanIn, ss);
      ghost var mutual := pairs.items;
      NothingAdded(mutual);
      i := 0;
      while i < |hubs|
        invariant i <= |hubs| && fresh(pairs) && pairs.Valid()
        invariant pairs.items == AddAll(mutual, HubPairs(g, names, i))
      {
        AddAllAppended(mutual, HubPairs(g, names, i), HubsOf(g, names, names[i], |g[names[i]]|));
        AddHubs(hubs[i], pairs, ss);
        i := i + 1;
      }
      ghost var derived := pairs.items;
      NothingAdded(derived);
      i := 0;
      while i < Min(|hubs|, 10)
        invariant i <= Min(|hubs|, 10) && fresh(pairs) && pairs.Valid()
        invariant pairs.items == AddAll(derived, LeadPairs(g, names, i))
      {
        AddAllAppended(derived, LeadPairs(g, names, i), Leads(g, names[i], Min(|g[names[i]]|, 3)));
        AddLeads(hubs[i], pairs, ss);
        i := i + 1;
      }
      r := pairs.items[..Min(|pairs.items|, 20)];
    }

    method AddMutual(node: DependencyNode, pairs: PairList, ss: seq<Source>)
      requires Describes(ss) && node.file in nodes && nodes[node.file] == node && pairs.Valid()
      modifies pairs
      ensures pairs.Valid() && node.file in ImportMap(ss)
      ensures pairs.items == AddAll(old(pairs.items), MutualOf(ImportMap(ss), node.file, |ImportMap(ss)[node.file]|))
    {
      hide ImportsTo, AddAll, Add, FanIn, Importers;
      ghost var before, g := pairs.items, ImportMap(ss);
      assert IsFinal(node, ss);
      NothingAdded(before);
      var j := 0;
      while j < |node.imports|
        invariant j <= |node.imports| && pairs.Valid()
        invariant pairs.items == AddAll(before, MutualOf(g, node.file, j))
      {
        var imp := node.imports[j];
        AddAllStep(before, MutualOf(g, node.file, j), (node.file, imp));
        assert imp in nodes ==> IsFinal(nodes[imp], ss);
        if imp in nodes && node.file in nodes[imp].imports {
          pairs.Offer((node.file, imp));
        }
        j := j + 1;
      }
    }

    method HubsOnly(sortedByFanIn: seq<DependencyNode>, ss: seq<Source>) returns (hubs: seq<DependencyNode>)
      requires Describes(ss) && AreNodesOf(sortedByFanIn, Ranked(ss))
      ensures AreNodesOf(hubs, Hubs(ss))
    {
      hide ImportsTo, FanIn, Ranked, Importers;
      hubs := [];
      var i := 0;
      ghost var ranked := Ranked(ss);
      while i < |sortedByFanIn|
        invariant i <= |sortedByFanIn| && AreNodesOf(hubs, HubsAmong(ss, ranked[..i]))
      {
        assert ranked[..i + 1][..i] == ranked[..i];
        assert IsFinal(sortedByFanIn[i], ss);
        if sortedByFanIn[i].isHub {
          hubs := hubs + [sortedByFanIn[i]];
        }
        i := i + 1;
      }
      assert ranked[..i] == ranked;
    }

    method AddHubs(hub: DependencyNode, pairs: PairList, ss: seq<Source>)
      requires Describes(ss) && hub.file in nodes && nodes[hub.file] == hub && pairs.Valid()
      modifies pairs
      ensures pairs.Valid() && hub.file in ImportMap(ss)
      ensures var g := ImportMap(ss);
              pairs.items == AddAll(old(pairs.items), HubsOf(g, Hubs(ss), hub.file, |g[hub.file]|))
    {
      hide ImportsTo, AddAll, Add, FanIn, Importers, Hubs;
      ghost var before, g := pairs.items, ImportMap(ss);
      assert IsFinal(hub, ss);
      NothingAdded(before);
      var j := 0;
      while j < |hub.imports|
        invariant j <= |hub.imports| && pairs.Valid()
        invariant pairs.items == AddAll(before, HubsOf(g, Hubs(ss), hub.file, j))
      {
        var imp := hub.imports[j];
        AddAllStep(before, HubsOf(g, Hubs(ss), hub.file, j), (hub.file, imp));
        HubExactly(ss, imp);
        assert imp in nodes ==> IsFinal(nodes[imp], ss);
        if imp in nodes && nodes[imp].isHub {
          pairs.Offer((hub.file, imp));
        }
        j := j + 1;
      }
    }

    method AddLeads(hub: DependencyNode, pairs: PairList, ss: seq<Source>)
      requires Describes(ss) && hub.file in nodes && nodes[hub.file] == hub && pairs.Valid()
      modifies pairs
      ensures pairs.Valid() && hub.file in ImportMap(ss)
      ensures var g := ImportMap(ss);
              pairs.items == AddAll(old(pairs.items), Leads(g, hub.file, Min(|g[hub.file]|, 3)))
    {
      hide ImportsTo, AddAll, Add, FanIn, Importers;
      ghost var before, g := pairs.items, ImportMap(ss);
      assert IsFinal(hub, ss);
      NothingAdded(before);
      var j := 0;
      while j < Min(|hub.imports|, 3)
        invariant j <= Min(|hub.imports|, 3) && pairs.Valid()
        invariant pairs.items == AddAll(before, Leads(g, hub.file, j))
      {
        AddAllStep(before, Leads(g, hub.file, j), (hub.file, hub.imports[j]));
        pairs.Offer((hub.file, hub.imports[j]));
        j := j + 1;
      }
    }
  }

  lemma NothingAdded(ps: seq<Pair>)
    ensures AddAll(ps, []) == ps
  {
  }

  /** Files and hubs are known, so the pairs are well defined. */
  lemma AllAreKnown(ss: seq<Source>)
    requires DistinctPaths(ss)
    ensures Lists(ImportMap(ss), Paths(ss)) && KnownTo(ImportMap(ss), Hubs(ss))
  {
    hide ImportsTo, FanIn, Hubs;
    forall x | 0 <= x < |ss|
      ensures ss[x].path in ImportMap(ss)
    {
      ImportsToAt(ss, |ss|, x);
    }
    forall f | f in ImportMap(ss)
      ensures f in Paths(ss)
    {
      KnownExactly(ss, |ss|, f);
      var x :| 0 <= x < |ss| && ss[x].path == f;
      assert Paths(ss)[x] == f;
    }
    forall i | 0 <= i < |Hubs(ss)|
      ensures Hubs(ss)[i] in ImportMap(ss)
    {
      HubExactly(ss, Hubs(ss)[i]);
    }
  }

  ghost predicate IsEmpty(n: DependencyNode)
    reads n
  {
    n.imports == n.importedBy == [] && n.fanIn == n.fanOut == 0 && !n.isHub
  }

  function ImportersSoFar(ss: seq<Source>, i: nat, j: nat, target: string): seq<string>
    requires i <= |ss| && (if i < |ss| then j <= |ImportsOf(ss[i])| else j == 0)
  {
    Importers(ss, i, target) + if i < |ss| then Hits(ImportsOf(ss[i]), j, target, ss[i].path) else []
  }

  /** The node of file `x` after the first `i` files and the first `j` imports of the next one. */
  ghost predicate IsRow(n: DependencyNode, ss: seq<Source>, x: nat, i: nat, j: nat)
    requires x < |ss| && i <= |ss| && (if i < |ss| then j <= |ImportsOf(ss[i])| else j == 0)
    reads n`imports, n`fanOut, n`importedBy, n`fanIn
  {
    && n.file == ss[x].path
    && n.imports == (if x < i then ImportsOf(ss[x]) else if x == i then ImportsOf(ss[i])[..j] else [])
    && n.fanOut == |n.imports|
    && n.importedBy == ImportersSoFar(ss, i, j, n.file)
    && n.fanIn == |n.importedBy|
  }

  ghost predicate IsFinal(n: DependencyNode, ss: seq<Source>)
    reads n
  {
    && n.file in ImportMap(ss) && n.imports == ImportMap(ss)[n.file] && n.fanOut == |n.imports|
    && n.importedBy == Importers(ss, |ss|, n.file) && n.fanIn == FanIn(ss, n.file)
    && n.isHub == (n.fanIn >= 4)
  }

  lemma EmptyIsRow(n: DependencyNode, ss: seq<Source>, x: nat)
    requires x < |ss| && IsEmpty(n) && n.file == ss[x].path
    ensures IsRow(n, ss, x, 0, 0)
  {
  }

  lemma NextRow(n: DependencyNode, ss: seq<Source>, x: nat, i: nat)
    requires x < |ss| && i < |ss| && IsRow(n, ss, x, i, |ImportsOf(ss[i])|)
    ensures IsRow(n, ss, x, i + 1, 0)
  {
    hide Hits;
    NoHits(ss, i + 1, n.file);
  }

  lemma NoHits(ss: seq<Source>, i: nat, target: string)
    requires i <= |ss|
    ensures ImportersSoFar(ss, i, 0, target) == Importers(ss, i, target)
  {
    hide Importers;
  }

  lemma OneMoreHit(ss: seq<Source>, i: nat, j: nat, target: string)
    requires i < |ss| && j < |ImportsOf(ss[i])|
    ensures ImportersSoFar(ss, i, j + 1, target)
         == ImportersSoFar(ss, i, j, target) + if ImportsOf(ss[i])[j] == target then [ss[i].path] else []
  {
    hide Importers;
  }

  lemma {:induction false} ImportsToAt(ss: seq<Source>, n: nat, x: nat)
    requires DistinctPaths(ss) && x < n <= |ss|
    ensures ss[x].path in ImportsTo(ss, n) && ImportsTo(ss, n)[ss[x].path] == ImportsOf(ss[x])
  {
    if x < n - 1 {
      ImportsToAt(ss, n - 1, x);
    }
  }

  lemma MarkedIsFinal(n: DependencyNode, ss: seq<Source>, x: nat)
    requires DistinctPaths(ss) && x < |ss| && IsRow(n, ss, x, |ss|, 0) && n.isHub == (n.fanIn >= 4)
    ensures IsFinal(n, ss)
  {
    hide Importers, ImportersSoFar;
    ImportsToAt(ss, |ss|, x);
    NoHits(ss, |ss|, n.file);
  }

  function Hubs(ss: seq<Source>): seq<string> {
    HubsAmong(ss, Ranked(ss))
  }

  lemma {:induction false} ImportedExactly(ss: seq<Source>, n: nat, f: string)
    requires n <= |ss|
    ensures f in Imported(ss, n) <==> FanIn(ss, f) > 0 && exists x | 0 <= x < n :: ss[x].path == f
  {
    hide FanIn;
    if n > 0 {
      ImportedExactly(ss, n - 1, f);
    }
  }

  lemma {:induction false} HubsAmongExactly(ss: seq<Source>, fs: seq<string>, f: string)
    ensures f in HubsAmong(ss, fs) <==> f in fs && FanIn(ss, f) >= 4
  {
    hide FanIn;
    if fs != [] {
      HubsAmongExactly(ss, fs[..|fs| - 1], f);
      assert fs == fs[..|fs| - 1] + [fs[|fs| - 1]];
    }
  }

  lemma {:induction false} KnownExactly(ss: seq<Source>, n: nat, f: string)
    requires n <= |ss|
    ensures f in ImportsTo(ss, n) <==> exists x | 0 <= x < n :: ss[x].path == f
  {
    if n > 0 {
      KnownExactly(ss, n - 1, f);
    }
  }

  lemma AddAllStep(ps: seq<Pair>, more: seq<Pair>, p: Pair)
    ensures AddAll(ps, more + [p]) == Add(AddAll(ps, more), p) && more + [] == more
  {
    assert (more + [p])[..|more|] == more;
  }

  lemma RankedIsImported(ss: seq<Source>, f: string)
    ensures f in Ranked(ss) <==> f in Imported(ss, |ss|)
  {
    var fs := Imported(ss, |ss|);
    OrderIsOrder(Keys(ss, fs));
    var p := Order(Keys(ss, fs));
    if f in fs {
      var i :| 0 <= i < |fs| && fs[i] == f;
      assert i in p;
      var k :| 0 <= k < |p| && p[k] == i;
      assert Ranked(ss)[k] == f;
    }
  }

  /** The listed hubs are exactly the known files that are imported at least four times. */
  lemma HubExactly(ss: seq<Source>, f: string)
    ensures f in Hubs(ss) <==> f in ImportMap(ss) && FanIn(ss, f) >= 4
  {
    hide FanIn, Ranked, Imported, HubsAmong, ImportsTo;
    RankedIsImported(ss, f);
    ImportedExactly(ss, |ss|, f);
    HubsAmongExactly(ss, Ranked(ss), f);
    KnownExactly(ss, |ss|, f);
  }
}

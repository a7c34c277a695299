/** The scorecard: which files are scanned, what is measured of them, and the score that follows. */
module Scorecard {
  import opened Prelude
  import opened Scoring

  // ---- Collecting the source files ----

  datatype Node = File(name: string) | Dir(name: string, listing: Listing)

  /** What reading a directory gives. */
  datatype Listing = Unreadable | Entries(nodes: seq<Node>)

  const IGNORED_DIRS := {
    "node_modules", ".git", "dist", "build", "target", "target_alt", "target_v3", "bin", ".agent", ".gemini", ".jules",
    ".opencode", "obj", "__pycache__", ".psa_sessions", ".psa_skills", ".dsh_sessions"
  }

  const EXTENSIONS := [".ts", ".tsx", ".js", ".jsx", ".go", ".rs", ".zig", ".py", ".cs"]

  predicate IsSource(name: string) {
    (exists k | 0 <= k < |EXTENSIONS| :: EndsWith(name, EXTENSIONS[k]))
    && !HasSubstring(name, ".test.") && !HasSubstring(name, ".spec.")
  }

  /** Paths are relative to the scanned root. */
  function Join(dir: string, name: string): string {
    if dir == "" then name else dir + "/" + name
  }

  /** Every source file below an entry, in walk order. */
  function SourcesOf(dir: string, n: Node): seq<string>
    decreases n
  {
    match n
    case File(name) => if IsSource(name) then [Join(dir, name)] else []
    case Dir(name, listing) => if name in IGNORED_DIRS then [] else SourcesIn(Join(dir, name), listing)
  }

  function SourcesIn(dir: string, l: Listing): seq<string>
    decreases l
  {
    if l.Unreadable? then [] else Sources(dir, l.nodes)
  }

  function Sources(dir: string, ns: seq<Node>): seq<string>
    decreases ns
  {
    if ns == [] then [] else SourcesOf(dir, ns[0]) + Sources(dir, ns[1..])
  }

  /** As much of `more` as there is room for. */
  function Fitting(more: seq<string>, room: nat): (r: seq<string>)
    ensures |r| == Min(room, |more|) && r == more[..|r|]
  {
    more[..Min(room, |more|)]
  }

  /** `out` and then as much of `more` as the limit allows. */
  function Capped(out: seq<string>, more: seq<string>, limit: nat): seq<string> {
    if |out| >= limit then out else out + Fitting(more, limit - |out|)
  }

  lemma FittingConcat(a: seq<string>, b: seq<string>, room: nat)
    ensures Fitting(a + b, room) == if |a| < room then a + Fitting(b, room - |a|) else Fitting(a, room)
  {
    hide Min;
    var all := a + b;
    if |a| < room {
      var r := Fitting(b, room - |a|);
      assert all[..|a| + |r|] == a + r;
    } else {
      assert all[..room] == a[..room];
    }
  }

  lemma CappedTwice(out: seq<string>, a: seq<string>, b: seq<string>, limit: nat)
    ensures Capped(Capped(out, a, limit), b, limit) == Capped(out, a + b, limit)
  {
    hide Fitting, Min;
    if |out| < limit {
      FittingConcat(a, b, limit - |out|);
      var fit := Fitting(a, limit - |out|);
      if |a| < limit - |out| {
        assert fit == a;
        assert out + a + Fitting(b, limit - |out| - |a|) == out + (a + Fitting(b, limit - |out| - |a|));
      }
    }
  }

  lemma CappedBasics(out: seq<string>, limit: nat)
    ensures Capped(out, [], limit) == out
    ensures |out| >= limit ==> forall more :: Capped(out, more, limit) == out
    ensures |out| < limit ==> forall f :: Capped(out, [f], limit) == out + [f]
  {
    assert out + [] == out;
    assert forall f: string :: [f][..1] == [f];
  }

  class Collector {
    const limit: nat
    var out: seq<string>

    constructor (max: nat)
      ensures limit == max && out == []
    {
      limit, out := max, [];
    }

    /** The walk stops as soon as the limit is reached, in whatever directory it is. */
    method Walk(dir: string, listing: Listing)
      modifies this
      ensures out == Capped(old(out), SourcesIn(dir, listing), limit)
      decreases listing
    {
      hide IsSource, Capped;
      CappedBasics(out, limit);
      if |out| >= limit {
        return;
      }
      if listing.Unreadable? {
        return;
      }
      var ns := listing.nodes;
      for i := 0 to |ns|
        invariant Capped(out, Sources(dir, ns[i..]), limit) == Capped(old(out), Sources(dir, ns), limit)
      {
        CappedBasics(out, limit);
        if |out| >= limit {
          return;
        }
        var n := ns[i];
        assert ns[i..][0] == n && ns[i..][1..] == ns[i + 1..];
        CappedTwice(out, SourcesOf(dir, n), Sources(dir, ns[i + 1..]), limit);
        match n
        case Dir(name, below) =>
          if name !in IGNORED_DIRS {
            Walk(Join(dir, name), below);
          }
        case File(name) =>
          if IsSource(name) {
            out := out + [Join(dir, name)];
          }
      }
      CappedBasics(out, limit);
    }
  }

  /** With the cap of the scope: the first `limit` source files of the whole walk. */
  method CollectSourceFiles(root: Listing, limit: nat) returns (files: seq<string>)
    ensures files == SourcesIn("", root)[..Min(limit, |SourcesIn("", root)|)]
  {
    var c := new Collector(limit);
    c.Walk("", root);
    files := c.out;
  }

  // ---- Measuring them ----

  /** What is read off a file's text. */
  datatype Text = Text(hasTest: bool, telemetry: bool, documented: bool, branches: nat, lines: nat)

  function Complexity(t: Text): (c: real)
    ensures c >= 1.0
  {
    var per := Max(1.0, t.lines as real / 50.0);
    ShareGrows(0.0, t.branches as real, per);
    1.0 + t.branches as real / per
  }

  function FactsOf(t: Text): FileFacts {
    FileFacts(t.hasTest, "CORE", t.telemetry, if t.documented then "DOCUMENTED" else "UNKNOWN")
  }

  /** The readable files among the first `n` targets. */
  function FilesTo(targets: seq<string>, read: map<string, Text>, n: nat): map<string, FileFacts>
    requires n <= |targets|
  {
    if n == 0 then map[]
    else
      var before, f := FilesTo(targets, read, n - 1), targets[n - 1];
      if f in read then before[Slashed(f) := FactsOf(read[f])] else before
  }

  function ComplexitySum(targets: seq<string>, read: map<string, Text>, n: nat): real
    requires n <= |targets|
  {
    if n == 0 then 0.0
    else
      var f := targets[n - 1];
      ComplexitySum(targets, read, n - 1) + if f in read then Complexity(read[f]) else 0.0
  }

  /** Unreadable files count in the total but add nothing to the sum. */
  function Metrics(targets: seq<string>, read: map<string, Text>): Data {
    Data(FilesTo(targets, read, |targets|), [], |targets|,
         if |targets| > 0 then ComplexitySum(targets, read, |targets|) / |targets| as real else 1.0)
  }

  function Limit(full: bool): nat {
    if full then 5000 else 250
  }

  method CollectScorecardMetrics(root: Listing, read: map<string, Text>, full: bool) returns (d: Data)
    ensures var all := SourcesIn("", root);
            d == Metrics(all[..Min(if full then 5000 else 250, |all|)], read)
  {
    hide SourcesIn, Complexity;
    var targets := CollectSourceFiles(root, Limit(full));
    var files, complexitySum, i := map[], 0.0, 0;
    while i < |targets|
      invariant i <= |targets|
      invariant files == FilesTo(targets, read, i) && complexitySum == ComplexitySum(targets, read, i)
    {
      var f := targets[i];
      if f in read {
        files := files[Slashed(f) := FactsOf(read[f])];
        complexitySum := complexitySum + Complexity(read[f]);
      }
      i := i + 1;
    }
    d := Data(files, [], |targets|, if |targets| > 0 then complexitySum / |targets| as real else 1.0);
  }

  method ComputeScorecard(root: Listing, read: map<string, Text>, full: bool)
    returns (h: Health, sovereign: bool, emptyScope: bool)
    ensures var all := SourcesIn("", root);
            var d := Metrics(all[..Min(if full then 5000 else 250, |all|)], read);
            h == HealthOf(d) && sovereign == (h.total >= 80.0) && emptyScope == (all == [])
  {
    hide SourcesIn, HealthOf;
    var metrics := CollectScorecardMetrics(root, read, full);
    h := CalculateHealth(metrics);
    sovereign, emptyScope := h.total >= 80.0, metrics.totalFiles == 0;
  }

  // ---- What the score is ----

  /** Every readable file has a complexity of at least one, and there are at least as many as entries. */
  lemma {:induction false} FilesAreCounted(targets: seq<string>, read: map<string, Text>, n: nat)
    requires n <= |targets|
    ensures |FilesTo(targets, read, n)| <= n
    ensures |FilesTo(targets, read, n)| as real <= ComplexitySum(targets, read, n)
  {
    hide Complexity;
    if n > 0 {
      FilesAreCounted(targets, read, n - 1);
      var before, f := FilesTo(targets, read, n - 1), targets[n - 1];
      if f in read {
        var after := before[Slashed(f) := FactsOf(read[f])];
        assert after.Keys == before.Keys + {Slashed(f)};
      }
    }
  }

  /** The bound, with x the share of files that were read: what they cannot earn, their absence can only partly make
      up for as a lower average complexity. */
  lemma SumIsAtMost100(s: real, o: real, e: real, avg: real, x: real)
    requires 0.0 <= x <= 1.0 && s <= x && o <= x && e <= x && x <= avg
    ensures s * 35.0 + Purity(avg) + o * 10.0 + 15.0 + e * 10.0 + 15.0 <= 100.0
  {
  }

  /** The total is exactly the sum of the six components and at most 100, however many files could not be read. */
  lemma TotalIsSumOfComponents(targets: seq<string>, read: map<string, Text>)
    ensures var h := HealthOf(Metrics(targets, read));
            h.total == h.Sum() <= 100.0
  {
    hide Tested, Observed, Purposeful, Purity, FilesTo, ComplexitySum, CountAll;
    var d := Metrics(targets, read);
    TotalWithoutAlerts(d);
    if |targets| > 0 {
      FilesAreCounted(targets, read, |targets|);
      Subsets(d.files);
      var k, t := |d.files| as real, |targets| as real;
      ShareGrows(k, t, t);
      ShareGrows(k, ComplexitySum(targets, read, |targets|), t);
      ShareGrows(|Tested(d.files)| as real, k, t);
      ShareGrows(|Observed(d.files)| as real, k, t);
      ShareGrows(|Purposeful(d.files)| as real, k, t);
      SumIsAtMost100(Share(Tested(d.files), d.totalFiles), Share(Observed(d.files), d.totalFiles),
                     Share(Purposeful(d.files), d.totalFiles), d.avgComplexity, k / t);
      NoAlertsAtAll(d);
    }
  }

  lemma NoAlertsAtAll(d: Data)
    requires d.alerts == [] && d.totalFiles > 0
    ensures HealthOf(d).security == 15.0 && HealthOf(d).compliance == 15.0
  {
  }

  /** Purity exceeds its fifteen points exactly when the complexities, each at least one, sum up to less than the number
      of files, which takes a file that could not be read. */
  lemma PurityExceedsExactly(targets: seq<string>, read: map<string, Text>)
    requires targets != []
    ensures (HealthOf(Metrics(targets, read)).purity > 15.0
             <==> ComplexitySum(targets, read, |targets|) < |targets| as real)
    ensures (forall f <- targets :: f in read) ==> HealthOf(Metrics(targets, read)).purity <= 15.0
  {
    hide HealthOf, Metrics, ComplexitySum;
    PurityFollowsAverage(targets, read);
    BelowOne(ComplexitySum(targets, read, |targets|), |targets| as real);
    if forall f <- targets :: f in read {
      ReadableFilesAreComplex(targets, read, |targets|);
    }
  }

  lemma PurityFollowsAverage(targets: seq<string>, read: map<string, Text>)
    requires targets != []
    ensures (HealthOf(Metrics(targets, read)).purity > 15.0
             <==> ComplexitySum(targets, read, |targets|) / |targets| as real < 1.0)
  {
    hide ComplexitySum, FilesTo, CountAll, Tested, Observed, Purposeful, Share, Security, Constrained;
  }

  lemma BelowOne(sum: real, total: real)
    requires total > 0.0
    ensures sum / total < 1.0 <==> sum < total
  {
    var avg := sum / total;
    Quotient(sum, total);
    assert (avg - 1.0) * total == sum - total && (1.0 - avg) * total == total - sum;
    if avg < 1.0 {
      NegativeProduct(avg - 1.0, total);
    } else if avg > 1.0 {
      NegativeProduct(1.0 - avg, total);
    }
  }

  lemma {:induction false} ReadableFilesAreComplex(targets: seq<string>, read: map<string, Text>, n: nat)
    requires n <= |targets| && forall f <- targets :: f in read
    ensures ComplexitySum(targets, read, n) >= n as real
  {
    hide Complexity;
    if n > 0 {
      ReadableFilesAreComplex(targets, read, n - 1);
    }
  }

  /** A single file that cannot be read does it. */
  lemma UnreadableRaisesPurity()
    ensures HealthOf(Metrics(["a.ts"], map[])).purity > 15.0
  {
    assert ComplexitySum(["a.ts"], map[], 1) == ComplexitySum(["a.ts"], map[], 0) == 0.0;
    PurityExceedsExactly(["a.ts"], map[]);
  }
}

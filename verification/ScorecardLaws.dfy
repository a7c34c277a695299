/** Which files the scorecard finds, and what it measures of each, told on the tree and the texts. */
module ScorecardLaws {
  import opened Prelude
  import opened Scoring
  import opened Scorecard

  // ---- The files that are found ----

  const VENDOR_DIRS := {
    "node_modules", ".git", "dist", "build", "target", "target_alt", "target_v3", "bin", ".agent", ".gemini", ".jules",
    ".opencode", "obj", "__pycache__", ".psa_sessions", ".psa_skills", ".dsh_sessions"
  }

  const SOURCE_ENDINGS := {".ts", ".tsx", ".js", ".jsx", ".go", ".rs", ".zig", ".py", ".cs"}

  lemma SubstringExactly(s: string, t: string)
    ensures HasSubstring(s, t) <==> exists a, b :: s == a + t + b
  {
    if HasSubstring(s, t) {
      var i :| 0 <= i <= |s| && t <= s[i..];
      assert s == s[..i] + t + s[i + |t|..];
    }
    forall a, b | s == a + t + b
      ensures HasSubstring(s, t)
    {
      assert s[|a|..] == t + b;
    }
  }

  /** Source code by its ending, and neither a test nor a spec. */
  predicate IsSourceName(name: string) {
    && (exists e | e in SOURCE_ENDINGS :: EndsWith(name, e))
    && !HasSubstring(name, ".test.") && !HasSubstring(name, ".spec.")
  }

  lemma SourceNames(name: string)
    ensures IsSource(name) <==> IsSourceName(name)
  {
    hide HasSubstring, EndsWith;
    if e :| e in SOURCE_ENDINGS && EndsWith(name, e) {
      EndingIsListed(e);
      var k :| 0 <= k < |EXTENSIONS| && EXTENSIONS[k] == e;
    }
    if k :| 0 <= k < |EXTENSIONS| && EndsWith(name, EXTENSIONS[k]) {
      EndingIsListed(EXTENSIONS[k]);
    }
  }

  lemma EndingIsListed(e: string)
    ensures e in SOURCE_ENDINGS <==> e in EXTENSIONS
  {
  }

  /** The steps lead down through directories that are not ignored to a source file. */
  predicate Leads(l: Listing, steps: seq<string>)
    decreases |steps|
  {
    l.Entries? && steps != [] && exists i | 0 <= i < |l.nodes| :: NodeLeads(l.nodes[i], steps)
  }

  predicate NodeLeads(n: Node, steps: seq<string>)
    requires steps != []
    decreases |steps|, 0
  {
    match n
    case File(name) => steps == [name] && IsSourceName(name)
    case Dir(name, listing) => steps[0] == name && name !in VENDOR_DIRS && Leads(listing, steps[1..])
  }

  /** The path of a file below `dir`. */
  function PathOf(dir: string, steps: seq<string>): string
    decreases |steps|
  {
    if steps == [] then dir else PathOf(Join(dir, steps[0]), steps[1..])
  }

  lemma FoundBelow(dir: string, l: Listing, p: string) returns (steps: seq<string>)
    requires p in SourcesIn(dir, l)
    ensures Leads(l, steps) && p == PathOf(dir, steps)
    decreases l
  {
    hide IsSource, Join;
    var i;
    i, steps := FoundAmong(dir, l.nodes, p);
  }

  lemma FoundAmong(dir: string, ns: seq<Node>, p: string) returns (i: nat, steps: seq<string>)
    requires p in Sources(dir, ns)
    ensures i < |ns| && steps != [] && NodeLeads(ns[i], steps) && p == PathOf(dir, steps)
    decreases ns
  {
    hide IsSource, Join, NodeLeads, SourcesOf;
    if p in SourcesOf(dir, ns[0]) {
      i := 0;
      steps := FoundAt(dir, ns[0], p);
    } else {
      i, steps := FoundAmong(dir, ns[1..], p);
      i := i + 1;
    }
  }

  lemma FoundAt(dir: string, n: Node, p: string) returns (steps: seq<string>)
    requires p in SourcesOf(dir, n)
    ensures steps != [] && NodeLeads(n, steps) && p == PathOf(dir, steps)
    decreases n
  {
    hide IsSource, IsSourceName, Join;
    match n
    case File(name) =>
      SourceNames(name);
      steps := [name];
      assert steps[1..] == [];
    case Dir(name, listing) =>
      var rest := FoundBelow(Join(dir, name), listing, p);
      steps := [name] + rest;
      assert steps[1..] == rest;
  }

  lemma {:induction false} ListedBelow(dir: string, l: Listing, steps: seq<string>)
    requires Leads(l, steps)
    ensures PathOf(dir, steps) in SourcesIn(dir, l)
    decreases |steps|, 1
  {
    hide IsSource, Join, NodeLeads, PathOf;
    var i :| 0 <= i < |l.nodes| && NodeLeads(l.nodes[i], steps);
    ListedAt(dir, l.nodes[i], steps);
    ListedAmong(dir, l.nodes, i, PathOf(dir, steps));
  }

  lemma {:induction false} ListedAt(dir: string, n: Node, steps: seq<string>)
    requires steps != [] && NodeLeads(n, steps)
    ensures PathOf(dir, steps) in SourcesOf(dir, n)
    decreases |steps|, 0
  {
    hide IsSource, IsSourceName, Join, Leads, SourcesIn;
    match n
    case File(name) =>
      SourceNames(name);
      assert PathOf(dir, steps) == PathOf(Join(dir, name), []) == Join(dir, name);
    case Dir(name, listing) =>
      ListedBelow(Join(dir, name), listing, steps[1..]);
      assert PathOf(dir, steps) == PathOf(Join(dir, name), steps[1..]);
  }

  lemma {:induction false} ListedAmong(dir: string, ns: seq<Node>, i: nat, p: string)
    requires i < |ns| && p in SourcesOf(dir, ns[i])
    ensures p in Sources(dir, ns)
    decreases ns
  {
    hide SourcesOf;
    if i > 0 {
      ListedAmong(dir, ns[1..], i - 1, p);
    }
  }

  /** Found are exactly the source files that are reached without passing through an ignored directory. */
  lemma FoundExactly(root: Listing, p: string)
    ensures p in SourcesIn("", root) <==> exists steps :: Leads(root, steps) && p == PathOf("", steps)
  {
    if p in SourcesIn("", root) {
      var steps := FoundBelow("", root, p);
    }
    forall steps | Leads(root, steps) && p == PathOf("", steps)
      ensures p in SourcesIn("", root)
    {
      ListedBelow("", root, steps);
    }
  }

  /** They are listed entry by entry, in the order of the directory. */
  lemma {:induction false} ListedInOrder(dir: string, a: seq<Node>, b: seq<Node>)
    ensures Sources(dir, a + b) == Sources(dir, a) + Sources(dir, b)
    decreases |a|
  {
    hide SourcesOf;
    if a == [] {
      assert a + b == b;
    } else {
      assert (a + b)[1..] == a[1..] + b;
      ListedInOrder(dir, a[1..], b);
    }
  }

  // ---- What is measured ----

  /** One, and a branch for every fifty lines counts one more; a file has at least fifty. */
  lemma ComplexityExactly(t: Text)
    ensures (Complexity(t) - 1.0) * (if t.lines < 50 then 50 else t.lines) as real == 50.0 * t.branches as real
  {
    var lines := (if t.lines < 50 then 50 else t.lines) as real;
    var per := Max(1.0, t.lines as real / 50.0);
    Quotient(t.branches as real, per);
    assert lines == 50.0 * per;
    assert t.branches as real / per * lines == 50.0 * (t.branches as real / per * per);
  }

  /** The complexities of the readable files. */
  function TotalComplexity(targets: seq<string>, read: map<string, Text>): real {
    if targets == [] then 0.0
    else (if targets[0] in read then Complexity(read[targets[0]]) else 0.0) + TotalComplexity(targets[1..], read)
  }

  lemma {:induction false} TotalAppended(targets: seq<string>, f: string, read: map<string, Text>)
    ensures (TotalComplexity(targets + [f], read)
             == TotalComplexity(targets, read) + if f in read then Complexity(read[f]) else 0.0)
  {
    hide Complexity;
    if targets == [] {
      assert [f][1..] == [] && targets + [f] == [f];
    } else {
      assert (targets + [f])[1..] == targets[1..] + [f];
      TotalAppended(targets[1..], f, read);
    }
  }

  lemma {:induction false} SumIsTotal(targets: seq<string>, read: map<string, Text>, n: nat)
    requires n <= |targets|
    ensures ComplexitySum(targets, read, n) == TotalComplexity(targets[..n], read)
  {
    hide Complexity, TotalComplexity;
    if n > 0 {
      SumIsTotal(targets, read, n - 1);
      TotalAppended(targets[..n - 1], targets[n - 1], read);
      assert targets[..n] == targets[..n - 1] + [targets[n - 1]];
    } else {
      NothingMeasured(targets[..0], read);
    }
  }

  lemma NothingMeasured(targets: seq<string>, read: map<string, Text>)
    requires targets == []
    ensures TotalComplexity(targets, read) == 0.0
  {
  }

  /** The average is taken over all files, readable or not, and is one without any. */
  lemma AverageExactly(targets: seq<string>, read: map<string, Text>)
    ensures var d := Metrics(targets, read);
            && d.totalFiles == |targets| && d.alerts == []
            && (if targets == [] then d.avgComplexity == 1.0
                else d.avgComplexity * |targets| as real == TotalComplexity(targets, read))
  {
    hide ComplexitySum, TotalComplexity, FilesTo;
    SumIsTotal(targets, read, |targets|);
    assert targets[..|targets|] == targets;
    if targets != [] {
      Quotient(ComplexitySum(targets, read, |targets|), |targets| as real);
    }
  }

  /** A readable file has an entry under its path with forward slashes, unless a later file has the same. */
  lemma {:induction false} MeasuredExactly(targets: seq<string>, read: map<string, Text>, n: nat, i: nat)
    requires i < n <= |targets| && targets[i] in read
    requires forall j | i < j < n && targets[j] in read :: Slashed(targets[j]) != Slashed(targets[i])
    ensures var p, t := Slashed(targets[i]), read[targets[i]];
            && p in FilesTo(targets, read, n)
            && FilesTo(targets, read, n)[p]
               == FileFacts(t.hasTest, "CORE", t.telemetry, if t.documented then "DOCUMENTED" else "UNKNOWN")
  {
    hide Slashed;
    if i < n - 1 {
      MeasuredExactly(targets, read, n - 1, i);
    }
  }

  /** And there is no other entry. */
  lemma {:induction false} OnlyReadableIsMeasured(targets: seq<string>, read: map<string, Text>, n: nat, p: string)
    requires n <= |targets| && p in FilesTo(targets, read, n)
    ensures exists i | 0 <= i < n :: targets[i] in read && Slashed(targets[i]) == p
  {
    hide Slashed;
    if p !in FilesTo(targets, read, n - 1) {
      assert targets[n - 1] in read && Slashed(targets[n - 1]) == p;
    } else {
      OnlyReadableIsMeasured(targets, read, n - 1, p);
    }
  }
}

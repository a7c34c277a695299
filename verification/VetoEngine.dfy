/** `isIgnoredPath` scans a path once, without splitting it; it must say what splitting on both separators and
    looking up every segment would say. */
module VetoEngine {
  import opened Prelude

  const IGNORED_DIRS: set<string> := {
    ".git", "__pycache__", "build", "node_modules", ".venv", ".agent", ".gemini", "submodules", "dist", "target", "bin"
  }

  const LEGACY_EXTENSIONS: seq<string> := [".pyc", ".o", ".exe", ".dll", ".class"]

  predicate IsSeparator(c: char) {
    c == '/' || c == '\\'
  }

  // ---- The simple form ----

  function Split(path: string): (segments: seq<string>)
    ensures |segments| >= 1
  {
    if path == "" then [""]
    else
      var rest := Split(path[1..]);
      if IsSeparator(path[0]) then [""] + rest else [[path[0]] + rest[0]] + rest[1..]
  }

  predicate IsIgnored(path: string) {
    exists i | 0 <= i < |Split(path)| :: Split(path)[i] in IGNORED_DIRS
  }

  lemma {:induction false} SplitUnbroken(path: string)
    requires forall i | 0 <= i < |path| :: !IsSeparator(path[i])
    ensures Split(path) == [path]
  {
    if path != "" {
      SplitUnbroken(path[1..]);
      assert [path[0]] + path[1..] == path;
    }
  }

  lemma {:induction false} SplitJoin(a: string, c: char, b: string)
    requires IsSeparator(c)
    ensures Split(a + [c] + b) == Split(a) + Split(b)
  {
    if a == "" {
      assert (a + [c] + b)[1..] == b;
    } else {
      assert (a + [c] + b)[1..] == a[1..] + [c] + b;
      SplitJoin(a[1..], c, b);
    }
  }

  /** A joined path is ignored exactly when either part is. */
  lemma JoinedIsIgnored(a: string, c: char, b: string)
    requires IsSeparator(c)
    ensures IsIgnored(a + [c] + b) <==> IsIgnored(a) || IsIgnored(b)
  {
    SplitJoin(a, c, b);
    var all, n := Split(a) + Split(b), |Split(a)|;
    assert forall i | 0 <= i < n :: all[i] == Split(a)[i];
    assert forall i | 0 <= i < |Split(b)| :: all[n + i] == Split(b)[i];
  }

  /** The same characters at the same places, separators of either kind counting as the same. */
  predicate SameButSeparators(p: string, q: string) {
    |p| == |q| && forall i | 0 <= i < |p| :: p[i] == q[i] || (IsSeparator(p[i]) && IsSeparator(q[i]))
  }

  lemma {:induction false} SeparatorsAreAlike(p: string, q: string)
    requires SameButSeparators(p, q)
    ensures Split(p) == Split(q) && IsIgnored(p) == IsIgnored(q)
    decreases |p|
  {
    if p != "" {
      SeparatorsAreAlike(p[1..], q[1..]);
    }
  }

  /** A single segment is ignored when it is one of eleven names; with `JoinedIsIgnored` this decides every path. */
  lemma SegmentIsIgnored(segment: string)
    requires forall i | 0 <= i < |segment| :: segment[i] != '/' && segment[i] != '\\'
    ensures (IsIgnored(segment)
             <==> segment in {".git", "__pycache__", "build", "node_modules", ".venv", ".agent", ".gemini", "submodules",
                              "dist", "target", "bin"})
  {
    SplitUnbroken(segment);
    assert Split(segment)[0] == segment;
  }

  // ---- The fast form ----

  method IsIgnoredPath(filePath: string) returns (ignored: bool)
    ensures ignored <==> IsIgnored(filePath)
  {
    if filePath == "" {
      assert Split(filePath) == [""];
      return false;
    }
    var start, i := 0, 0;
    while i <= |filePath|
      invariant 0 <= start <= i <= |filePath| + 1
      invariant i <= |filePath| ==> forall j | start <= j < i :: !IsSeparator(filePath[j])
      invariant i <= |filePath| ==> (IsIgnored(filePath) <==> IsIgnored(filePath[start..]))
      invariant i > |filePath| ==> !IsIgnored(filePath)
    {
      if i == |filePath| || IsSeparator(filePath[i]) {
        var segment := filePath[start..i];
        SplitUnbroken(segment);
        if i < |filePath| {
          assert filePath[start..] == segment + [filePath[i]] + filePath[i + 1..];
          JoinedIsIgnored(segment, filePath[i], filePath[i + 1..]);
        } else {
          assert filePath[start..] == segment;
        }
        assert IsIgnored(segment) <==> Split(segment)[0] in IGNORED_DIRS;
        if i > start && segment in IGNORED_DIRS {
          return true;
        }
        start := i + 1;
      }
      i := i + 1;
    }
    ignored := false;
  }

  // ---- The verdict ----

  datatype Veto = NoVeto | Infrastructure | LegacyArtifact | SecurityRisk

  predicate IsLegacy(path: string) {
    exists i | 0 <= i < |LEGACY_EXTENSIONS| :: EndsWith(path, LEGACY_EXTENSIONS[i])
  }

  const ARTIFACT_ENDINGS := {".pyc", ".o", ".exe", ".dll", ".class"}

  lemma EndingIsListed(e: string)
    ensures e in ARTIFACT_ENDINGS <==> e in LEGACY_EXTENSIONS
  {
  }

  /** Compiled and cached files are told by the end of their names. */
  lemma LegacyExactly(path: string)
    ensures IsLegacy(path) <==> exists e | e in ARTIFACT_ENDINGS :: EndsWith(path, e)
  {
    hide EndsWith;
    if e :| e in ARTIFACT_ENDINGS && EndsWith(path, e) {
      EndingIsListed(e);
      var k :| 0 <= k < |LEGACY_EXTENSIONS| && LEGACY_EXTENSIONS[k] == e;
    }
    if k :| 0 <= k < |LEGACY_EXTENSIONS| && EndsWith(path, LEGACY_EXTENSIONS[k]) {
      EndingIsListed(LEGACY_EXTENSIONS[k]);
    }
  }

  /** Each reason is given only when none before it applies, and any of them vetoes. */
  method ShouldVeto(relPath: string) returns (v: Veto)
    ensures v == Infrastructure <==> IsIgnored(relPath)
    ensures v == LegacyArtifact <==> !IsIgnored(relPath) && IsLegacy(relPath)
    ensures v == NoVeto <==> !IsIgnored(relPath) && !IsLegacy(relPath)
                             && !HasSubstring(relPath, "/secrets/") && !HasSubstring(relPath, "/internal/keys/")
  {
    var ignored := IsIgnoredPath(relPath);
    if ignored {
      return Infrastructure;
    }
    for i := 0 to |LEGACY_EXTENSIONS|
      invariant forall j | 0 <= j < i :: !EndsWith(relPath, LEGACY_EXTENSIONS[j])
    {
      if EndsWith(relPath, LEGACY_EXTENSIONS[i]) {
        return LegacyArtifact;
      }
    }
    v := if HasSubstring(relPath, "/secrets/") || HasSubstring(relPath, "/internal/keys/") then SecurityRisk else NoVeto;
  }
}

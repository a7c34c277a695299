/** How many points a code base gets, told on its files and alerts. */
module ScoringLaws {
  import opened Scoring

  // ---- Severities ----

  /** The same characters, those from A to Z standing for their small forms in `s`. */
  predicate Spells(s: string, small: string) {
    |s| == |small| && forall i | 0 <= i < |s| ::
      if 'A' <= s[i] <= 'Z' then small[i] as int == s[i] as int + 32 else small[i] == s[i]
  }

  lemma LowerSpells(s: string, small: string)
    ensures Lower(s) == small <==> Spells(s, small)
  {
    var low := Lower(s);
    assert forall i | 0 <= i < |s| :: 'A' <= s[i] <= 'Z' ==> low[i] as int == s[i] as int + 32;
    if Spells(s, small) {
      forall i | 0 <= i < |s|
        ensures low[i] == small[i]
      {
      }
    }
  }

  predicate IsHigh(a: Alert) {
    a.Finding? && (Spells(a.severity, "critical") || Spells(a.severity, "high"))
  }

  predicate IsMedium(a: Alert) {
    a.Finding? && Spells(a.severity, "medium")
  }

  predicate IsLow(a: Alert) {
    a.Finding? && !IsHigh(a) && !IsMedium(a)
  }

  function Those(alerts: seq<Alert>, p: Alert -> bool): set<nat> {
    set i: nat | i < |alerts| && p(alerts[i])
  }

  function HighOnes(alerts: seq<Alert>): set<nat> {
    Those(alerts, IsHigh)
  }

  function MediumOnes(alerts: seq<Alert>): set<nat> {
    Those(alerts, IsMedium)
  }

  function LowOnes(alerts: seq<Alert>): set<nat> {
    Those(alerts, IsLow)
  }

  lemma OneMore(init: seq<Alert>, a: Alert, p: Alert -> bool)
    ensures |Those(init + [a], p)| == |Those(init, p)| + if p(a) then 1 else 0
  {
    var n: nat, all := |init|, init + [a];
    assert all[n] == a && forall i | 0 <= i < n :: all[i] == init[i];
    assert Those(all, p) == Those(init, p) + if p(a) then {n} else {};
  }

  lemma CategorisedExactly(c: Counts, a: Alert)
    ensures var r := Categorised(c, a);
            && r.high == c.high + (if IsHigh(a) then 1 else 0) && r.med == c.med + (if IsMedium(a) then 1 else 0)
            && r.low == c.low + (if IsLow(a) then 1 else 0)
            && r.high + r.med + r.low + r.strat == c.high + c.med + c.low + c.strat + 1
  {
    if a.Finding? {
      hide Spells, Lower;
      LowerSpells(a.severity, "critical");
      LowerSpells(a.severity, "high");
      LowerSpells(a.severity, "medium");
      assert "medium" != "critical" && "medium" != "high";
    }
  }

  /** Every alert with a severity is counted once: as high, in any case, when critical or high, as medium, or as low. */
  lemma {:induction false} CountsExactly(alerts: seq<Alert>)
    ensures var c := CountAll(alerts);
            && c.high == |HighOnes(alerts)| && c.med == |MediumOnes(alerts)| && c.low == |LowOnes(alerts)|
            && c.high + c.med + c.low + c.strat == |alerts|
  {
    hide Categorised, IsHigh, IsMedium, IsLow;
    if alerts == [] {
      NoneAtAll(IsHigh);
      NoneAtAll(IsMedium);
      NoneAtAll(IsLow);
    } else {
      hide Those;
      var init, a := alerts[..|alerts| - 1], alerts[|alerts| - 1];
      CountsExactly(init);
      CategorisedExactly(CountAll(init), a);
      assert init + [a] == alerts;
      OneMore(init, a, IsHigh);
      OneMore(init, a, IsMedium);
      OneMore(init, a, IsLow);
    }
  }

  lemma NoneAtAll(p: Alert -> bool)
    ensures |Those([], p)| == 0
  {
    assert Those([], p) == {};
  }

  // ---- Points ----

  /** `points` is the part of `weight` that `k` is of `total`. */
  predicate InProportion(points: real, k: nat, total: nat, weight: real) {
    points * total as real == k as real * weight
  }

  lemma ShareIsProportion(s: set<string>, total: nat, weight: real)
    requires total > 0
    ensures InProportion(Share(s, total) * weight, |s|, total, weight)
  {
    var x, t := Share(s, total), total as real;
    Quotient(|s| as real, t);
    assert x * weight * t == x * t * weight;
  }

  /** 35 points for the tested files, 10 for the observed ones and 10 for those of a known purpose, each in proportion to
      all files. */
  lemma SharesExactly(d: Data)
    requires d.totalFiles > 0
    ensures var h, n := HealthOf(d), d.totalFiles;
            && InProportion(h.stability, |set f | f in d.files && d.files[f].hasTest|, n, 35.0)
            && InProportion(
                 h.observability, |set f | f in d.files && d.files[f].telemetry && d.files[f].componentType != "TEST"|, n, 10.0)
            && InProportion(h.excellence, |set f | f in d.files && d.files[f].purpose !in {"", "UNKNOWN"}|, n, 10.0)
  {
    hide CountAll, Share, HealthOf, Tested, Observed, Purposeful, InProportion;
    SharesAre(d);
    ShareIsProportion(Tested(d.files), d.totalFiles, 35.0);
    ShareIsProportion(Observed(d.files), d.totalFiles, 10.0);
    ShareIsProportion(Purposeful(d.files), d.totalFiles, 10.0);
    SetsAre(d.files);
  }

  lemma SharesAre(d: Data)
    requires d.totalFiles > 0
    ensures var h := HealthOf(d);
            && h.stability == Share(Tested(d.files), d.totalFiles) * 35.0
            && h.observability == Share(Observed(d.files), d.totalFiles) * 10.0
            && h.excellence == Share(Purposeful(d.files), d.totalFiles) * 10.0
  {
    hide CountAll, Share, Tested, Observed, Purposeful, Constrained, Security, VetoThreshold, LevelOf, Purity;
  }

  lemma SetsAre(files: map<string, FileFacts>)
    ensures Tested(files) == set f | f in files && files[f].hasTest
    ensures Observed(files) == set f | f in files && files[f].telemetry && files[f].componentType != "TEST"
    ensures Purposeful(files) == set f | f in files && files[f].purpose !in {"", "UNKNOWN"}
  {
    assert forall f | f in files :: f in Observed(files) <==> files[f].telemetry && files[f].componentType != "TEST";
    assert forall f | f in files :: f in Purposeful(files) <==> files[f].purpose !in {"", "UNKNOWN"};
  }

  /** 15 points less one and a half for each unit of average complexity above one, and 15 less five for each high alert;
      neither below zero. */
  lemma DeductionsExactly(d: Data)
    requires d.totalFiles > 0
    ensures var h, high := HealthOf(d), |HighOnes(d.alerts)|;
            && h.purity == (if d.avgComplexity > 11.0 then 0.0 else 16.5 - 1.5 * d.avgComplexity)
            && h.security == (if high >= 3 then 0.0 else if high == 2 then 5.0 else if high == 1 then 10.0 else 15.0)
  {
    hide CountAll, Share, Tested, Observed, Purposeful, Constrained, HighOnes, MediumOnes, LowOnes;
    CountsExactly(d.alerts);
  }

  /** What the alerts do to the total: the compliance points and the ceiling on the sum, both by the number of high alerts
      and, without any, by the number of medium ones; and a fifth of a weighted count off what is left. */
  lemma TotalExactly(d: Data)
    requires d.totalFiles > 0
    ensures var h, high, med, low := HealthOf(d), |HighOnes(d.alerts)|, |MediumOnes(d.alerts)|, |LowOnes(d.alerts)|;
            var sum := h.stability + h.purity + h.observability + h.security + h.excellence + h.compliance;
            var (points, ceiling) :=
              if high >= 6 then (1.5, 20.0) else if high >= 3 then (4.5, 40.0) else if high >= 1 then (7.5, 60.0)
              else if med >= 6 then (10.5, 85.0) else if med >= 1 then (13.5, 95.0) else (15.0, 100.0);
            var left := (if sum < ceiling then sum else ceiling) - (3 * high + med) as real - low as real / 5.0;
            h.compliance == points && h.total == if left < 0.0 then 0.0 else left
  {
    hide CountAll, Share, Purity, Tested, Observed, Purposeful, HighOnes, MediumOnes, LowOnes;
    CountsExactly(d.alerts);
  }

  /** Without files there is nothing to score. */
  lemma EmptyScoresNothing(d: Data)
    requires d.totalFiles == 0
    ensures HealthOf(d) == Health(0.0, 0.0, 0.0, 0.0, 0.0, 0.0, 0.0)
  {
  }
}

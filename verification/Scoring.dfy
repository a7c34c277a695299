/** The health score of a code base, over the reals and before rounding. */
module Scoring {
  datatype FileFacts = FileFacts(hasTest: bool, componentType: string, telemetry: bool, purpose: string)

  /** An alert that is not an object counts as strategic; otherwise its severity decides. */
  datatype Alert = Strategic | Finding(severity: string)

  datatype Data = Data(files: map<string, FileFacts>, alerts: seq<Alert>, totalFiles: nat, avgComplexity: real)

  datatype Health = Health(
    stability: real, purity: real, observability: real, security: real, excellence: real, compliance: real, total: real)
  {
    function Sum(): real {
      stability + purity + observability + security + excellence + compliance
    }
  }

  const EMPTY := Health(0.0, 0.0, 0.0, 0.0, 0.0, 0.0, 0.0)

  function Max(x: real, y: real): (r: real)
    ensures r >= x && r >= y && (r == x || r == y)
  {
    if x >= y then x else y
  }

  function Least(x: real, y: real): (r: real)
    ensures r <= x && r <= y && (r == x || r == y)
  {
    if x <= y then x else y
  }

  // ---- The components ----

  function Tested(files: map<string, FileFacts>): set<string> {
    set f | f in files && files[f].hasTest
  }

  function Observed(files: map<string, FileFacts>): set<string> {
    set f | f in files && files[f].componentType != "TEST" && files[f].telemetry
  }

  function Purposeful(files: map<string, FileFacts>): set<string> {
    set f | f in files && files[f].purpose != "" && files[f].purpose != "UNKNOWN"
  }

  function Share(s: set<string>, total: nat): real
    requires total > 0
  {
    |s| as real / total as real
  }

  function Purity(avg: real): real {
    Max(0.0, 15.0 - (avg - 1.0) * 1.5)
  }

  datatype Counts = Counts(high: nat, med: nat, low: nat, strat: nat)

  const NO_ALERTS := Counts(0, 0, 0, 0)

  function Lower(s: string): string {
    seq(|s|, i requires 0 <= i < |s| => if 'A' <= s[i] <= 'Z' then s[i] + ' ' else s[i])
  }

  function Categorised(c: Counts, a: Alert): Counts {
    match a
    case Strategic => c.(strat := c.strat + 1)
    case Finding(severity) =>
      var sev := Lower(severity);
      if sev == "critical" || sev == "high" then c.(high := c.high + 1)
      else if sev == "medium" then c.(med := c.med + 1)
      else c.(low := c.low + 1)
  }

  function CountAll(alerts: seq<Alert>): Counts {
    if alerts == [] then NO_ALERTS else Categorised(CountAll(alerts[..|alerts| - 1]), alerts[|alerts| - 1])
  }

  // ---- Compliance ----

  datatype Level = Sovereign | Excellent | Standard | Substandard | Degraded | Critical

  function LevelOf(high: nat, med: nat): Level {
    if high > 5 then Critical
    else if high > 2 then Degraded
    else if high > 0 then Substandard
    else if med > 5 then Standard
    else if med > 0 then Excellent
    else Sovereign
  }

  function Ceiling(l: Level): real {
    match l
    case Critical => 20.0
    case Degraded => 40.0
    case Substandard => 60.0
    case Standard => 85.0
    case Excellent => 95.0
    case Sovereign => 100.0
  }

  function VetoThreshold(l: Level): real {
    match l
    case Critical => 0.1
    case Degraded => 0.3
    case Substandard => 0.5
    case Standard => 0.7
    case Excellent => 0.9
    case Sovereign => 1.0
  }

  function Security(c: Counts): real {
    Max(0.0, 15.0 - c.high as real * 5.0)
  }

  function Penalty(c: Counts): real {
    (15 * c.high + 5 * c.med + c.low) as real * 0.2
  }

  function Constrained(raw: real, c: Counts): real {
    Max(0.0, Least(raw, Ceiling(LevelOf(c.high, c.med))) - Penalty(c))
  }

  function Components(d: Data, c: Counts): Health
    requires d.totalFiles > 0
  {
    Health(Share(Tested(d.files), d.totalFiles) * 35.0, Purity(d.avgComplexity),
           Share(Observed(d.files), d.totalFiles) * 10.0, Security(c),
           Share(Purposeful(d.files), d.totalFiles) * 10.0, VetoThreshold(LevelOf(c.high, c.med)) * 15.0, 0.0)
  }

  function HealthOf(d: Data): Health {
    if d.totalFiles == 0 then EMPTY
    else
      var c := CountAll(d.alerts);
      var h := Components(d, c);
      h.(total := Constrained(h.Sum(), c))
  }

  // ---- The engine ----

  /** The counters, updated in place. */
  class AlertCounts {
    var high: nat
    var med: nat
    var low: nat
    var strat: nat

    constructor ()
      ensures Value() == NO_ALERTS
    {
      high, med, low, strat := 0, 0, 0, 0;
    }

    function Value(): Counts
      reads this
    {
      Counts(high, med, low, strat)
    }

    method CategoriseAlert(a: Alert)
      modifies this
      ensures Value() == Categorised(old(Value()), a)
    {
      if a.Strategic? {
        strat := strat + 1;
        return;
      }
      var sev := Lower(a.severity);
      if sev == "critical" || sev == "high" {
        high := high + 1;
      } else if sev == "medium" {
        med := med + 1;
      } else {
        low := low + 1;
      }
    }
  }

  method CalcSecurity(alerts: seq<Alert>) returns (security: real, c: Counts)
    ensures c == CountAll(alerts) && security == Security(c)
  {
    var counts := new AlertCounts();
    var i := 0;
    while i < |alerts|
      invariant i <= |alerts| && fresh(counts) && counts.Value() == CountAll(alerts[..i])
    {
      assert alerts[..i + 1][..i] == alerts[..i];
      counts.CategoriseAlert(alerts[i]);
      i := i + 1;
    }
    assert alerts[..i] == alerts;
    c := counts.Value();
    security := Max(0.0, 15.0 - counts.high as real * 5.0);
  }

  method CalculateHealth(d: Data) returns (h: Health)
    ensures h == HealthOf(d)
  {
    if d.totalFiles == 0 {
      return EMPTY;
    }
    var security, c := CalcSecurity(d.alerts);
    h := Components(d, c);
    h := h.(total := Constrained(h.Sum(), c));
  }

  // ---- Bounds ----

  lemma Subsets(files: map<string, FileFacts>)
    ensures |Tested(files)| <= |files| && |Observed(files)| <= |files| && |Purposeful(files)| <= |files|
  {
    assert Tested(files) <= files.Keys && Observed(files) <= files.Keys && Purposeful(files) <= files.Keys;
    SubsetIsSmaller(Tested(files), files.Keys);
    SubsetIsSmaller(Observed(files), files.Keys);
    SubsetIsSmaller(Purposeful(files), files.Keys);
  }

  lemma {:induction false} SubsetIsSmaller(a: set<string>, b: set<string>)
    requires a <= b
    ensures |a| <= |b|
  {
    if a != {} {
      var x :| x in a;
      SubsetIsSmaller(a - {x}, b - {x});
    }
  }

  lemma Quotient(x: real, t: real)
    requires t > 0.0
    ensures (x / t) * t == x
  {
  }

  lemma NegativeProduct(x: real, t: real)
    requires x < 0.0 && t > 0.0
    ensures x * t < 0.0
  {
  }

  /** A share grows with its numerator. */
  lemma ShareGrows(k: real, n: real, total: real)
    requires k <= n && total > 0.0
    ensures k / total <= n / total && (n <= total ==> n / total <= 1.0) && (k >= 0.0 ==> k / total >= 0.0)
  {
    var a, b := k / total, n / total;
    Quotient(k, total);
    Quotient(n, total);
    assert (b - a) * total == n - k && (1.0 - b) * total == total - n;
    if b < a {
      NegativeProduct(b - a, total);
    }
    if 1.0 < b {
      NegativeProduct(1.0 - b, total);
    }
    if a < 0.0 {
      NegativeProduct(a, total);
    }
  }

  lemma ComponentsArePositive(d: Data, c: Counts)
    requires d.totalFiles > 0
    ensures var h := Components(d, c);
            && h.stability >= 0.0 && h.purity >= 0.0 && h.observability >= 0.0 && h.security >= 0.0
            && h.excellence >= 0.0 && h.compliance > 0.0
  {
    hide Tested, Observed, Purposeful;
    var t := d.totalFiles as real;
    ShareGrows(0.0, |Tested(d.files)| as real, t);
    ShareGrows(0.0, |Observed(d.files)| as real, t);
    ShareGrows(0.0, |Purposeful(d.files)| as real, t);
    assert 0.0 / t == 0.0;
  }

  /** The total lies between zero and the ceiling of the compliance level. */
  lemma TotalWithinCeiling(d: Data)
    ensures var c := CountAll(d.alerts);
            0.0 <= HealthOf(d).total <= Ceiling(LevelOf(c.high, c.med))
  {
  }

  /** Without alerts the total is the sum of the components, unless that exceeds 100. */
  lemma TotalWithoutAlerts(d: Data)
    requires d.alerts == []
    ensures HealthOf(d).total == Least(HealthOf(d).Sum(), 100.0)
  {
    if d.totalFiles > 0 {
      ComponentsArePositive(d, NO_ALERTS);
    }
  }

  lemma WholeSubset(a: set<string>, b: set<string>)
    requires a <= b
    ensures |a| == |b| <==> a == b
  {
    SubsetIsSmaller(a, b);
    if a != b {
      var x :| x in b && x !in a;
      SubsetIsSmaller(a, b - {x});
    }
  }

  lemma FullShare(a: set<string>, b: set<string>, weight: real)
    requires a <= b && |b| > 0 && weight > 0.0
    ensures Share(a, |b|) * weight == weight <==> a == b
  {
    WholeSubset(a, b);
    SubsetIsSmaller(a, b);
    var x := Share(a, |b|);
    assert x * |b| as real == |a| as real;
    assert x * weight == weight <==> x == 1.0;
  }

  /** Which files earn which points: stability is full exactly when every file has a test, observability when every
      file is one with telemetry that is not itself a test, excellence when every file has a known purpose; purity
      when the average complexity is one; security and compliance when no alert is high, or none above low. */
  lemma FullMarksExactly(d: Data)
    requires |d.files| == d.totalFiles > 0
    ensures var h := HealthOf(d);
            && (h.stability == 35.0 <==> Tested(d.files) == d.files.Keys)
            && (h.observability == 10.0 <==> Observed(d.files) == d.files.Keys)
            && (h.excellence == 10.0 <==> Purposeful(d.files) == d.files.Keys)
            && (h.purity == 15.0 <==> d.avgComplexity == 1.0)
            && (h.security == 15.0 <==> CountAll(d.alerts).high == 0)
            && (h.compliance == 15.0 <==> CountAll(d.alerts).high == CountAll(d.alerts).med == 0)
  {
    hide CountAll, Share;
    var files := d.files.Keys;
    FullShare(Tested(d.files), files, 35.0);
    FullShare(Observed(d.files), files, 10.0);
    FullShare(Purposeful(d.files), files, 10.0);
  }

  // ---- Alerts ----

  /** Removing one alert from any place takes exactly that alert from the counts. */
  lemma {:induction false} CountInserted(a: seq<Alert>, i: nat, x: Alert)
    requires i <= |a|
    ensures CountAll(a[..i] + [x] + a[i..]) == Categorised(CountAll(a), x)
  {
    hide Lower;
    var b := a[..i] + [x] + a[i..];
    if i == |a| {
      assert b[..|b| - 1] == a;
    } else {
      var init := a[..|a| - 1];
      assert b[..|b| - 1] == init[..i] + [x] + init[i..];
      CountInserted(init, i, x);
    }
  }

  lemma RemovedAt(b: seq<Alert>, k: nat)
    requires k < |b|
    ensures multiset(b) == multiset(b[..k] + b[k + 1..]) + multiset{b[k]}
  {
    assert b == b[..k] + [b[k]] + b[k + 1..];
  }

  lemma Cancelled(m: multiset<Alert>, n: multiset<Alert>, x: Alert)
    requires m + multiset{x} == n + multiset{x}
    ensures m == n
  {
    assert m == m + multiset{x} - multiset{x} == n;
  }

  lemma {:induction false} CountIgnoresOrder(a: seq<Alert>, b: seq<Alert>)
    requires multiset(a) == multiset(b)
    ensures CountAll(a) == CountAll(b)
    decreases |a|
  {
    if a == [] {
      assert |multiset(b)| == 0;
    } else {
      hide Categorised;
      var init, x := a[..|a| - 1], a[|a| - 1];
      assert x in multiset(a);
      var k :| 0 <= k < |b| && b[k] == x;
      var rest := b[..k] + b[k + 1..];
      RemovedAt(a, |a| - 1);
      assert a[..|a| - 1] + a[|a| - 1 + 1..] == init;
      RemovedAt(b, k);
      Cancelled(multiset(init), multiset(rest), x);
      CountIgnoresOrder(init, rest);
      CountRemoved(b, k);
    }
  }

  lemma CountRemoved(b: seq<Alert>, k: nat)
    requires k < |b|
    ensures CountAll(b) == Categorised(CountAll(b[..k] + b[k + 1..]), b[k])
  {
    hide CountAll, Categorised;
    var rest := b[..k] + b[k + 1..];
    CountInserted(rest, k, b[k]);
    assert rest[..k] + [b[k]] + rest[k..] == b;
  }

  /** The order of the alerts does not matter. */
  lemma OrderOfAlerts(d: Data, alerts: seq<Alert>)
    requires multiset(alerts) == multiset(d.alerts)
    ensures HealthOf(d.(alerts := alerts)) == HealthOf(d)
  {
    CountIgnoresOrder(alerts, d.alerts);
  }

  lemma CategorisedIsWorse(c: Counts, a: Alert)
    ensures var w := Categorised(c, a);
            && c.high <= w.high && c.med <= w.med && c.low <= w.low
  {
  }

  lemma WorseCountsScoreLess(d: Data, c: Counts, w: Counts)
    requires d.totalFiles > 0 && c.high <= w.high && c.med <= w.med && c.low <= w.low
    ensures Constrained(Components(d, w).Sum(), w) <= Constrained(Components(d, c).Sum(), c)
  {
    hide Tested, Observed, Purposeful, Share, Purity;
    var l, m := LevelOf(c.high, c.med), LevelOf(w.high, w.med);
    assert Ceiling(m) <= Ceiling(l) && VetoThreshold(m) <= VetoThreshold(l);
    assert Security(w) <= Security(c);
    assert Components(d, w).Sum() <= Components(d, c).Sum();
    assert Penalty(c) <= Penalty(w);
  }

  /** One more alert, wherever it is put, never raises the total. */
  lemma AnotherAlertNeverHelps(d: Data, i: nat, x: Alert)
    requires i <= |d.alerts|
    ensures HealthOf(d.(alerts := d.alerts[..i] + [x] + d.alerts[i..])).total <= HealthOf(d).total
  {
    hide Categorised, Constrained, Components, CountAll;
    CountInserted(d.alerts, i, x);
    CategorisedIsWorse(CountAll(d.alerts), x);
    if d.totalFiles > 0 {
      var worse := d.(alerts := d.alerts[..i] + [x] + d.alerts[i..]);
      AlertsOnlyCount(d, worse, CountAll(worse.alerts));
      WorseCountsScoreLess(d, CountAll(d.alerts), CountAll(worse.alerts));
    }
  }

  lemma AlertsOnlyCount(d: Data, e: Data, c: Counts)
    requires d.totalFiles > 0 && e == d.(alerts := e.alerts)
    ensures Components(e, c) == Components(d, c)
  {
  }
}

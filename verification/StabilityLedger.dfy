/** The ledger of unstable files: what audits and parity checks record, and when a file counts as healed. */
module StabilityLedger {
  import opened Prelude

  datatype Status = Unstable | Disparity | Healed | Reference

  /** A gold entry is created without a count, and adding to a missing count gives NaN for good. */
  datatype Count = Absent | NaN | Exactly(n: nat)

  datatype Note = Gold | Reported(at: nat) | ParityError(target: string, discrepancies: seq<string>)

  datatype Entry = Entry(status: Status, occurrences: Count, history: seq<Note>, meta: map<string, string>)

  type Ledger = map<string, Entry>

  /** A finding; `at` is the time at which it is recorded. */
  datatype Issue = Issue(file: Option<string>, at: nat)

  const STRATEGIC := "Strategic/DNA"
  const SKILLS := ".agent/skills"
  const NEW_ENTRY := Entry(Unstable, Exactly(0), [], map[])
  const GOLD_ENTRY := Entry(Reference, Absent, [Gold], map[])

  function FileOf(issue: Issue): string {
    if issue.file.Some? && issue.file.value != "" then Slashed(issue.file.value) else STRATEGIC
  }

  function Plus(c: Count, k: nat): Count {
    if k == 0 then c else if c.Exactly? then Exactly(c.n + k) else NaN
  }

  function Get(l: Ledger, f: string): Option<Entry> {
    if f in l then Some(l[f]) else None
  }

  // ---- One update ----

  function Maintained(l: Ledger, internal: bool): Ledger {
    if internal then l else l - {SKILLS}
  }

  function Bump(e: Entry, at: nat): Entry {
    Entry(if e.status == Reference then Reference else Unstable, Plus(e.occurrences, 1), e.history + [Reported(at)], e.meta)
  }

  function Record(l: Ledger, issue: Issue, gold: set<string>): Ledger {
    var f := FileOf(issue);
    if f in gold then (if f in l then l else l[f := GOLD_ENTRY])
    else l[f := Bump(Get(l, f).GetOr(NEW_ENTRY), issue.at)]
  }

  function RecordAll(l: Ledger, issues: seq<Issue>, gold: set<string>): Ledger {
    if issues == [] then l else Record(RecordAll(l, issues[..|issues| - 1], gold), issues[|issues| - 1], gold)
  }

  function Files(issues: seq<Issue>): set<string> {
    if issues == [] then {} else Files(issues[..|issues| - 1]) + {FileOf(issues[|issues| - 1])}
  }

  predicate Healable(f: string, e: Entry, reported: set<string>) {
    f != STRATEGIC && e.status != Reference && f !in reported && e.status != Healed
  }

  function Heal(e: Entry): Entry {
    e.(status := Healed, occurrences := Exactly(0))
  }

  function HealAll(l: Ledger, reported: set<string>): Ledger {
    map f | f in l :: if Healable(f, l[f], reported) then Heal(l[f]) else l[f]
  }

  function Update(l: Ledger, issues: seq<Issue>, gold: set<string>, internal: bool): Ledger {
    HealAll(RecordAll(Maintained(l, internal), issues, gold), Files(issues))
  }

  datatype Parity = Parity(source: string, target: string, discrepancies: seq<string>, severity: string)

  function Differ(e: Entry, p: Parity): Entry {
    Entry(Disparity, Plus(e.occurrences, 1), e.history + [ParityError(p.target, p.discrepancies)],
          e.meta["lastSiblingDisparity" := p.target]["severity" := p.severity])
  }

  function Register(l: Ledger, p: Parity): Ledger {
    var f := Slashed(p.source);
    l[f := Differ(Get(l, f).GetOr(NEW_ENTRY), p)]
  }

  function Cleared(l: Ledger): Ledger {
    map f | f in l && l[f].status == Reference :: l[f]
  }

  // ---- What one update means for one file ----

  /** The times at which the findings on `f` were recorded. */
  function TimesOf(issues: seq<Issue>, f: string): seq<nat> {
    if issues == [] then []
    else
      var last := issues[|issues| - 1];
      TimesOf(issues[..|issues| - 1], f) + if FileOf(last) == f then [last.at] else []
  }

  function Notes(times: seq<nat>): seq<Note> {
    seq(|times|, i requires 0 <= i < |times| => Reported(times[i]))
  }

  /** An entry after the findings on its file. */
  function AfterFindings(e: Option<Entry>, times: seq<nat>, gold: bool): Option<Entry> {
    if times == [] then e
    else if gold then Some(e.GetOr(GOLD_ENTRY))
    else
      var b := e.GetOr(NEW_ENTRY);
      Some(b.(occurrences := Plus(b.occurrences, |times|), history := b.history + Notes(times),
              status := if b.status == Reference then Reference else Unstable))
  }

  /** An entry after the search for healed files. */
  function AfterHealing(e: Option<Entry>, f: string, reported: bool): Option<Entry> {
    if e.Some? && !reported && f != STRATEGIC && e.value.status != Reference && e.value.status != Healed
    then Some(Heal(e.value)) else e
  }

  lemma {:induction false} TimesOfFiles(issues: seq<Issue>, f: string)
    ensures TimesOf(issues, f) != [] <==> f in Files(issues)
  {
    hide FileOf;
    if issues != [] {
      TimesOfFiles(issues[..|issues| - 1], f);
    }
  }

  lemma OneMoreFinding(e: Option<Entry>, times: seq<nat>, at: nat, gold: bool)
    ensures var b := AfterFindings(e, times, gold);
            AfterFindings(e, times + [at], gold)
            == if gold then Some(b.GetOr(GOLD_ENTRY)) else Some(Bump(b.GetOr(NEW_ENTRY), at))
  {
    assert Notes(times + [at]) == Notes(times) + [Reported(at)];
    var h := e.GetOr(NEW_ENTRY).history;
    assert h + (Notes(times) + [Reported(at)]) == h + Notes(times) + [Reported(at)];
    assert Notes([]) == [] && h + [] == h;
  }

  lemma {:induction false} RecordAllIs(l: Ledger, issues: seq<Issue>, gold: set<string>, f: string)
    ensures Get(RecordAll(l, issues, gold), f) == AfterFindings(Get(l, f), TimesOf(issues, f), f in gold)
  {
    hide Bump, AfterFindings, FileOf;
    if issues == [] {
      NoFindings(Get(l, f), f in gold);
    } else {
      var init, last := issues[..|issues| - 1], issues[|issues| - 1];
      RecordAllIs(l, init, gold, f);
      OneMoreFinding(Get(l, f), TimesOf(init, f), last.at, f in gold);
      assert TimesOf(init, f) + [] == TimesOf(init, f);
    }
  }

  lemma NoFindings(e: Option<Entry>, gold: bool)
    ensures AfterFindings(e, [], gold) == e
  {
  }

  /** An update acts on each file on its own: a reported file that is not gold gains exactly its findings, in count
      and in history; a reported gold file only gains an entry; and an unreported one is healed, unless it is a
      reference or stands for the strategic findings. */
  lemma UpdateIs(l: Ledger, issues: seq<Issue>, gold: set<string>, internal: bool, f: string)
    ensures var times := TimesOf(issues, f);
            Get(Update(l, issues, gold, internal), f)
            == AfterHealing(AfterFindings(Get(Maintained(l, internal), f), times, f in gold), f, times != [])
  {
    hide AfterFindings, RecordAll;
    RecordAllIs(Maintained(l, internal), issues, gold, f);
    TimesOfFiles(issues, f);
  }

  /** The order of the findings on different files does not matter, only the findings on each file. */
  lemma UpdateDependsOnFindingsPerFile(l: Ledger, a: seq<Issue>, b: seq<Issue>, gold: set<string>, internal: bool)
    requires forall f :: TimesOf(a, f) == TimesOf(b, f)
    ensures Update(l, a, gold, internal) == Update(l, b, gold, internal)
  {
    hide Update, AfterFindings, AfterHealing;
    var x, y := Update(l, a, gold, internal), Update(l, b, gold, internal);
    forall f
      ensures Get(x, f) == Get(y, f)
    {
      UpdateIs(l, a, gold, internal, f);
      UpdateIs(l, b, gold, internal, f);
    }
    assert forall f :: f in x <==> Get(x, f).Some?;
    assert forall f :: f in y <==> Get(y, f).Some?;
    assert forall f | f in x :: x[f] == Get(x, f).value == Get(y, f).value == y[f];
  }

  // ---- Runs ----

  datatype Event = Audited(issues: seq<Issue>, gold: set<string>) | Disparate(parity: Parity) | Clear

  function Apply(l: Ledger, e: Event, internal: bool): Ledger {
    match e
    case Audited(issues, gold) => Update(l, issues, gold, internal)
    case Disparate(p) => Register(l, p)
    case Clear => Cleared(l)
  }

  /** From the empty ledger. */
  function Run(es: seq<Event>, internal: bool): Ledger {
    if es == [] then map[] else Apply(Run(es[..|es| - 1], internal), es[|es| - 1], internal)
  }

  /** Healed means a count of zero; a count never exceeds the history; only references lack a count. */
  predicate Consistent(e: Entry) {
    && (e.status == Healed <==> e.occurrences == Exactly(0))
    && (e.occurrences.Exactly? ==> e.occurrences.n <= |e.history|)
    && (e.status == Reference ==> !e.occurrences.Exactly?)
    && (e.occurrences == Absent ==> e.status == Reference)
  }

  predicate ConsistentOption(e: Option<Entry>) {
    e.Some? ==> Consistent(e.value)
  }

  lemma FindingsKeepConsistent(e: Option<Entry>, times: seq<nat>, gold: bool, f: string)
    requires ConsistentOption(e)
    ensures ConsistentOption(AfterHealing(AfterFindings(e, times, gold), f, times != []))
  {
  }

  lemma DisparityKeepsConsistent(e: Option<Entry>, p: Parity)
    requires ConsistentOption(e)
    ensures Consistent(Differ(e.GetOr(NEW_ENTRY), p))
  {
  }

  lemma {:induction false} RunIsConsistent(es: seq<Event>, internal: bool, f: string)
    ensures ConsistentOption(Get(Run(es, internal), f))
  {
    hide Consistent, AfterFindings, AfterHealing, Update, Differ;
    if es != [] {
      var init, e := es[..|es| - 1], es[|es| - 1];
      var l := Run(init, internal);
      RunIsConsistent(init, internal, f);
      match e
      case Audited(issues, gold) =>
        UpdateIs(l, issues, gold, internal, f);
        FindingsKeepConsistent(Get(Maintained(l, internal), f), TimesOf(issues, f), f in gold, f);
      case Disparate(p) =>
        DisparityKeepsConsistent(Get(l, f), p);
      case Clear =>
    }
  }

  /** In every run: an entry is healed exactly when its count is zero, and no count exceeds its history. */
  lemma EveryRun(es: seq<Event>, internal: bool, f: string)
    requires f in Run(es, internal)
    ensures var e := Run(es, internal)[f];
            && (e.status == Healed <==> e.occurrences == Exactly(0))
            && (e.occurrences.Exactly? ==> e.occurrences.n <= |e.history|)
            && (e.status == Reference ==> !e.occurrences.Exactly?)
  {
    hide Run;
    RunIsConsistent(es, internal, f);
  }

  /** The strategic entry is never healed. */
  lemma {:induction false} StrategicNeverHeals(es: seq<Event>, internal: bool)
    requires STRATEGIC in Run(es, internal)
    ensures Run(es, internal)[STRATEGIC].status != Healed
  {
    hide AfterFindings, Update, TimesOf;
    var init, e := es[..|es| - 1], es[|es| - 1];
    var l := Run(init, internal);
    if STRATEGIC in l {
      StrategicNeverHeals(init, internal);
    }
    if e.Audited? {
      UpdateIs(l, e.issues, e.gold, internal, STRATEGIC);
      FindingsDoNotHeal(Get(Maintained(l, internal), STRATEGIC), TimesOf(e.issues, STRATEGIC), STRATEGIC in e.gold);
    }
  }

  lemma FindingsDoNotHeal(e: Option<Entry>, times: seq<nat>, gold: bool)
    requires e.Some? ==> e.value.status != Healed
    ensures var r := AfterFindings(e, times, gold);
            r.Some? ==> r.value.status != Healed
  {
  }

  predicate IsReference(l: Ledger, f: string) {
    f in l && l[f].status == Reference
  }

  /** An update neither takes away nor gives the status of a reference: it is given only to a new entry of a reported
      gold file, and lost only by removing the entry of the skills directory. */
  lemma ReferencesAfterUpdate(l: Ledger, issues: seq<Issue>, gold: set<string>, internal: bool, f: string)
    ensures IsReference(Update(l, issues, gold, internal), f)
       <==> IsReference(Maintained(l, internal), f)
            || (f !in Maintained(l, internal) && f in Files(issues) && f in gold)
  {
    hide Update, TimesOf, Files;
    UpdateIs(l, issues, gold, internal, f);
    TimesOfFiles(issues, f);
  }

  // ---- What a count counts ----

  /** How a file stands, told from the events alone: no entry; an entry with a number as its count; the entry of a gold
      file; or such an entry after a disparity, which still has no number. */
  datatype Standing = Missing | Counted | GoldEntry | Spoiled

  /** Outside the project itself an update first removes the skills entry. */
  function Kept(st: Standing, internal: bool, f: string): Standing {
    if !internal && f == SKILLS then Missing else st
  }

  function StandingAfter(st: Standing, e: Event, internal: bool, f: string): Standing {
    match e
    case Audited(issues, gold) =>
      var kept := Kept(st, internal, f);
      if f in Files(issues) then (if kept == Missing then (if f in gold then GoldEntry else Counted) else kept)
      else if kept == Spoiled && f != STRATEGIC then Counted
      else kept
    case Disparate(p) =>
      if Slashed(p.source) != f then st
      else if st == Missing then Counted
      else if st == GoldEntry then Spoiled
      else st
    case Clear => if st == GoldEntry then GoldEntry else Missing
  }

  function StandingOf(es: seq<Event>, internal: bool, f: string): Standing {
    if es == [] then Missing
    else StandingAfter(StandingOf(es[..|es| - 1], internal, f), es[|es| - 1], internal, f)
  }

  /** Findings while not gold, and disparities, of `f` since it was last healed, cleared or removed. */
  function Open(es: seq<Event>, internal: bool, f: string): nat {
    if es == [] then 0
    else
      var before := Open(es[..|es| - 1], internal, f);
      match es[|es| - 1]
      case Audited(issues, gold) =>
        var kept := if !internal && f == SKILLS then 0 else before;
        if f in Files(issues) then (if f in gold then kept else kept + |TimesOf(issues, f)|)
        else if f == STRATEGIC then kept
        else 0
      case Disparate(p) => before + if Slashed(p.source) == f then 1 else 0
      case Clear => 0
  }

  /** What the standing says of the entry. */
  predicate Stands(e: Option<Entry>, st: Standing, n: nat) {
    match st
    case Missing => e.None? && n == 0
    case Counted => e.Some? && e.value.status != Reference && e.value.occurrences == Exactly(n)
    case GoldEntry => e.Some? && e.value.status == Reference && !e.value.occurrences.Exactly?
    case Spoiled => e.Some? && e.value.status != Reference && e.value.occurrences == NaN
  }

  lemma UpdateKeepsStanding(e: Option<Entry>, st: Standing, n: nat, times: seq<nat>, gold: bool, f: string)
    requires Stands(e, st, n) && ConsistentOption(e)
    ensures var after := (if times != [] then (if st == Missing then (if gold then GoldEntry else Counted) else st)
                          else if st == Spoiled && f != STRATEGIC then Counted else st);
            Stands(AfterHealing(AfterFindings(e, times, gold), f, times != []), after,
                   if times != [] then (if gold then n else n + |times|) else if f == STRATEGIC then n else 0)
  {
  }

  lemma DisparityKeepsStanding(e: Option<Entry>, st: Standing, n: nat, p: Parity)
    requires Stands(e, st, n) && ConsistentOption(e)
    ensures Stands(Some(Differ(e.GetOr(NEW_ENTRY), p)),
                   if st == Missing then Counted else if st == GoldEntry then Spoiled else st, n + 1)
  {
  }

  lemma {:induction false} StandingIs(es: seq<Event>, internal: bool, f: string)
    ensures Stands(Get(Run(es, internal), f), StandingOf(es, internal, f), Open(es, internal, f))
  {
    hide AfterFindings, AfterHealing, Update, TimesOf, Files, Differ;
    if es != [] {
      var init, e := es[..|es| - 1], es[|es| - 1];
      var l, st, n := Run(init, internal), StandingOf(init, internal, f), Open(init, internal, f);
      StandingIs(init, internal, f);
      RunIsConsistent(init, internal, f);
      match e
      case Audited(issues, gold) =>
        UpdateIs(l, issues, gold, internal, f);
        TimesOfFiles(issues, f);
        UpdateKeepsStanding(Get(Maintained(l, internal), f), Kept(st, internal, f), if !internal && f == SKILLS then 0 else n,
                            TimesOf(issues, f), f in gold, f);
      case Disparate(p) => DisparityKeepsStanding(Get(l, f), st, n, p);
      case Clear =>
    }
  }

  /** An entry has a number as its count exactly when it was not created gold since it was last absent or healed, and
      then the number is that of its findings and disparities since it was last healed, cleared or removed. */
  lemma CountsSinceHealed(es: seq<Event>, internal: bool, f: string)
    ensures var e := Get(Run(es, internal), f);
            && (e.Some? && e.value.occurrences.Exactly? <==> StandingOf(es, internal, f) == Counted)
            && (e.Some? && e.value.occurrences.Exactly? ==> e.value.occurrences.n == Open(es, internal, f))
  {
    StandingIs(es, internal, f);
  }

  /** In particular a file that is never gold is always counted. */
  lemma {:induction false} NeverGoldIsCounted(es: seq<Event>, internal: bool, f: string)
    requires forall i | 0 <= i < |es| && es[i].Audited? :: f !in es[i].gold
    ensures StandingOf(es, internal, f) == Missing || StandingOf(es, internal, f) == Counted
  {
    hide Files;
    if es != [] {
      NeverGoldIsCounted(es[..|es| - 1], internal, f);
    }
  }

  /** The event neither heals nor removes the entry of `f`. */
  predicate KeepsUncounted(e: Event, internal: bool, f: string) {
    match e
    case Audited(issues, _) => (internal || f != SKILLS) && (f in Files(issues) || f == STRATEGIC)
    case Disparate(_) => true
    case Clear => false
  }

  predicate IsUncounted(e: Option<Entry>) {
    e.Some? && e.value.status != Reference && e.value.occurrences == NaN
  }

  lemma SpoiledIsUncounted(es: seq<Event>, internal: bool, f: string)
    ensures IsUncounted(Get(Run(es, internal), f)) <==> StandingOf(es, internal, f) == Spoiled
  {
    hide Run, StandingOf, Open;
    StandingIs(es, internal, f);
  }

  lemma StandingOfOneMore(es: seq<Event>, more: seq<Event>, k: nat, internal: bool, f: string)
    requires k < |more|
    ensures (StandingOf(es + more[..k + 1], internal, f)
             == StandingAfter(StandingOf(es + more[..k], internal, f), more[k], internal, f))
  {
    hide StandingAfter;
    var all := es + more[..k + 1];
    assert all[..|all| - 1] == es + more[..k];
  }

  /** A reference that meets a disparity has no number as its count from then on, exactly as long as every update reports
      its file and nothing removes its entry. */
  lemma DisparityOfReferenceIsUncounted(es: seq<Event>, p: Parity, more: seq<Event>, internal: bool)
    requires IsReference(Run(es, internal), Slashed(p.source))
    ensures var f, start := Slashed(p.source), es + [Disparate(p)];
            (forall k | 0 <= k <= |more| :: IsUncounted(Get(Run(start + more[..k], internal), f)))
            <==> forall i | 0 <= i < |more| :: KeepsUncounted(more[i], internal, f)
  {
    hide Run, StandingOf, Open, IsUncounted, KeepsUncounted;
    var f, start := Slashed(p.source), es + [Disparate(p)];
    ReferenceBecomesSpoiled(es, p, internal);
    if forall i | 0 <= i < |more| :: KeepsUncounted(more[i], internal, f) {
      forall k | 0 <= k <= |more|
        ensures IsUncounted(Get(Run(start + more[..k], internal), f))
      {
        StaysSpoiled(start, more, k, internal, f);
        SpoiledIsUncounted(start + more[..k], internal, f);
      }
    } else {
      var i :| 0 <= i < |more| && !KeepsUncounted(more[i], internal, f);
      SpoiledIsUncounted(start + more[..i], internal, f);
      SpoiledIsUncounted(start + more[..i + 1], internal, f);
      StandingOfOneMore(start, more, i, internal, f);
      SpoiledStepExactly(more[i], internal, f);
    }
  }

  lemma SpoiledStepExactly(e: Event, internal: bool, f: string)
    ensures StandingAfter(Spoiled, e, internal, f) == Spoiled <==> KeepsUncounted(e, internal, f)
  {
    hide Files;
  }

  lemma ReferenceBecomesSpoiled(es: seq<Event>, p: Parity, internal: bool)
    requires IsReference(Run(es, internal), Slashed(p.source))
    ensures StandingOf(es + [Disparate(p)], internal, Slashed(p.source)) == Spoiled
  {
    hide Run, Open;
    StandingIs(es, internal, Slashed(p.source));
    assert (es + [Disparate(p)])[..|es|] == es;
  }

  lemma {:induction false} StaysSpoiled(start: seq<Event>, more: seq<Event>, k: nat, internal: bool, f: string)
    requires k <= |more| && StandingOf(start, internal, f) == Spoiled
    requires forall i | 0 <= i < |more| :: KeepsUncounted(more[i], internal, f)
    ensures StandingOf(start + more[..k], internal, f) == Spoiled
  {
    hide StandingOf, StandingAfter, KeepsUncounted;
    if k == 0 {
      assert start + more[..0] == start;
    } else {
      StaysSpoiled(start, more, k - 1, internal, f);
      StandingOfOneMore(start, more, k - 1, internal, f);
      SpoiledStepExactly(more[k - 1], internal, f);
    }
  }

  // ---- The ledger itself ----

  class LedgerService {
    const internal: bool
    var ledger: Ledger

    constructor (loaded: Ledger, isInternal: bool)
      ensures ledger == loaded && internal == isInternal
    {
      ledger, internal := loaded, isInternal;
    }

    method UpdateLedger(issues: seq<Issue>, gold: set<string>)
      modifies this
      ensures ledger == Update(old(ledger), issues, gold, internal)
    {
      PerformMaintenance();
      var currentErrorFiles := ProcessAuditResults(issues, gold);
      DetectHealedFiles(currentErrorFiles);
    }

    method PerformMaintenance()
      modifies this
      ensures ledger == Maintained(old(ledger), internal)
    {
      if !internal && SKILLS in ledger {
        ledger := ledger - {SKILLS};
      }
    }

    method ProcessAuditResults(issues: seq<Issue>, gold: set<string>) returns (files: set<string>)
      modifies this
      ensures ledger == RecordAll(old(ledger), issues, gold) && files == Files(issues)
    {
      hide Record, FileOf;
      files := {};
      var i := 0;
      while i < |issues|
        invariant i <= |issues| && ledger == RecordAll(old(ledger), issues[..i], gold) && files == Files(issues[..i])
      {
        assert issues[..i + 1][..i] == issues[..i];
        files := files + {FileOf(issues[i])};
        UpdateFileStatus(issues[i], gold);
        i := i + 1;
      }
      assert issues[..i] == issues;
    }

    method UpdateFileStatus(issue: Issue, gold: set<string>)
      modifies this
      ensures ledger == Record(old(ledger), issue, gold)
    {
      var file := FileOf(issue);
      var marked := TryMarkReference(file, gold);
      if marked {
        return;
      }
      var entry := if file in ledger then ledger[file] else Entry(Unstable, Exactly(0), [], map[]);
      entry := entry.(occurrences := Plus(entry.occurrences, 1), history := entry.history + [Reported(issue.at)]);
      if entry.status != Reference {
        entry := entry.(status := Unstable);
      }
      ledger := ledger[file := entry];
    }

    method TryMarkReference(file: string, gold: set<string>) returns (marked: bool)
      modifies this
      ensures marked == (file in gold)
      ensures ledger == if file in gold && file !in old(ledger) then old(ledger)[file := GOLD_ENTRY] else old(ledger)
    {
      if file in gold {
        if file !in ledger {
          ledger := ledger[file := Entry(Reference, Absent, [Gold], map[])];
        }
        return true;
      }
      return false;
    }

    /** The keys are taken as they were at the start, in any order. */
    method DetectHealedFiles(currentErrors: set<string>)
      modifies this
      ensures ledger == HealAll(old(ledger), currentErrors)
    {
      var keys := ledger.Keys;
      while keys != {}
        invariant keys <= ledger.Keys == old(ledger).Keys
        invariant forall f | f in ledger ::
                    ledger[f] == if f in keys then old(ledger)[f] else HealAll(old(ledger), currentErrors)[f]
        decreases |keys|
      {
        var file :| file in keys;
        if Healable(file, ledger[file], currentErrors) {
          ledger := ledger[file := ledger[file].(status := Healed, occurrences := Exactly(0))];
        }
        keys := keys - {file};
      }
    }

    method ClearLedger()
      modifies this
      ensures ledger == Cleared(old(ledger))
    {
      ledger := map f | f in ledger && ledger[f].status == Reference :: ledger[f];
    }

    method RegisterDisparity(p: Parity)
      modifies this
      ensures ledger == Register(old(ledger), p)
    {
      var file := Slashed(p.source);
      var entry := if file in ledger then ledger[file] else Entry(Unstable, Exactly(0), [], map[]);
      entry := entry.(status := Disparity, occurrences := Plus(entry.occurrences, 1));
      entry := entry.(history := entry.history + [ParityError(p.target, p.discrepancies)]);
      entry := entry.(meta := entry.meta["lastSiblingDisparity" := p.target]["severity" := p.severity]);
      ledger := ledger[file := entry];
    }
  }
}

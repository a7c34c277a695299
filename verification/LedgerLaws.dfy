/** What each operation of the ledger leaves of an entry, field by field. */
module LedgerLaws {
  import opened Prelude
  import opened StabilityLedger

  /** A finding is filed under its file, with forward slashes, and without one under the strategic findings. */
  lemma FiledExactly(issue: Issue)
    ensures (issue.file == None || issue.file == Some("")) ==> FileOf(issue) == "Strategic/DNA"
    ensures (issue.file.Some? && issue.file.value != "" ==>
               var p, f := issue.file.value, FileOf(issue);
               |f| == |p| && forall i | 0 <= i < |p| :: f[i] == if p[i] == '\\' then '/' else p[i])
  {
  }

  /** The count after `k` more findings. */
  function Raised(c: Count, k: nat): Count {
    match c
    case Exactly(n) => Exactly(n + k)
    case _ => NaN
  }

  /** The entry of a file when an update begins. */
  function Carried(l: Ledger, internal: bool, f: string): Option<Entry> {
    if f in l && (internal || f != ".agent/skills") then Some(l[f]) else None
  }

  /** A file without findings is healed, its count cleared and its history kept, unless it is a reference, healed already,
      or stands for the strategic findings. */
  lemma HealedExactly(l: Ledger, issues: seq<Issue>, gold: set<string>, internal: bool, f: string)
    requires TimesOf(issues, f) == []
    ensures var before, after := Carried(l, internal, f), Get(Update(l, issues, gold, internal), f);
            if before.None? then after.None?
            else if f == "Strategic/DNA" || before.value.status == Reference || before.value.status == Healed
            then after == before
            else after == Some(Entry(Healed, Exactly(0), before.value.history, before.value.meta))
  {
    UpdateIs(l, issues, gold, internal, f);
  }

  /** A gold file with findings becomes a reference if it has no entry, and else keeps the one it has. */
  lemma GoldExactly(l: Ledger, issues: seq<Issue>, gold: set<string>, internal: bool, f: string)
    requires TimesOf(issues, f) != [] && f in gold
    ensures var before, after := Carried(l, internal, f), Get(Update(l, issues, gold, internal), f);
            after == if before.None? then Some(Entry(Reference, Absent, [Gold], map[])) else before
  {
    UpdateIs(l, issues, gold, internal, f);
  }

  /** Any other file with findings is unstable, or stays a reference; each finding is counted and noted, in order. */
  lemma FoundExactly(l: Ledger, issues: seq<Issue>, gold: set<string>, internal: bool, f: string)
    requires TimesOf(issues, f) != [] && f !in gold
    ensures var times, before := TimesOf(issues, f), Carried(l, internal, f);
            var was := before.GetOr(Entry(Unstable, Exactly(0), [], map[]));
            Get(Update(l, issues, gold, internal), f)
            == Some(Entry(if was.status == Reference then Reference else Unstable, Raised(was.occurrences, |times|),
                          was.history + seq(|times|, i requires 0 <= i < |times| => Reported(times[i])), was.meta))
  {
    UpdateIs(l, issues, gold, internal, f);
  }

  /** A disparity marks its source, counts once, is noted with its target and discrepancies, and sets two fields of the
      entry's data; no other entry changes. */
  lemma DisparityExactly(l: Ledger, p: Parity, f: string)
    ensures f != Slashed(p.source) ==> Get(Register(l, p), f) == Get(l, f)
    ensures (f == Slashed(p.source) ==>
               var before := if f in l then l[f] else Entry(Unstable, Exactly(0), [], map[]);
               && f in Register(l, p)
               && var after := Register(l, p)[f];
                  && after.status == Disparity && after.occurrences == Raised(before.occurrences, 1)
                  && after.history == before.history + [ParityError(p.target, p.discrepancies)]
                  && after.meta.Keys == before.meta.Keys + {"lastSiblingDisparity", "severity"}
                  && after.meta["lastSiblingDisparity"] == p.target && after.meta["severity"] == p.severity
                  && forall k | k in before.meta && k != "lastSiblingDisparity" && k != "severity" ::
                       after.meta[k] == before.meta[k])
  {
    assert "lastSiblingDisparity" != "severity";
  }

  /** Clearing leaves the references as they are, and nothing else. */
  lemma ClearedExactly(l: Ledger, f: string)
    ensures Get(Cleared(l), f) == if f in l && l[f].status == Reference then Some(l[f]) else None
  {
  }
}

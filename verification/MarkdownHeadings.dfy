/** Deduplicating a list of cleaned headings, and exactly when the result has no duplicates. */
module MarkdownHeadings {
  import opened MarkdownText

  function Count(cs: seq<string>, c: string): nat {
    if cs == [] then 0 else Count(cs[..|cs| - 1], c) + if cs[|cs| - 1] == c then 1 else 0
  }

  /** Each heading labelled by how often it has occurred before. */
  function Deduped(cs: seq<string>): (r: seq<string>)
    ensures |r| == |cs|
  {
    if cs == [] then []
    else
      var init, c := cs[..|cs| - 1], cs[|cs| - 1];
      Deduped(init) + [Label(c, Count(init, c))]
  }

  predicate Distinct(cs: seq<string>) {
    forall i, j | 0 <= i < j < |cs| :: cs[i] != cs[j]
  }

  /** No heading reads like a version that another heading occurs often enough to be given. */
  ghost predicate NoClash(cs: seq<string>) {
    forall c, k: nat | c in cs && 2 <= k <= Count(cs, c) :: c + Suffix(k) !in cs
  }

  lemma {:induction false} DedupedAt(cs: seq<string>, i: nat)
    requires i < |cs|
    ensures Deduped(cs)[i] == Label(cs[i], Count(cs[..i], cs[i]))
  {
    var init := cs[..|cs| - 1];
    if i < |init| {
      DedupedAt(init, i);
      assert init[..i] == cs[..i];
    } else {
      assert cs[..i] == init;
    }
  }

  lemma {:induction false} CountPrefix(cs: seq<string>, i: nat, c: string)
    requires i <= |cs|
    ensures Count(cs[..i], c) <= Count(cs, c)
    ensures i < |cs| && cs[i] == c ==> Count(cs[..i], c) < Count(cs, c)
    decreases |cs|
  {
    if i == |cs| {
      assert cs[..i] == cs;
    } else {
      var init := cs[..|cs| - 1];
      assert init[..i] == cs[..i];
      CountPrefix(init, i, c);
    }
  }

  lemma {:induction false} CountPositive(cs: seq<string>, c: string)
    ensures Count(cs, c) > 0 <==> c in cs
  {
    if cs != [] {
      var init := cs[..|cs| - 1];
      CountPositive(init, c);
      assert cs == init + [cs[|cs| - 1]];
    }
  }

  /** Every number of earlier occurrences below the total is reached at some occurrence. */
  lemma {:induction false} OccurrenceWithCount(cs: seq<string>, c: string, k: nat) returns (i: nat)
    requires k < Count(cs, c)
    ensures i < |cs| && cs[i] == c && Count(cs[..i], c) == k
  {
    var init := cs[..|cs| - 1];
    if k < Count(init, c) {
      i := OccurrenceWithCount(init, c, k);
      assert init[..i] == cs[..i];
    } else {
      i := |init|;
    }
  }

  lemma ClashGivesDuplicate(cs: seq<string>, c: string, k: nat)
    requires c in cs && 2 <= k <= Count(cs, c) && c + Suffix(k) in cs
    ensures !Distinct(Deduped(cs))
  {
    hide Suffix, Count, Deduped;
    var v := c + Suffix(k);
    var i := OccurrenceWithCount(cs, c, k - 1);
    CountPositive(cs, v);
    var j := OccurrenceWithCount(cs, v, 0);
    DedupedAt(cs, i);
    DedupedAt(cs, j);
    assert |v| != |c|;
    assert Deduped(cs)[i] == Deduped(cs)[j] && i != j;
  }

  lemma LaterCountsMore(cs: seq<string>, i: nat, j: nat)
    requires i < j < |cs| && cs[i] == cs[j]
    ensures Count(cs[..i], cs[i]) < Count(cs[..j], cs[j])
  {
    assert cs[..j][..i] == cs[..i];
    CountPrefix(cs[..j], i, cs[i]);
  }

  /** The heading at `i` stays as it is and equals what the one at `j` is turned into. */
  lemma VersionedClash(cs: seq<string>, i: nat, j: nat)
    requires i < |cs| && j < |cs| && Count(cs[..j], cs[j]) > 0 && cs[i] == cs[j] + Suffix(Count(cs[..j], cs[j]) + 1)
    ensures !NoClash(cs)
  {
    hide Suffix, Count;
    var c, k := cs[j], Count(cs[..j], cs[j]) + 1;
    CountPrefix(cs, j, c);
    assert c in cs && 2 <= k <= Count(cs, c) && cs[i] in cs && c + Suffix(k) in cs;
  }

  lemma LabelsDiffer(c: string, m: nat, d: string, n: nat)
    requires if c == d then m != n else m > 0 && n > 0
    ensures Label(c, m) != Label(d, n)
  {
    hide Suffix;
    if m > 0 && n > 0 && Label(c, m) == Label(d, n) {
      SuffixInjective(c, m + 1, d, n + 1);
    }
  }

  lemma DuplicateGivesClash(cs: seq<string>, i: nat, j: nat)
    requires i < j < |cs| && Deduped(cs)[i] == Deduped(cs)[j]
    ensures !NoClash(cs)
  {
    hide Suffix, Count, Deduped, NoClash;
    var m, n := Count(cs[..i], cs[i]), Count(cs[..j], cs[j]);
    DedupedAt(cs, i);
    DedupedAt(cs, j);
    if cs[i] == cs[j] {
      LaterCountsMore(cs, i, j);
      LabelsDiffer(cs[i], m, cs[j], n);
    } else if m > 0 && n > 0 {
      LabelsDiffer(cs[i], m, cs[j], n);
    } else if n > 0 {
      VersionedClash(cs, i, j);
    } else {
      VersionedClash(cs, j, i);
    }
  }

  function Occurrences(cs: seq<string>, c: string): set<nat> {
    set i: nat | i < |cs| && cs[i] == c
  }

  lemma {:induction false} CountIsOccurrences(cs: seq<string>, c: string)
    ensures Count(cs, c) == |Occurrences(cs, c)|
  {
    if cs != [] {
      var init := cs[..|cs| - 1];
      CountIsOccurrences(init, c);
      var n: nat := |init|;
      assert Occurrences(cs, c) == Occurrences(init, c) + if cs[n] == c then {n} else {};
    }
  }

  /** The first occurrence of a heading stays as it is, and a repeated one is numbered, in decimal, by how many equal
      headings there are up to it. */
  lemma RepeatsAreNumbered(cs: seq<string>, i: nat) returns (digits: string)
    requires i < |cs|
    ensures (forall i | 0 <= i < |digits| :: IsDigit(digits[i])) && digits != "" && digits[0] != '0'
    ensures Value(digits) == |set j: nat | j <= i && cs[j] == cs[i]|
    ensures Deduped(cs)[i] == if cs[i] !in cs[..i] then cs[i] else cs[i] + " [v" + digits + "]"
  {
    hide Deduped, Decimal, Value, Count;
    var c := cs[i];
    var n := Count(cs[..i], c) + 1;
    digits := Decimal(n);
    DecimalReads(n);
    DedupedAt(cs, i);
    CountPositive(cs[..i], c);
    CountIsOccurrences(cs[..i], c);
    assert (set j: nat | j <= i && cs[j] == c) == Occurrences(cs[..i], c) + {i};
  }

  /** The labelled headings are pairwise distinct exactly when there is no clash. */
  lemma DistinctExactly(cs: seq<string>)
    ensures Distinct(Deduped(cs)) <==> NoClash(cs)
  {
    if Distinct(Deduped(cs)) {
      forall c, k: nat | c in cs && 2 <= k <= Count(cs, c)
        ensures c + Suffix(k) !in cs
      {
        if c + Suffix(k) in cs {
          ClashGivesDuplicate(cs, c, k);
        }
      }
    } else {
      var i, j :| 0 <= i < j < |cs| && Deduped(cs)[i] == Deduped(cs)[j];
      DuplicateGivesClash(cs, i, j);
    }
  }

  /** Deduplicating changes nothing exactly when there is nothing to deduplicate. */
  lemma FixedExactly(cs: seq<string>)
    ensures Deduped(cs) == cs <==> Distinct(cs)
  {
    if Distinct(cs) {
      forall i | 0 <= i < |cs|
        ensures Deduped(cs)[i] == cs[i]
      {
        DedupedAt(cs, i);
        CountPositive(cs[..i], cs[i]);
      }
    } else {
      var i, j :| 0 <= i < j < |cs| && cs[i] == cs[j];
      DedupedAt(cs, j);
      CountPositive(cs[..j], cs[j]);
      assert cs[i] == cs[..j][i];
      assert |Deduped(cs)[j]| > |cs[j]|;
    }
  }

  /** When no heading ends like a version at all, there is no clash. */
  lemma UnversionedHeadingsDoNotClash(cs: seq<string>)
    requires forall c, d, k: nat | c in cs :: c != d + Suffix(k)
    ensures NoClash(cs)
  {
  }
}

/** What the structure normaliser guarantees for every document, and exactly when it is idempotent. */
module MarkdownLaws {
  import opened MarkdownText
  import opened MarkdownHeadings
  import opened MarkdownStructure

  // ---- Nothing is lost, and the layout is normal ----

  /** Code, headings and text survive in order; headings are only relabelled. */
  lemma RefineKeepsContent(raw: seq<string>)
    ensures Content(Refine(raw)) == Relabel(Content(raw))
  {
    RefineToIsFaithful(raw, |raw|);
    assert raw[..|raw|] == raw;
  }

  lemma {:induction false} RelabelKeepsCode(items: seq<Item>)
    ensures CodeLines(Relabel(items)) == CodeLines(items)
  {
    if items != [] {
      RelabelKeepsCode(Front(items));
      ItemAppended(Relabel(Front(items)), RelabelItem(Front(items), Last(items)));
    }
  }

  /** Fenced lines are copied verbatim: the same lines in the same order, fences included. */
  lemma CodeIsVerbatim(raw: seq<string>)
    ensures CodeLines(Content(Refine(raw))) == CodeLines(Content(raw))
  {
    RefineKeepsContent(raw);
    RelabelKeepsCode(Content(raw));
  }

  lemma {:induction false} SpacedAt(ls: seq<string>, i: nat)
    requires Spaced(ls) && i < |ls|
    ensures MayFollow(ls[..i], ls[i])
    decreases |ls|
  {
    hide MayFollow;
    if i < |ls| - 1 {
      SpacedAt(Front(ls), i);
      assert Front(ls)[..i] == ls[..i];
    }
  }

  /** No two adjacent blank lines and no blank line at the start, outside code; every heading is first or after a
      blank, and last or before a blank. */
  lemma RefineIsSpaced(raw: seq<string>)
    ensures forall i | 0 <= i < |Refine(raw)| :: MayFollow(Refine(raw)[..i], Refine(raw)[i])
  {
    hide Refine, RefineTo, MayFollow, Spaced;
    var out := Refine(raw);
    RefinedIsNormal(raw);
    forall i | 0 <= i < |out|
      ensures MayFollow(out[..i], out[i])
    {
      SpacedAt(out, i);
    }
  }

  lemma RefinedIsNormal(raw: seq<string>)
    ensures Spaced(Refine(raw)) && Tidy(Refine(raw))
  {
    RefineToIsFaithful(raw, |raw|);
  }

  // ---- Headings ----

  lemma {:induction false} TitlesRelabelled(items: seq<Item>)
    ensures Titles(Relabel(items)) == Deduped(CleanTitles(items))
  {
    hide Clean, Trim, Label, Count;
    if items != [] {
      var before, item := Front(items), Last(items);
      TitlesRelabelled(before);
      assert items == before + [item];
      ItemAppended(before, item);
      ItemAppended(Relabel(before), RelabelItem(before, item));
      if item.Title? {
        DedupedAppended(CleanTitles(before), Clean(Trim(item.text)));
      } else {
        assert CleanTitles(before) + [] == CleanTitles(before);
        assert Titles(Relabel(before)) + [] == Titles(Relabel(before));
      }
    }
  }

  lemma DedupedAppended(cs: seq<string>, c: string)
    ensures Deduped(cs + [c]) == Deduped(cs) + [Label(c, Count(cs, c))]
  {
    hide Label, Count;
    assert (cs + [c])[..|cs|] == cs;
  }

  /** The headings of the result, in order, are the cleaned headings labelled by their earlier occurrences. */
  lemma RefinedTitles(raw: seq<string>)
    ensures Titles(Content(Refine(raw))) == Deduped(CleanTitles(Content(raw)))
  {
    RefineKeepsContent(raw);
    TitlesRelabelled(Content(raw));
  }

  /** The emitted headings are pairwise distinct exactly when no cleaned heading reads like a version that another one
      occurs often enough to be given. */
  lemma HeadingsDistinctExactly(raw: seq<string>)
    ensures Distinct(Titles(Content(Refine(raw)))) <==> NoClash(CleanTitles(Content(raw)))
  {
    RefinedTitles(raw);
    DistinctExactly(CleanTitles(Content(raw)));
  }

  /** In particular they are distinct when no heading of the document already ends in a version. */
  lemma UnversionedHeadingsStayDistinct(raw: seq<string>)
    requires forall c, d, k: nat | c in CleanTitles(Content(raw)) :: c != d + Suffix(k)
    ensures Distinct(Titles(Content(Refine(raw))))
  {
    HeadingsDistinctExactly(raw);
    UnversionedHeadingsDoNotClash(CleanTitles(Content(raw)));
  }

  // ---- Idempotence ----

  ghost predicate AllSettled(ts: seq<string>) {
    forall i | 0 <= i < |ts| :: Settled(ts[i])
  }

  lemma NoTitles()
    ensures !InCode([]) && Content([]) == [] && Titles([]) == CleanTitles([]) == []
  {
  }

  lemma {:induction false} TitlesAreHashes(ls: seq<string>)
    ensures forall t | t in Titles(Content(ls)) :: StartsWith(Trim(t), "#")
  {
    hide Trim, KindOf, InCode, Titles, Content;
    if ls == [] {
      NoTitles();
    } else {
      TitlesAreHashes(Front(ls));
      LineTitles(Front(ls), Last(ls));
      assert Front(ls) + [Last(ls)] == ls;
    }
  }

  /** One more line adds a title exactly when it is a heading. */
  lemma LineTitles(ls: seq<string>, line: string)
    ensures var k := KindOf(InCode(ls), line);
            && Titles(Content(ls + [line])) == Titles(Content(ls)) + (if k == Heading then [line] else [])
            && (k == Heading ==> StartsWith(Trim(line), "#"))
  {
    hide Trim, InCode, Titles, Content;
    var inCode := InCode(ls);
    Appended(ls, line);
    if KindOf(inCode, line) == Blank {
      assert Content(ls) + [] == Content(ls);
    } else {
      ItemAppended(Content(ls), ItemsOf(inCode, line)[0]);
      assert Content(ls + [line]) == Content(ls) + [ItemsOf(inCode, line)[0]];
    }
  }

  lemma {:induction false} CleanTitlesAt(items: seq<Item>, i: nat)
    requires i < |Titles(items)|
    ensures |CleanTitles(items)| == |Titles(items)|
    ensures CleanTitles(items)[i] == Clean(Trim(Titles(items)[i]))
    decreases |items|
  {
    hide Clean, Trim;
    SameNumberOfTitles(items);
    SameNumberOfTitles(Front(items));
    if i < |Titles(Front(items))| {
      CleanTitlesAt(Front(items), i);
    }
  }

  lemma {:induction false} SameNumberOfTitles(items: seq<Item>)
    ensures |CleanTitles(items)| == |Titles(items)|
  {
    if items != [] {
      SameNumberOfTitles(Front(items));
    }
  }

  lemma SettledTitlesAreClean(items: seq<Item>)
    requires AllSettled(Titles(items))
    ensures CleanTitles(items) == Titles(items)
  {
    hide Clean, Trim, Titles, CleanTitles, Trimmed;
    SameNumberOfTitles(items);
    forall i | 0 <= i < |Titles(items)|
      ensures CleanTitles(items)[i] == Titles(items)[i]
    {
      CleanTitlesAt(items, i);
      TrimmedIsFixed(Titles(items)[i]);
    }
  }

  lemma {:induction false} TitlesPrefix(ls: seq<string>, n: nat)
    requires n <= |ls|
    ensures Titles(Content(ls[..n])) <= Titles(Content(ls))
    decreases |ls|
  {
    hide Titles, Content, KindOf, InCode;
    if n < |ls| {
      TitlesPrefix(Front(ls), n);
      assert Front(ls)[..n] == ls[..n];
      LineTitles(Front(ls), Last(ls));
      assert Front(ls) + [Last(ls)] == ls;
    } else {
      assert ls[..n] == ls;
    }
  }

  lemma NewTitle(ts: seq<string>, t: string, all: seq<string>)
    requires ts + [t] <= all && Distinct(all)
    ensures t !in ts
  {
    assert all[|ts|] == (ts + [t])[|ts|];
    assert forall i | 0 <= i < |ts| :: ts[i] == (ts + [t])[i] == all[i];
  }

  /** A heading of a settled document with distinct headings is emitted as it stands. */
  lemma SettledHeadingStays(ls: seq<string>, n: nat, seen: map<string, nat>)
    requires n < |ls| && KindOf(InCode(ls[..n]), ls[n]) == Heading
    requires AllSettled(Titles(Content(ls))) && Distinct(Titles(Content(ls)))
    requires SeenIs(seen, CleanTitles(Content(ls[..n])))
    ensures Trim(ls[n]) == ls[n] && Dedupe(ls[n], seen).0 == ls[n]
  {
    hide Clean, Trim, Titles, CleanTitles, Content, InCode, KindOf, Count, Dedupe, SeenIs, Trimmed, Distinct;
    var before, line, all := ls[..n], ls[n], Titles(Content(ls));
    var ts := Titles(Content(before));
    TitlesPrefix(ls, n);
    TitlesPrefix(ls, n + 1);
    assert ls[..n + 1] == before + [line];
    LineTitles(before, line);
    NewTitle(ts, line, all);
    assert all[|ts|] == (ts + [line])[|ts|];
    assert AllSettled(ts) by {
      assert forall i | 0 <= i < |ts| :: ts[i] == all[i];
    }
    SettledTitlesAreClean(Content(before));
    TrimmedIsFixed(line);
    DedupeIsLabel(line, seen, ts);
    CountPositive(ts, line);
  }

  lemma {:induction false} TidyAt(ls: seq<string>, i: nat)
    requires Tidy(ls) && i < |ls|
    ensures TidyLine(InCode(ls[..i]), ls[i])
    decreases |ls|
  {
    hide TidyLine, InCode;
    if i < |ls| - 1 {
      TidyAt(Front(ls), i);
      assert Front(ls)[..i] == ls[..i];
    }
  }

  /** A normal document is left as it is: one step adds exactly the line that was read. */
  lemma FixedStep(ls: seq<string>, n: nat, st: State)
    requires n < |ls| && Spaced(ls) && Tidy(ls)
    requires AllSettled(Titles(Content(ls))) && Distinct(Titles(Content(ls)))
    requires Faithful(ls[..n], st) && st.res == ls[..n]
    ensures Step(st, ls[n], Pad(ls, n)).res == ls[..n + 1]
  {
    hide Clean, Trim, Titles, CleanTitles, Content, InCode, Count, Dedupe, SeenIs, Tidy, Spaced, Distinct, Settled,
      KindOf, Relabel;
    var before, line := ls[..n], ls[n];
    assert ls[..n + 1] == before + [line];
    SpacedAt(ls, n);
    TidyAt(ls, n);
    match KindOf(st.inCb, line)
    case Fence =>
    case Code =>
    case Text =>
    case Blank =>
      WhatKindsMean(st.inCb, line);
      EmptyIsBlank(before);
    case Heading =>
      WhatHeadingsMean(st.inCb, line);
      SettledHeadingStays(ls, n, st.seen);
      if before != [] {
        EmptyIsBlank(before);
      }
      NoPadNeeded(ls, n);
      assert before + [line] + [] == before + [line];
  }

  lemma WhatHeadingsMean(inCode: bool, line: string)
    requires KindOf(inCode, line) == Heading
    ensures !inCode
  {
    hide Trim;
  }

  lemma NoPadNeeded(ls: seq<string>, n: nat)
    requires n < |ls| && Spaced(ls) && KindOf(InCode(ls[..n]), ls[n]) == Heading
    ensures !Pad(ls, n)
  {
    hide Spaced, KindOf, InCode;
    if n + 1 < |ls| {
      SpacedAt(ls, n + 1);
      assert ls[..n + 1] == ls[..n] + [ls[n]];
      Appended(ls[..n], ls[n]);
    }
  }

  lemma NothingRead(ls: seq<string>)
    ensures RefineTo(ls, 0) == INITIAL
  {
  }

  lemma OneMoreRead(ls: seq<string>, n: nat)
    requires n < |ls|
    ensures RefineTo(ls, n + 1) == Step(RefineTo(ls, n), ls[n], Pad(ls, n))
  {
    hide Step, Pad;
  }

  lemma {:induction false} NormalIsFixed(ls: seq<string>, n: nat)
    requires n <= |ls| && Spaced(ls) && Tidy(ls)
    requires AllSettled(Titles(Content(ls))) && Distinct(Titles(Content(ls)))
    ensures RefineTo(ls, n).res == ls[..n]
  {
    hide Step, Faithful, Spaced, Tidy, AllSettled, Titles, Content, Distinct, Pad, RefineFrom;
    if n == 0 {
      NothingRead(ls);
    } else {
      NormalIsFixed(ls, n - 1);
      RefineToIsFaithful(ls, n - 1);
      FixedStep(ls, n - 1, RefineTo(ls, n - 1));
      OneMoreRead(ls, n - 1);
    }
  }

  /** A heading that survives another pass has no white space around it. */
  lemma SurvivorIsSettled(h: string, k: nat)
    requires StartsWith(Trim(h), "#") && h == Label(Clean(Trim(h)), k)
    ensures Settled(h)
  {
    var t := Trim(h);
    CleanKeepsHash(t);
    TrimIsTrimmed(h);
    assert h[0] == '#';
    if k > 0 {
      assert h[|h| - 1] == ']';
      CleanIsFixed(h);
    } else {
      assert |t| <= |TrimEnd(h)| <= |h|;
      assert t == h;
      CleanIsFixed(h);
    }
  }

  lemma FixedIsSettled(out: seq<string>)
    requires Refine(out) == out
    ensures AllSettled(Titles(Content(out))) && Distinct(Titles(Content(out)))
  {
    hide Refine, Trim, Clean, Titles, CleanTitles, Content, Label, Deduped, Count, Settled, Distinct;
    var ts, cs := Titles(Content(out)), CleanTitles(Content(out));
    RefinedTitles(out);
    SameNumberOfTitles(Content(out));
    TitlesAreHashes(out);
    forall i | 0 <= i < |ts|
      ensures Settled(ts[i])
    {
      DedupedAt(cs, i);
      CleanTitlesAt(Content(out), i);
      assert ts[i] in ts;
      SurvivorIsSettled(ts[i], Count(cs[..i], cs[i]));
    }
    SettledTitlesAreClean(Content(out));
    FixedExactly(cs);
  }

  /** The emitted headings are settled exactly when no cleaned heading still ends in some other white space. */
  lemma EmittedSettledExactly(raw: seq<string>)
    ensures (AllSettled(Titles(Content(Refine(raw))))
             <==> forall c | c in CleanTitles(Content(raw)) :: Trimmed(c))
  {
    hide Refine, Trim, Clean, Titles, CleanTitles, Content, Label, Deduped, Count, Settled, Trimmed;
    var ts, cs := Titles(Content(Refine(raw))), CleanTitles(Content(raw));
    RefinedTitles(raw);
    if AllSettled(ts) {
      forall c | c in cs
        ensures Trimmed(c)
      {
        CountPositive(cs, c);
        var i := OccurrenceWithCount(cs, c, 0);
        DedupedAt(cs, i);
        FirstLabel(c);
      }
    } else {
      var i :| 0 <= i < |ts| && !Settled(ts[i]);
      DedupedAt(cs, i);
      CleanTitleIsHash(raw, i);
      if Trimmed(cs[i]) {
        LabelOfTrimmed(cs[i], Count(cs[..i], cs[i]));
      }
      assert cs[i] in cs;
    }
  }

  lemma FirstLabel(c: string)
    ensures Label(c, 0) == c && (Settled(c) ==> Trimmed(c))
  {
  }

  lemma CleanTitleIsHash(raw: seq<string>, i: nat)
    requires i < |CleanTitles(Content(raw))|
    ensures StartsWith(CleanTitles(Content(raw))[i], "#") && Clean(CleanTitles(Content(raw))[i]) == CleanTitles(Content(raw))[i]
  {
    hide Trim, Titles, CleanTitles, Content;
    SameNumberOfTitles(Content(raw));
    CleanTitlesAt(Content(raw), i);
    TitlesAreHashes(raw);
    var t := Trim(Titles(Content(raw))[i]);
    assert Titles(Content(raw))[i] in Titles(Content(raw));
    CleanKeepsHash(t);
    CleanIsFixed(Clean(t));
  }

  lemma LabelOfTrimmed(c: string, k: nat)
    requires StartsWith(c, "#") && Trimmed(c) && Clean(c) == c
    ensures Settled(Label(c, k))
  {
    var h := Label(c, k);
    assert h[0] == '#';
    if k > 0 {
      assert h[|h| - 1] == ']';
      CleanIsFixed(h);
    }
  }

  /** The normaliser is idempotent on a document exactly when its headings do not clash and, cleaned, end in no white
      space that the cleaning does not know. */
  lemma IdempotentExactly(raw: seq<string>)
    ensures var cs := CleanTitles(Content(raw));
            Refine(Refine(raw)) == Refine(raw) <==> NoClash(cs) && forall c | c in cs :: Trimmed(c)
  {
    hide Refine, RefineTo, Titles, CleanTitles, Content, AllSettled, Distinct, NoClash, Trimmed, Spaced, Tidy;
    var out := Refine(raw);
    HeadingsDistinctExactly(raw);
    EmittedSettledExactly(raw);
    if Refine(out) == out {
      FixedIsSettled(out);
    } else if AllSettled(Titles(Content(out))) && Distinct(Titles(Content(out))) {
      RefinedIsNormal(raw);
      NormalIsFixed(out, |out|);
      WholeRun(out);
    }
  }

  lemma WholeRun(ls: seq<string>)
    ensures Refine(ls) == RefineTo(ls, |ls|).res && ls[..|ls|] == ls
  {
  }

  /** With white space limited to what the cleaning knows, only clashes matter. */
  lemma PlainIdempotentExactly(raw: seq<string>)
    requires forall line | line in raw :: Plain(line)
    ensures Refine(Refine(raw)) == Refine(raw) <==> NoClash(CleanTitles(Content(raw)))
  {
    hide Refine, NoClash, Titles, CleanTitles, Content, Plain, Trimmed;
    var cs := CleanTitles(Content(raw));
    IdempotentExactly(raw);
    TitlesAreLines(raw);
    SameNumberOfTitles(Content(raw));
    forall c | c in cs
      ensures Trimmed(c)
    {
      var i :| 0 <= i < |cs| && cs[i] == c;
      CleanTitlesAt(Content(raw), i);
      TitlesAreHashes(raw);
      var line := Titles(Content(raw))[i];
      assert line in Titles(Content(raw));
      PlainCleanIsTrimmed(line);
    }
  }

  lemma {:induction false} TitlesAreLines(ls: seq<string>)
    ensures forall t | t in Titles(Content(ls)) :: t in ls
  {
    hide Titles, Content, KindOf, InCode, Trim;
    if ls != [] {
      TitlesAreLines(Front(ls));
      LineTitles(Front(ls), Last(ls));
      assert Front(ls) + [Last(ls)] == ls;
    } else {
      NoTitles();
    }
  }

  lemma PlainCleanIsTrimmed(line: string)
    requires Plain(line) && StartsWith(Trim(line), "#")
    ensures Trimmed(Clean(Trim(line)))
  {
    var e := TrimEnd(line);
    var t := Trim(line);
    var c := Clean(t);
    CleanKeepsHash(t);
    assert c[0] == '#';
    assert c[|c| - 1] == t[|c| - 1] == e[|e| - |t| + |c| - 1] == line[|e| - |t| + |c| - 1];
  }

  /** A no-break space before the full stop: the second pass trims what the first one leaves. */
  lemma NoBreakSpaceNeedsTwoPasses()
    ensures var line := "#" + [160 as char, '.'];
            Refine(Refine([line])) != Refine([line])
  {
    hide Refine, Titles, CleanTitles, Content, NoClash, Trim, Clean;
    var line := "#" + [160 as char, '.'];
    IdempotentExactly([line]);
    OneHeading(line);
    CleanOfNoBreak();
    assert Clean(line) in CleanTitles(Content([line]));
  }

  lemma OneHeading(line: string)
    requires StartsWith(line, "#") && Trimmed(line)
    ensures CleanTitles(Content([line])) == [Clean(line)]
  {
    hide Clean, Trim, InCode, Content, CleanTitles, Titles, CodeLines, Relabel, RelabelItem, Spaced, Tidy, LastKind;
    TrimmedIsFixed(line);
    NoTitles();
    assert KindOf(false, line) == Heading;
    Appended([], line);
    assert [] + [line] == [line];
    ItemAppended([], Title(line));
    assert [] + [Title(line)] == [Title(line)];
  }

  lemma CleanOfNoBreak()
    ensures var c := Clean("#" + [160 as char, '.']);
            !Trimmed(c)
  {
    var line := "#" + [160 as char, '.'];
    assert line[..2] == "#" + [160 as char];
    CleanIsFixed(line[..2]);
    assert Clean(line) == Clean(line[..2]);
  }
}

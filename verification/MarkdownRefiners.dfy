/** The two implementations of the structure normaliser, and the helpers they share. Both compute `Refine`. */
module MarkdownRefiners {
  import opened MarkdownText
  import opened MarkdownStructure

  /** A list of lines that is grown in place and shared by reference. */
  class Lines {
    var items: seq<string>

    constructor ()
      ensures items == []
    {
      items := [];
    }

    method Push(line: string)
      modifies this
      ensures items == old(items) + [line]
    {
      items := items + [line];
    }

    predicate NeedsBlank()
      reads this
    {
      |items| > 0 && items[|items| - 1] != ""
    }
  }

  /** The counts of the headings seen so far, updated in place. */
  class HeaderCounts {
    var seen: map<string, nat>

    constructor ()
      ensures seen == map[]
    {
      seen := map[];
    }
  }

  method DeduplicateHeader(h: string, counts: HeaderCounts) returns (r: string)
    modifies counts
    ensures (r, counts.seen) == Dedupe(h, old(counts.seen))
  {
    var hClean := Clean(h);
    if hClean in counts.seen {
      var nextCount := counts.seen[hClean] + 1;
      counts.seen := counts.seen[hClean := nextCount];
      return hClean + Suffix(nextCount);
    }
    counts.seen := counts.seen[hClean := 1];
    return hClean;
  }

  method ApplyHeaderPadding(res: Lines, raw: seq<string>, idx: nat)
    modifies res
    ensures res.items == old(res.items) + if Pad(raw, idx) then [""] else []
  {
    if idx + 1 < |raw| && Trim(raw[idx + 1]) != "" {
      res.Push("");
    }
  }

  lemma TrimmedTwice(line: string)
    ensures Trim(TrimEnd(line)) == Trim(line)
  {
    TrimIsTrimmed(line);
  }

  lemma RefineFromNone(st: State, raw: seq<string>)
    ensures RefineFrom(st, raw, 0) == st
  {
  }

  lemma RefineFromNext(st: State, raw: seq<string>, i: nat)
    requires i < |raw|
    ensures RefineFrom(st, raw, i + 1) == Step(RefineFrom(st, raw, i), raw[i], Pad(raw, i))
  {
    hide Step, Pad;
  }

  class MarkdownStructureAgent {
    const raw: seq<string>
    const res: Lines
    const counts: HeaderCounts
    var inCb: bool

    constructor (rawLines: seq<string>)
      ensures raw == rawLines && fresh(res) && fresh(counts) && Progress() == INITIAL
    {
      raw, inCb := rawLines, false;
      res := new Lines();
      counts := new HeaderCounts();
    }

    ghost function Progress(): State
      reads this, res, counts
    {
      State(res.items, counts.seen, inCb)
    }

    method ExecuteRefinement() returns (out: seq<string>)
      modifies this, res, counts
      ensures Progress() == RefineFrom(old(Progress()), raw, |raw|) && out == Progress().res
      ensures old(Progress()) == INITIAL ==> out == Refine(raw)
    {
      hide Step, Pad;
      ghost var start := Progress();
      var i := 0;
      while i < |raw|
        invariant i <= |raw| && Progress() == RefineFrom(start, raw, i)
      {
        ProcessLine(raw[i], i);
        i := i + 1;
      }
      return res.items;
    }

    method ProcessLine(line: string, idx: nat)
      requires idx < |raw| && line == raw[idx]
      modifies this, res, counts
      ensures Progress() == Step(old(Progress()), line, Pad(raw, idx))
    {
      hide Trim, TrimEnd, Dedupe, Pad;
      TrimmedTwice(line);
      var stripped := TrimEnd(line);
      var handled := HandleCodeBlock(stripped, line);
      if handled {
        return;
      }
      if StartsWith(Trim(stripped), "#") {
        ApplyHeaderLogic(Trim(stripped), idx);
        return;
      }
      if Trim(stripped) != "" || res.NeedsBlank() {
        res.Push(stripped);
      }
    }

    method HandleCodeBlock(stripped: string, original: string) returns (handled: bool)
      requires stripped == TrimEnd(original)
      modifies this, res
      ensures handled == (StartsWith(Trim(original), "```") || old(inCb))
      ensures inCb == (old(inCb) != StartsWith(Trim(original), "```"))
      ensures res.items == if handled then old(res.items) + [original] else old(res.items)
    {
      hide Trim, TrimEnd;
      TrimmedTwice(original);
      if StartsWith(Trim(stripped), "```") {
        inCb := !inCb;
        res.Push(original);
        return true;
      }
      if inCb {
        res.Push(original);
        return true;
      }
      return false;
    }

    method ApplyHeaderLogic(line: string, idx: nat)
      requires idx < |raw|
      modifies res, counts
      ensures Progress() == Header(old(Progress()), line, Pad(raw, idx))
    {
      hide Trim, Dedupe, Pad;
      if res.NeedsBlank() {
        res.Push("");
      }
      var h := DeduplicateHeader(line, counts);
      res.Push(h);
      ApplyHeaderPadding(res, raw, idx);
    }
  }

  class MarkdownStructureProcessor {
    const raw: seq<string>
    const res: Lines
    const counts: HeaderCounts
    var inCb: bool

    constructor (rawLines: seq<string>)
      ensures raw == rawLines && fresh(res) && fresh(counts) && Progress() == INITIAL
    {
      raw, inCb := rawLines, false;
      res := new Lines();
      counts := new HeaderCounts();
    }

    ghost function Progress(): State
      reads this, res, counts
    {
      State(res.items, counts.seen, inCb)
    }

    method Process() returns (out: seq<string>)
      modifies this, res, counts
      ensures Progress() == RefineFrom(old(Progress()), raw, |raw|) && out == Progress().res
      ensures old(Progress()) == INITIAL ==> out == Refine(raw)
    {
      hide Trim, TrimEnd, Dedupe, Pad, RefineFrom, Header;
      ghost var start := Progress();
      RefineFromNone(start, raw);
      var i := 0;
      while i < |raw|
        invariant i <= |raw| && Progress() == RefineFrom(start, raw, i)
      {
        var line := raw[i];
        TrimmedTwice(line);
        RefineFromNext(start, raw, i);
        var stripped := TrimEnd(line);
        var handled := HandleBlock(stripped, line);
        if !handled {
          if StartsWith(Trim(stripped), "#") {
            HandleHeader(Trim(stripped), i);
          } else {
            var append := ShouldAppend(stripped);
            if append {
              res.Push(stripped);
            }
          }
        }
        i := i + 1;
      }
      return res.items;
    }

    method HandleBlock(stripped: string, original: string) returns (handled: bool)
      requires stripped == TrimEnd(original)
      modifies this, res
      ensures handled == (StartsWith(Trim(original), "```") || old(inCb))
      ensures inCb == (old(inCb) != StartsWith(Trim(original), "```"))
      ensures res.items == if handled then old(res.items) + [original] else old(res.items)
    {
      hide Trim, TrimEnd;
      TrimmedTwice(original);
      if StartsWith(Trim(stripped), "```") {
        inCb := !inCb;
        res.Push(original);
        return true;
      }
      if inCb {
        res.Push(original);
        return true;
      }
      return false;
    }

    method HandleHeader(line: string, idx: nat)
      requires idx < |raw|
      modifies res, counts
      ensures Progress() == Header(old(Progress()), line, Pad(raw, idx))
    {
      hide Trim, Dedupe, Pad;
      if res.NeedsBlank() {
        res.Push("");
      }
      var h := DeduplicateHeader(line, counts);
      res.Push(h);
      ApplyHeaderPadding(res, raw, idx);
    }

    method ShouldAppend(stripped: string) returns (append: bool)
      ensures append == (Trim(stripped) != "" || res.NeedsBlank())
    {
      return Trim(stripped) != "" || res.NeedsBlank();
    }
  }

  /** Two fresh instances, one of each, give the same lines: the duplicated code agrees. */
  method Agree(rawLines: seq<string>) returns (a: seq<string>, b: seq<string>)
    ensures a == b == Refine(rawLines)
  {
    var agent := new MarkdownStructureAgent(rawLines);
    a := agent.ExecuteRefinement();
    var processor := new MarkdownStructureProcessor(rawLines);
    b := processor.Process();
  }
}

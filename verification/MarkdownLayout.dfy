/** Which blank lines the structure normaliser keeps, adds and drops, for every document. */
module MarkdownLayout {
  import opened MarkdownText
  import opened MarkdownHeadings
  import opened MarkdownStructure

  // ---- How a line is read ----

  /** After its leading white space a line is told by its first characters, whether or not white space ends it. */
  lemma LinesAreRead(inCode: bool, space: string, rest: string)
    requires (forall i | 0 <= i < |space| :: IsSpace(space[i])) && (rest != "" ==> !IsSpace(rest[0]))
    ensures var k := KindOf(inCode, space + rest);
            && (k == Fence <==> "```" <= rest) && (k == Code <==> inCode && !("```" <= rest))
            && (k == Heading <==> !inCode && "#" <= rest) && (k == Blank <==> !inCode && rest == "")
  {
    hide IsSpace, TrimEnd, TrimStart;
    TrimDropsEnds(space, rest);
    assert !IsSpace('`') && !IsSpace('#') by {
      MarksAreNotSpace();
    }
    var e := TrimEnd(rest);
    if "```" <= rest {
      assert rest[2] == '`';
    }
    if "#" <= rest {
      assert rest[0] == '#';
    }
  }

  lemma MarksAreNotSpace()
    ensures !IsSpace('`') && !IsSpace('#')
  {
  }

  // ---- Gaps ----

  /** The document ends with a blank line outside code. */
  predicate EndsWithGap(ls: seq<string>) {
    ls != [] && LastKind(ls) == Blank
  }

  /** For each content item, in order, whether a blank line stands right before it. */
  function Gaps(ls: seq<string>): seq<bool> {
    if ls == [] then []
    else
      var before := Front(ls);
      Gaps(before) + if LastKind(ls) == Blank then [] else [EndsWithGap(before)]
  }

  /** The gaps the result should have: none in front; one around each heading; and otherwise those of the input. */
  predicate GapsFollow(out: seq<bool>, items: seq<Item>, gaps: seq<bool>) {
    && |out| == |items| == |gaps|
    && forall i {:trigger out[i]} | 0 <= i < |out| ::
         out[i] <==> i > 0 && (gaps[i] || items[i].Title? || items[i - 1].Title?)
  }

  /** What the result so far owes the lines read: the gaps, and at its end a blank line if one was read there, or if the
      last line was a heading that was padded. */
  ghost predicate LaidOut(read: seq<string>, res: seq<string>, padded: bool) {
    && GapsFollow(Gaps(res), Content(read), Gaps(read))
    && (EndsWithGap(res) <==> Content(read) != [] && (EndsWithGap(read) || padded))
    && (res == [] <==> Content(read) == [])
  }

  lemma GapAppended(ls: seq<string>, line: string)
    ensures Gaps(ls + [line]) == Gaps(ls) + if KindOf(InCode(ls), line) == Blank then [] else [EndsWithGap(ls)]
    ensures EndsWithGap(ls + [line]) <==> KindOf(InCode(ls), line) == Blank
  {
    hide KindOf, InCode, EndsWithGap;
    assert Front(ls + [line]) == ls && Last(ls + [line]) == line;
    assert EndsWithGap(ls + [line]) <==> KindOf(InCode(ls), line) == Blank by {
      GapAtEnd(ls, line);
    }
    assert LastKind(ls + [line]) == KindOf(InCode(ls), line) by {
      Appended(ls, line);
    }
  }

  lemma GapAtEnd(ls: seq<string>, line: string)
    ensures EndsWithGap(ls + [line]) <==> KindOf(InCode(ls), line) == Blank
  {
    hide KindOf, InCode;
    Appended(ls, line);
  }

  lemma {:induction false} GapsMatchContent(ls: seq<string>)
    ensures |Gaps(ls)| == |Content(ls)|
  {
    hide KindOf, InCode;
    if ls != [] {
      GapsMatchContent(Front(ls));
    }
  }

  // ---- One step ----

  lemma OneMoreGap(out: seq<bool>, items: seq<Item>, gaps: seq<bool>, item: Item, gap: bool, o: bool)
    requires GapsFollow(out, items, gaps)
    requires o <==> items != [] && (gap || item.Title? || items[|items| - 1].Title?)
    ensures GapsFollow(out + [o], items + [item], gaps + [gap])
  {
    var n, a, b, c := |out|, out + [o], items + [item], gaps + [gap];
    forall i | 0 <= i < |a|
      ensures a[i] <==> i > 0 && (c[i] || b[i].Title? || b[i - 1].Title?)
    {
      if i > 0 {
        assert b[i - 1] == items[i - 1];
      }
      if i < n {
        assert out[i] <==> i > 0 && (gaps[i] || items[i].Title? || items[i - 1].Title?);
        assert a[i] == out[i] && b[i] == items[i] && c[i] == gaps[i];
      } else {
        assert a[i] == o && b[i] == item && c[i] == gap;
      }
    }
  }

  /** A heading was the last line read exactly when the last item is one and no blank line follows it. */
  lemma LastItemIsHeading(ls: seq<string>)
    requires ls != [] && !EndsWithGap(ls)
    ensures Content(ls) != [] && (Content(ls)[|Content(ls)| - 1].Title? <==> LastKind(ls) == Heading)
  {
    hide KindOf, InCode, Content;
    var before, line := Front(ls), Last(ls);
    assert before + [line] == ls;
    Appended(before, line);
    ItemsOfKind(InCode(before), line);
  }

  lemma ItemsOfKind(inCode: bool, line: string)
    ensures var k := KindOf(inCode, line);
            && (k == Blank ==> ItemsOf(inCode, line) == [])
            && (k != Blank ==> |ItemsOf(inCode, line)| == 1 && (ItemsOf(inCode, line)[0].Title? <==> k == Heading))
  {
    hide KindOf;
  }

  predicate EndsWithHeading(ls: seq<string>) {
    ls != [] && LastKind(ls) == Heading
  }

  /** Outside code, the gap a new item would have in the result is decided by what was read. */
  lemma GapBefore(read: seq<string>, res: seq<string>, padded: bool, heading: bool)
    requires LaidOut(read, res, padded) && (padded <==> EndsWithHeading(read))
    ensures var items := Content(read);
            EndsWithGap(res) || (heading && res != [])
            <==> items != [] && (EndsWithGap(read) || heading || items[|items| - 1].Title?)
  {
    hide Gaps, KindOf, InCode, Content, GapsFollow;
    if Content(read) != [] {
      NonEmptyContent(read);
      if !EndsWithGap(read) {
        LastItemIsHeading(read);
      }
    }
  }

  lemma NonEmptyContent(ls: seq<string>)
    requires Content(ls) != []
    ensures ls != []
  {
  }

  lemma BlankAddsGap(res: seq<string>)
    requires !InCode(res)
    ensures Gaps(res + [""]) == Gaps(res) && EndsWithGap(res + [""]) && !InCode(res + [""])
  {
    hide Gaps, KindOf, InCode, EndsWithGap;
    EmptyLine(false);
    GapAppended(res, "");
    Appended(res, "");
    assert Gaps(res) + [] == Gaps(res);
  }

  /** A step that appends one line of content, with a blank line before it if that is missing before a heading. */
  lemma ItemLaidOut(read: seq<string>, res: seq<string>, padded: bool, line: string, out: seq<string>, last: string)
    requires LaidOut(read, res, padded) && (padded <==> EndsWithHeading(read))
    requires KindOf(InCode(read), line) != Blank && KindOf(InCode(out), last) != Blank
    requires out == res || (out == res + [""] && !InCode(res) && res != [])
    requires KindOf(InCode(read), line) == Heading ==> out == [] || EndsWithGap(out)
    requires KindOf(InCode(read), line) != Heading ==> out == res
    ensures LaidOut(read + [line], out + [last], false)
  {
    hide Gaps, KindOf, InCode, Content, GapsFollow, EndsWithGap, EndsWithHeading, ItemsOf;
    ItemsOfKind(InCode(read), line);
    var heading, item := KindOf(InCode(read), line) == Heading, ItemsOf(InCode(read), line)[0];
    Appended(read, line);
    assert ItemsOf(InCode(read), line) == [item];
    GapAppended(read, line);
    GapAppended(out, last);
    GapBefore(read, res, padded, heading);
    if out != res {
      BlankAddsGap(res);
    }
    NoGapInNothing();
    assert EndsWithGap(out) <==> EndsWithGap(res) || (heading && res != []);
    OneMoreGap(Gaps(res), Content(read), Gaps(read), item, EndsWithGap(read), EndsWithGap(out));
  }

  lemma NoGapInNothing()
    ensures !EndsWithGap([])
  {
  }

  lemma BlankLaidOut(read: seq<string>, res: seq<string>, padded: bool, line: string)
    requires LaidOut(read, res, padded) && !InCode(res) && KindOf(InCode(read), line) == Blank
    ensures LaidOut(read + [line], if EndsWithGap(res) || res == [] then res else res + [""], false)
  {
    hide Gaps, KindOf, InCode, Content, GapsFollow;
    Appended(read, line);
    ItemsOfKind(InCode(read), line);
    GapAppended(read, line);
    assert Content(read) + [] == Content(read) && Gaps(read) + [] == Gaps(read);
    if !EndsWithGap(res) && res != [] {
      EmptyLine(false);
      GapAppended(res, "");
      assert Gaps(res) + [] == Gaps(res);
    }
  }

  /** A heading's own blank line, when content comes next. */
  lemma PaddingLaidOut(read: seq<string>, res: seq<string>)
    requires LaidOut(read, res, false) && !InCode(res) && EndsWithHeading(read)
    ensures LaidOut(read, res + [""], true)
  {
    hide Gaps, KindOf, InCode, Content, GapsFollow;
    EmptyLine(false);
    GapAppended(res, "");
    assert Gaps(res) + [] == Gaps(res);
    LastItemIsHeading(read);
  }

  lemma EndsBlankIsGap(res: seq<string>)
    requires !InCode(res) && Spaced(res)
    ensures EndsBlank(res) <==> res == [] || EndsWithGap(res)
  {
    hide Spaced, InCode, KindOf;
    if res != [] {
      EmptyIsBlank(res);
    }
  }

  lemma VerbatimLaidOut(read: seq<string>, st: State, padded: bool, line: string)
    requires Faithful(read, st) && LaidOut(read, st.res, padded) && (padded <==> EndsWithHeading(read))
    requires KindOf(st.inCb, line) == Fence || KindOf(st.inCb, line) == Code
    ensures LaidOut(read + [line], Step(st, line, false).res, false)
  {
    hide Content, Spaced, Relabel, CleanTitles, InCode, Tidy, KindOf, SeenIs, LaidOut, EndsWithHeading;
    ItemLaidOut(read, st.res, padded, line, st.res, line);
  }

  lemma TextLaidOut(read: seq<string>, st: State, padded: bool, line: string)
    requires Faithful(read, st) && LaidOut(read, st.res, padded) && (padded <==> EndsWithHeading(read))
    requires KindOf(st.inCb, line) == Text
    ensures LaidOut(read + [line], Step(st, line, false).res, false)
  {
    hide Content, Spaced, Relabel, CleanTitles, InCode, Tidy, KindOf, SeenIs, LaidOut, EndsWithHeading;
    WhatKindsMean(st.inCb, line);
    TextLine(line);
    ItemLaidOut(read, st.res, padded, line, st.res, TrimEnd(line));
  }

  lemma BlankStepLaidOut(read: seq<string>, st: State, padded: bool, line: string)
    requires Faithful(read, st) && LaidOut(read, st.res, padded) && KindOf(st.inCb, line) == Blank
    ensures LaidOut(read + [line], Step(st, line, false).res, false)
  {
    hide Content, Spaced, Relabel, CleanTitles, InCode, Tidy, KindOf, SeenIs, LaidOut, EndsBlank;
    WhatKindsMean(st.inCb, line);
    BlankLine(line);
    EndsBlankIsGap(st.res);
    BlankLaidOut(read, st.res, padded, line);
  }

  lemma HeadingLaidOut(read: seq<string>, st: State, padded: bool, line: string, pad: bool)
    requires Faithful(read, st) && LaidOut(read, st.res, padded) && (padded <==> EndsWithHeading(read))
    requires KindOf(st.inCb, line) == Heading
    ensures LaidOut(read + [line], Step(st, line, pad).res, pad)
  {
    hide Content, Spaced, Relabel, CleanTitles, InCode, Tidy, KindOf, SeenIs, LaidOut, EndsBlank, Count, Clean, Trim, Dedupe;
    var t, cs := Trim(line), CleanTitles(Content(read));
    HeadingIsHash(st.inCb, line);
    DedupeIsLabel(t, st.seen, cs);
    var h := Dedupe(t, st.seen).0;
    HeadingLine(t, Count(cs, Clean(t)));
    EndsBlankIsGap(st.res);
    BeforeHeading(st.res);
    var out := if EndsBlank(st.res) then st.res else st.res + [""];
    GapBeforeHeading(st.res);
    ItemLaidOut(read, st.res, padded, line, out, h);
    AppendedHeading(read, line, out, h);
    if pad {
      PaddingLaidOut(read + [line], out + [h]);
      assert Step(st, line, pad).res == out + [h] + [""];
    } else {
      assert Step(st, line, pad).res == out + [h];
    }
  }

  lemma GapBeforeHeading(res: seq<string>)
    requires !InCode(res) && Spaced(res)
    ensures var out := if EndsBlank(res) then res else res + [""];
            out == [] || EndsWithGap(out)
  {
    hide InCode, Spaced, KindOf;
    EndsBlankIsGap(res);
    if !EndsBlank(res) {
      EmptyLine(false);
      GapAtEnd(res, "");
    }
  }

  lemma AppendedHeading(read: seq<string>, line: string, out: seq<string>, h: string)
    requires KindOf(InCode(read), line) == Heading && !InCode(out) && KindOf(false, h) == Heading
    ensures EndsWithHeading(read + [line]) && !InCode(out + [h])
  {
    hide InCode, KindOf;
    Appended(read, line);
    Appended(out, h);
  }

  lemma StepIsLaidOut(read: seq<string>, st: State, padded: bool, line: string, pad: bool)
    requires Faithful(read, st) && LaidOut(read, st.res, padded)
    requires KindOf(st.inCb, line) != Blank ==> (padded <==> EndsWithHeading(read))
    ensures LaidOut(read + [line], Step(st, line, pad).res, pad && KindOf(st.inCb, line) == Heading)
  {
    hide Faithful, LaidOut, EndsWithHeading;
    match KindOf(st.inCb, line)
    case Fence => VerbatimLaidOut(read, st, padded, line);
    case Code => VerbatimLaidOut(read, st, padded, line);
    case Text => TextLaidOut(read, st, padded, line);
    case Blank => BlankStepLaidOut(read, st, padded, line);
    case Heading => HeadingLaidOut(read, st, padded, line, pad);
  }

  // ---- The whole document ----

  predicate LastPadded(raw: seq<string>, n: nat)
    requires n <= |raw|
  {
    EndsWithHeading(raw[..n]) && Pad(raw, n - 1)
  }

  lemma {:induction false} RefineToIsLaidOut(raw: seq<string>, n: nat)
    requires n <= |raw|
    ensures LaidOut(raw[..n], RefineTo(raw, n).res, LastPadded(raw, n))
  {
    hide Step, Faithful, LaidOut, EndsWithHeading, Pad, InCode, KindOf;
    if n == 0 {
      NothingLaidOut(raw);
    } else {
      var read, line := raw[..n - 1], raw[n - 1];
      var st := RefineTo(raw, n - 1);
      assert raw[..n] == read + [line];
      RefineToIsLaidOut(raw, n - 1);
      RefineToIsFaithful(raw, n - 1);
      InCodeOf(read, st);
      if KindOf(InCode(read), line) != Blank {
        PaddedWhenContentFollows(raw, n - 1);
      }
      StepIsLaidOut(read, st, LastPadded(raw, n - 1), line, Pad(raw, n - 1));
      HeadingIsLast(read, line);
    }
  }

  lemma InCodeOf(read: seq<string>, st: State)
    requires Faithful(read, st)
    ensures st.inCb == InCode(read)
  {
    hide InCode, Content, Spaced, Tidy, Relabel, CleanTitles, SeenIs;
  }

  lemma HeadingIsLast(read: seq<string>, line: string)
    ensures EndsWithHeading(read + [line]) <==> KindOf(InCode(read), line) == Heading
  {
    hide InCode, KindOf;
    Appended(read, line);
  }

  lemma NothingLaidOut(raw: seq<string>)
    ensures LaidOut(raw[..0], INITIAL.res, LastPadded(raw, 0))
    ensures RefineTo(raw, 0) == INITIAL
  {
    assert raw[..0] == [];
  }

  /** A heading is padded when the next line has content. */
  lemma PaddedWhenContentFollows(raw: seq<string>, n: nat)
    requires n < |raw| && KindOf(InCode(raw[..n]), raw[n]) != Blank
    ensures LastPadded(raw, n) <==> EndsWithHeading(raw[..n])
  {
    hide Trim, InCode;
    if EndsWithHeading(raw[..n]) {
      var read := raw[..n];
      assert Front(read) + [Last(read)] == read;
      HeadingIsOutsideCode(read);
      WhatKindsMean(InCode(read), raw[n]);
      NotEmptyUnlessBlank(raw[n]);
    }
  }

  lemma HeadingIsOutsideCode(ls: seq<string>)
    requires EndsWithHeading(ls)
    ensures !InCode(ls)
  {
    hide Trim;
  }

  lemma NotEmptyUnlessBlank(line: string)
    requires KindOf(false, line) != Blank
    ensures Trim(line) != ""
  {
    hide Trim;
  }

  /** Between two consecutive items of the result a blank line stands exactly when one stood there in the input or one of
      the two is a heading; none stands before the first item; and the result ends with a blank line exactly when it has
      content and the input ends with one. */
  lemma BlanksKeptExactly(raw: seq<string>)
    ensures var items, gaps, out := Content(raw), Gaps(raw), Gaps(Refine(raw));
            && |out| == |items| == |gaps| == |Content(Refine(raw))|
            && (forall i {:trigger out[i]} | 0 <= i < |out| ::
                 out[i] <==> i > 0 && (gaps[i] || items[i].Title? || items[i - 1].Title?))
            && (EndsWithGap(Refine(raw)) <==> items != [] && EndsWithGap(raw))
  {
    hide Gaps, Content, EndsWithGap, EndsWithHeading;
    RefineToIsLaidOut(raw, |raw|);
    assert raw[..|raw|] == raw;
    GapsMatchContent(Refine(raw));
    assert raw != [] ==> !Pad(raw, |raw| - 1);
    assert !LastPadded(raw, |raw|) by {
      assert raw == [] ==> !EndsWithHeading(raw) by {
        NothingEnds();
      }
    }
  }

  lemma NothingEnds()
    ensures !EndsWithHeading([])
  {
  }
}

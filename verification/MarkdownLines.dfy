/** What becomes of each line of a document, told on the lines of the result. */
module MarkdownLines {
  import opened MarkdownText
  import opened MarkdownHeadings
  import opened MarkdownStructure
  import opened MarkdownLaws

  predicate IsVerbatim(k: Kind) {
    k == Fence || k == Code
  }

  predicate IsText(k: Kind) {
    k == Text
  }

  predicate IsHeading(k: Kind) {
    k == Heading
  }

  /** The lines that are read as one of these kinds, in order. */
  function Picked(ls: seq<string>, p: Kind -> bool): seq<string> {
    if ls == [] then [] else Picked(Front(ls), p) + if p(LastKind(ls)) then [Last(ls)] else []
  }

  function ProseOf(items: seq<Item>): seq<string> {
    if items == [] then [] else ProseOf(Front(items)) + if Last(items).Prose? then [Last(items).line] else []
  }

  function WithoutEnds(ls: seq<string>): seq<string> {
    seq(|ls|, i requires 0 <= i < |ls| => TrimEnd(ls[i]))
  }

  lemma OneMoreItem(items: seq<Item>, item: Item)
    ensures CodeLines(items + [item]) == CodeLines(items) + if item.Verbatim? then [item.line] else []
    ensures Titles(items + [item]) == Titles(items) + if item.Title? then [item.text] else []
    ensures ProseOf(items + [item]) == ProseOf(items) + if item.Prose? then [item.line] else []
  {
    assert Front(items + [item]) == items && Last(items + [item]) == item;
  }

  lemma OneMoreLine(items: seq<Item>, inCode: bool, line: string)
    ensures var k, more := KindOf(inCode, line), items + ItemsOf(inCode, line);
            && CodeLines(more) == CodeLines(items) + (if IsVerbatim(k) then [line] else [])
            && Titles(more) == Titles(items) + (if IsHeading(k) then [line] else [])
            && ProseOf(more) == ProseOf(items) + (if IsText(k) then [TrimEnd(line)] else [])
  {
    hide KindOf, TrimEnd, CodeLines, Titles, ProseOf;
    if KindOf(inCode, line) == Blank {
      assert items + [] == items;
    } else {
      OneMoreItem(items, ItemsOf(inCode, line)[0]);
    }
  }

  lemma {:induction false} PickedAreItems(ls: seq<string>)
    ensures CodeLines(Content(ls)) == Picked(ls, IsVerbatim)
    ensures Titles(Content(ls)) == Picked(ls, IsHeading)
    ensures ProseOf(Content(ls)) == WithoutEnds(Picked(ls, IsText))
  {
    if ls != [] {
      hide KindOf, InCode, TrimEnd, CodeLines, Titles, ProseOf, ItemsOf, IsVerbatim, IsHeading, IsText;
      var before, line := Front(ls), Last(ls);
      PickedAreItems(before);
      OneMoreLine(Content(before), InCode(before), line);
      EndsAppended(Picked(before, IsText), line);
    }
  }

  lemma EndsAppended(ls: seq<string>, line: string)
    ensures WithoutEnds(ls + [line]) == WithoutEnds(ls) + [TrimEnd(line)] && WithoutEnds(ls + []) == WithoutEnds(ls)
  {
    hide TrimEnd;
    assert ls + [] == ls;
  }

  lemma {:induction false} RelabelKeepsProse(items: seq<Item>)
    ensures ProseOf(Relabel(items)) == ProseOf(items)
  {
    hide CleanTitles, Label, Count, Clean, Trim;
    if items != [] {
      RelabelKeepsProse(Front(items));
      OneMoreItem(Relabel(Front(items)), RelabelItem(Front(items), Last(items)));
    }
  }

  lemma {:induction false} TidyText(ls: seq<string>)
    requires Tidy(ls)
    ensures WithoutEnds(Picked(ls, IsText)) == Picked(ls, IsText)
  {
    if ls != [] {
      hide KindOf, InCode, TrimEnd;
      TidyText(Front(ls));
      var before, line := Picked(Front(ls), IsText), Last(ls);
      assert WithoutEnds(before + [line]) == WithoutEnds(before) + [TrimEnd(line)];
    }
  }

  /** Fences and the lines between them come out as they are, in order. */
  lemma CodeStays(raw: seq<string>)
    ensures Picked(Refine(raw), IsVerbatim) == Picked(raw, IsVerbatim)
  {
    hide Picked, Refine, Content;
    PickedAreItems(raw);
    PickedAreItems(Refine(raw));
    CodeIsVerbatim(raw);
  }

  /** Each line of text comes out, in order, without the white space at its end and otherwise as it is. */
  lemma TextStays(raw: seq<string>)
    ensures |Picked(Refine(raw), IsText)| == |Picked(raw, IsText)|
    ensures forall i | 0 <= i < |Picked(raw, IsText)| ::
              var before, after := Picked(raw, IsText)[i], Picked(Refine(raw), IsText)[i];
              && after <= before && (forall j | |after| <= j < |before| :: IsSpace(before[j]))
              && (after != "" ==> !IsSpace(after[|after| - 1]))
  {
    hide Picked, Refine, Content;
    PickedAreItems(raw);
    PickedAreItems(Refine(raw));
    RefineKeepsContent(raw);
    RelabelKeepsProse(Content(raw));
    RefinedIsNormal(raw);
    TidyText(Refine(raw));
    var a, b := Picked(raw, IsText), Picked(Refine(raw), IsText);
    assert b == WithoutEnds(a);
    assert forall i | 0 <= i < |a| :: b[i] == TrimEnd(a[i]);
  }

  /** `c` is the line without white space around it, and then without the punctuation and white space at its end. */
  predicate CleanedTo(line: string, c: string) {
    var t := Trim(line);
    && c <= t && (forall j | |c| <= j < |t| :: t[j] in {'.', '!', '?', ':', ' ', '\t', '\n', '\r'})
    && (c != "" ==> c[|c| - 1] !in {'.', '!', '?', ':', ' ', '\t', '\n', '\r'})
  }

  lemma CleanIs(line: string)
    ensures CleanedTo(line, Clean(Trim(line)))
  {
    hide Trim;
  }

  /** The headings come out in order, cleaned; and one that equals earlier ones in that form is numbered, in decimal, by
      how many of the same there are up to it. */
  lemma HeadingsAreNumbered(raw: seq<string>) returns (cleaned: seq<string>, digits: seq<string>)
    ensures |Picked(Refine(raw), IsHeading)| == |Picked(raw, IsHeading)| == |cleaned| == |digits|
    ensures forall i | 0 <= i < |cleaned| :: CleanedTo(Picked(raw, IsHeading)[i], cleaned[i])
    ensures forall i | 0 <= i < |cleaned| ::
              && (forall k | 0 <= k < |digits[i]| :: IsDigit(digits[i][k])) && digits[i] != "" && digits[i][0] != '0'
              && Value(digits[i]) == |set j: nat | j <= i && cleaned[j] == cleaned[i]|
              && Picked(Refine(raw), IsHeading)[i]
                 == if cleaned[i] !in cleaned[..i] then cleaned[i] else cleaned[i] + " [v" + digits[i] + "]"
  {
    hide Picked, Refine, Content, Titles, CleanTitles, Clean, Deduped, CleanedTo, Value;
    PickedAreItems(raw);
    PickedAreItems(Refine(raw));
    RefinedTitles(raw);
    cleaned := CleanTitles(Content(raw));
    SameNumberOfTitles(Content(raw));
    forall i | 0 <= i < |cleaned|
      ensures CleanedTo(Picked(raw, IsHeading)[i], cleaned[i])
    {
      CleanTitlesAt(Content(raw), i);
      CleanIs(Picked(raw, IsHeading)[i]);
    }
    digits := [];
    while |digits| < |cleaned|
      invariant |digits| <= |cleaned|
      invariant forall i | 0 <= i < |digits| ::
                  && (forall k | 0 <= k < |digits[i]| :: IsDigit(digits[i][k])) && digits[i] != "" && digits[i][0] != '0'
                  && Value(digits[i]) == |set j: nat | j <= i && cleaned[j] == cleaned[i]|
                  && Deduped(cleaned)[i]
                     == if cleaned[i] !in cleaned[..i] then cleaned[i] else cleaned[i] + " [v" + digits[i] + "]"
    {
      var d := RepeatsAreNumbered(cleaned, |digits|);
      digits := digits + [d];
    }
  }
}

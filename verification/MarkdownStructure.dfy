/** The structure normaliser: fenced code is kept, headings are deduplicated and surrounded by blank lines, runs of
    blank lines are collapsed. The repository holds two copies of it; both are tied to one function here. */
module MarkdownStructure {
  import opened MarkdownText
  import opened MarkdownHeadings

  // ---- How a document reads ----

  datatype Kind = Fence | Code | Heading | Blank | Text

  function KindOf(inCode: bool, line: string): Kind {
    if StartsWith(Trim(line), "```") then Fence
    else if inCode then Code
    else if StartsWith(Trim(line), "#") then Heading
    else if Trim(line) == "" then Blank
    else Text
  }

  function Front<T>(s: seq<T>): seq<T>
    requires s != []
  {
    s[..|s| - 1]
  }

  function Last<T>(s: seq<T>): T
    requires s != []
  {
    s[|s| - 1]
  }

  /** An odd number of fences so far. */
  predicate InCode(ls: seq<string>) {
    ls != [] && (InCode(Front(ls)) != (KindOf(InCode(Front(ls)), Last(ls)) == Fence))
  }

  function LastKind(ls: seq<string>): Kind
    requires ls != []
  {
    KindOf(InCode(Front(ls)), Last(ls))
  }

  /** What a document says, blank lines aside: code, fences and headings as they stand, text without its end space. */
  datatype Item = Verbatim(line: string) | Title(text: string) | Prose(line: string)

  function ItemsOf(inCode: bool, line: string): seq<Item> {
    match KindOf(inCode, line)
    case Fence => [Verbatim(line)]
    case Code => [Verbatim(line)]
    case Heading => [Title(line)]
    case Text => [Prose(TrimEnd(line))]
    case Blank => []
  }

  function Content(ls: seq<string>): seq<Item> {
    if ls == [] then [] else Content(Front(ls)) + ItemsOf(InCode(Front(ls)), Last(ls))
  }

  /** The heading lines. */
  function Titles(items: seq<Item>): seq<string> {
    if items == [] then []
    else Titles(Front(items)) + if Last(items).Title? then [Last(items).text] else []
  }

  /** The headings as they are compared: trimmed and without their tail. */
  function CleanTitles(items: seq<Item>): seq<string> {
    if items == [] then []
    else CleanTitles(Front(items)) + if Last(items).Title? then [Clean(Trim(Last(items).text))] else []
  }

  /** The code blocks, fences included. */
  function CodeLines(items: seq<Item>): seq<string> {
    if items == [] then []
    else CodeLines(Front(items)) + if Last(items).Verbatim? then [Last(items).line] else []
  }

  function RelabelItem(before: seq<Item>, item: Item): Item {
    if item.Title? then
      var c := Clean(Trim(item.text));
      Title(Label(c, Count(CleanTitles(before), c)))
    else item
  }

  /** The same items in the same order, each title cleaned and labelled by its earlier occurrences. */
  function Relabel(items: seq<Item>): seq<Item> {
    if items == [] then [] else Relabel(Front(items)) + [RelabelItem(Front(items), Last(items))]
  }

  /** `line` may follow `ls`: a blank is empty and neither first nor after a blank; a heading is first or after a
      blank; and only a blank follows a heading. */
  predicate MayFollow(ls: seq<string>, line: string) {
    var k := KindOf(InCode(ls), line);
    && (k == Blank ==> line == "" && ls != [] && LastKind(ls) != Blank)
    && (k == Heading ==> ls == [] || LastKind(ls) == Blank)
    && (ls != [] && LastKind(ls) == Heading ==> k == Blank)
  }

  predicate Spaced(ls: seq<string>) {
    ls == [] || (Spaced(Front(ls)) && MayFollow(Front(ls), Last(ls)))
  }

  /** Text has no white space at its end. */
  predicate TidyLine(inCode: bool, line: string) {
    KindOf(inCode, line) == Text ==> TrimEnd(line) == line
  }

  predicate Tidy(ls: seq<string>) {
    ls == [] || (Tidy(Front(ls)) && TidyLine(InCode(Front(ls)), Last(ls)))
  }

  // ---- The normaliser ----

  datatype State = State(res: seq<string>, seen: map<string, nat>, inCb: bool)

  const INITIAL := State([], map[], false)

  function EndsBlank(res: seq<string>): bool {
    res == [] || Last(res) == ""
  }

  /** `deduplicateHeader`: the heading to emit and the counts afterwards. */
  function Dedupe(t: string, seen: map<string, nat>): (string, map<string, nat>) {
    var c := Clean(t);
    if c in seen then (c + Suffix(seen[c] + 1), seen[c := seen[c] + 1]) else (c, seen[c := 1])
  }

  function Header(st: State, t: string, pad: bool): State {
    var (h, seen) := Dedupe(t, st.seen);
    State((if EndsBlank(st.res) then st.res else st.res + [""]) + [h] + (if pad then [""] else []), seen, st.inCb)
  }

  /** One line; `pad` says that a line with content comes next. */
  function Step(st: State, line: string, pad: bool): State {
    match KindOf(st.inCb, line)
    case Fence => st.(res := st.res + [line], inCb := !st.inCb)
    case Code => st.(res := st.res + [line])
    case Heading => Header(st, Trim(line), pad)
    case Text => st.(res := st.res + [TrimEnd(line)])
    case Blank => if EndsBlank(st.res) then st else st.(res := st.res + [TrimEnd(line)])
  }

  function Pad(raw: seq<string>, i: nat): bool {
    i + 1 < |raw| && Trim(raw[i + 1]) != ""
  }

  /** The first `n` lines of `raw`, processed from the state `st`. */
  function RefineFrom(st: State, raw: seq<string>, n: nat): State
    requires n <= |raw|
  {
    if n == 0 then st else Step(RefineFrom(st, raw, n - 1), raw[n - 1], Pad(raw, n - 1))
  }

  function RefineTo(raw: seq<string>, n: nat): State
    requires n <= |raw|
  {
    RefineFrom(INITIAL, raw, n)
  }

  function Refine(raw: seq<string>): seq<string> {
    RefineTo(raw, |raw|).res
  }

  // ---- Appending one line ----

  lemma Appended(ls: seq<string>, line: string)
    ensures InCode(ls + [line]) == (InCode(ls) != (KindOf(InCode(ls), line) == Fence))
    ensures LastKind(ls + [line]) == KindOf(InCode(ls), line)
    ensures Content(ls + [line]) == Content(ls) + ItemsOf(InCode(ls), line)
    ensures Spaced(ls + [line]) == (Spaced(ls) && MayFollow(ls, line))
    ensures Tidy(ls + [line]) == (Tidy(ls) && TidyLine(InCode(ls), line))
  {
    assert Front(ls + [line]) == ls && Last(ls + [line]) == line;
  }

  /** Outside code the last line is blank exactly when it is the empty string. */
  lemma EmptyIsBlank(ls: seq<string>)
    requires ls != [] && !InCode(ls) && Spaced(ls)
    ensures Last(ls) == "" <==> LastKind(ls) == Blank
  {
  }

  lemma EmptyLine(inCode: bool)
    ensures KindOf(inCode, "") == if inCode then Code else Blank
  {
  }

  lemma TextLine(line: string)
    requires KindOf(false, line) == Text
    ensures KindOf(false, TrimEnd(line)) == Text && TrimEnd(TrimEnd(line)) == TrimEnd(line) && TrimEnd(line) != ""
  {
    hide Trim, TrimEnd;
    TrimIsTrimmed(line);
  }

  lemma BlankLine(line: string)
    requires KindOf(false, line) == Blank
    ensures TrimEnd(line) == ""
  {
    hide Trim, TrimEnd;
    TrimIsTrimmed(line);
  }

  lemma HeadingLine(t: string, k: nat)
    requires StartsWith(t, "#")
    ensures KindOf(false, Label(Clean(t), k)) == Heading
  {
    CleanKeepsHash(t);
    var h := Label(Clean(t), k);
    assert h[0] == '#';
    var e := TrimEnd(h);
    assert e != "" && e[0] == '#' && TrimStart(e) == e;
  }

  lemma ItemAppended(items: seq<Item>, item: Item)
    ensures Relabel(items + [item]) == Relabel(items) + [RelabelItem(items, item)]
    ensures CleanTitles(items + [item]) == CleanTitles(items) + if item.Title? then [Clean(Trim(item.text))] else []
    ensures Titles(items + [item]) == Titles(items) + if item.Title? then [item.text] else []
    ensures CodeLines(items + [item]) == CodeLines(items) + if item.Verbatim? then [item.line] else []
  {
    assert Front(items + [item]) == items && Last(items + [item]) == item;
  }

  lemma CountAppended(cs: seq<string>, c: string)
    ensures forall d :: Count(cs + [c], d) == Count(cs, d) + if c == d then 1 else 0
  {
    assert (cs + [c])[..|cs|] == cs;
  }

  // ---- The invariant of the loop ----

  /** `seen` holds the count of every heading so far. */
  ghost predicate SeenIs(seen: map<string, nat>, cs: seq<string>) {
    forall c :: (c in seen <==> Count(cs, c) > 0) && (c in seen ==> seen[c] == Count(cs, c))
  }

  /** The result so far says what the lines read so far say, and is spaced but for a heading whose blank comes next. */
  ghost predicate Faithful(read: seq<string>, st: State) {
    && st.inCb == InCode(read) && InCode(st.res) == st.inCb
    && Content(st.res) == Relabel(Content(read))
    && SeenIs(st.seen, CleanTitles(Content(read)))
    && Spaced(st.res) && Tidy(st.res)
  }

  predicate AwaitsBlank(res: seq<string>) {
    res != [] && LastKind(res) == Heading
  }

  lemma InCodeKind(ls: seq<string>)
    requires InCode(ls)
    ensures LastKind(ls) == Fence || LastKind(ls) == Code
  {
  }

  lemma WhatKindsMean(inCode: bool, line: string)
    ensures var k := KindOf(inCode, line);
            && (k == Fence || k == Code ==> ItemsOf(inCode, line) == [Verbatim(line)])
            && (k == Fence ==> Trim(line) != "") && (k == Code ==> inCode)
            && (k == Text ==> ItemsOf(inCode, line) == [Prose(TrimEnd(line))] && Trim(line) != "" && !inCode)
            && (k == Blank ==> ItemsOf(inCode, line) == [] && !inCode)
  {
    hide Trim;
  }

  /** A line that is neither blank nor a heading may follow anything but a heading. */
  lemma PlainLineMayFollow(ls: seq<string>, line: string)
    requires KindOf(InCode(ls), line) != Blank && KindOf(InCode(ls), line) != Heading && !AwaitsBlank(ls)
    ensures MayFollow(ls, line)
  {
  }

  lemma VerbatimStep(read: seq<string>, st: State, line: string)
    requires Faithful(read, st) && (KindOf(st.inCb, line) == Fence || KindOf(st.inCb, line) == Code)
    requires AwaitsBlank(st.res) ==> Trim(line) == ""
    ensures Faithful(read + [line], Step(st, line, false)) && !AwaitsBlank(Step(st, line, false).res)
  {
    hide Content, Spaced, Relabel, CleanTitles, InCode, Tidy, Count, Clean, Trim, KindOf, ItemsOf, SeenIs, LastKind, MayFollow;
    WhatKindsMean(st.inCb, line);
    Appended(read, line);
    Appended(st.res, line);
    ItemAppended(Content(read), Verbatim(line));
    assert CleanTitles(Content(read)) + [] == CleanTitles(Content(read));
    if st.inCb {
      InCodeKind(st.res);
    }
    PlainLineMayFollow(st.res, line);
  }

  lemma TextStep(read: seq<string>, st: State, line: string)
    requires Faithful(read, st) && KindOf(st.inCb, line) == Text
    requires AwaitsBlank(st.res) ==> Trim(line) == ""
    ensures Faithful(read + [line], Step(st, line, false)) && !AwaitsBlank(Step(st, line, false).res)
  {
    hide Content, Spaced, Relabel, CleanTitles, InCode, Tidy, Count, Clean, Trim, KindOf, ItemsOf, SeenIs, LastKind, MayFollow;
    WhatKindsMean(st.inCb, line);
    assert CleanTitles(Content(read)) + [] == CleanTitles(Content(read));
    TextLine(line);
    WhatKindsMean(st.inCb, TrimEnd(line));
    Appended(read, line);
    Appended(st.res, TrimEnd(line));
    ItemAppended(Content(read), Prose(TrimEnd(line)));
    PlainLineMayFollow(st.res, TrimEnd(line));
  }

  lemma BlankAppended(res: seq<string>)
    requires !InCode(res) && Spaced(res) && !EndsBlank(res)
    ensures !InCode(res + [""]) && Spaced(res + [""]) && Content(res + [""]) == Content(res) && LastKind(res + [""]) == Blank
    ensures Tidy(res) ==> Tidy(res + [""])
  {
    hide Content, Spaced, Relabel, CleanTitles, InCode, Tidy, Count, Clean, TrimStart, TrimEnd;
    Appended(res, "");
    EmptyLine(false);
    EmptyIsBlank(res);
  }

  lemma BlankStep(read: seq<string>, st: State, line: string)
    requires Faithful(read, st) && KindOf(st.inCb, line) == Blank
    ensures Faithful(read + [line], Step(st, line, false)) && !AwaitsBlank(Step(st, line, false).res)
  {
    hide Content, Spaced, Relabel, CleanTitles, InCode, Tidy, Count, Clean, TrimStart, TrimEnd;
    Appended(read, line);
    BlankLine(line);
    assert Content(read) + [] == Content(read);
    if !EndsBlank(st.res) {
      BlankAppended(st.res);
    } else if st.res != [] {
      EmptyIsBlank(st.res);
    }
  }

  lemma DedupeIsLabel(t: string, seen: map<string, nat>, cs: seq<string>)
    requires SeenIs(seen, cs)
    ensures Dedupe(t, seen).0 == Label(Clean(t), Count(cs, Clean(t)))
    ensures SeenIs(Dedupe(t, seen).1, cs + [Clean(t)])
  {
    hide Count, Suffix, Clean;
    CountAppended(cs, Clean(t));
  }

  /** The blank before a heading, when there is none yet. */
  lemma BeforeHeading(res: seq<string>)
    requires !InCode(res) && Spaced(res)
    ensures var r := if EndsBlank(res) then res else res + [""];
            && !InCode(r) && Spaced(r) && Content(r) == Content(res) && (r == [] || LastKind(r) == Blank)
            && (Tidy(res) ==> Tidy(r))
  {
    hide Content, Spaced, Relabel, CleanTitles, InCode, Tidy, Count, Clean, TrimStart, TrimEnd;
    if !EndsBlank(res) {
      BlankAppended(res);
    } else if res != [] {
      EmptyIsBlank(res);
    }
  }

  lemma HeadingAppended(res: seq<string>, h: string, pad: bool)
    requires !InCode(res) && Spaced(res) && (res == [] || LastKind(res) == Blank) && KindOf(false, h) == Heading && h != ""
    ensures var r := res + [h] + if pad then [""] else [];
            && !InCode(r) && Spaced(r) && Content(r) == Content(res) + [Title(h)] && (pad ==> !AwaitsBlank(r))
            && (Tidy(res) ==> Tidy(r))
  {
    hide Content, Spaced, Relabel, CleanTitles, InCode, Tidy, Count, Clean, Trim, KindOf, ItemsOf;
    Appended(res, h);
    HeadingIsHash(false, h);
    if pad {
      BlankAppended(res + [h]);
    } else {
      assert res + [h] + [] == res + [h];
    }
  }

  lemma HeadingStep(read: seq<string>, st: State, line: string, pad: bool)
    requires Faithful(read, st) && KindOf(st.inCb, line) == Heading
    ensures Faithful(read + [line], Step(st, line, pad)) && (pad ==> !AwaitsBlank(Step(st, line, pad).res))
  {
    hide Content, Spaced, Relabel, Clean, CleanTitles, InCode, Tidy, Count, Trim;
    var t, cs := Trim(line), CleanTitles(Content(read));
    HeadingIsHash(st.inCb, line);
    var h := Label(Clean(t), Count(cs, Clean(t)));
    Appended(read, line);
    ItemAppended(Content(read), Title(line));
    DedupeIsLabel(t, st.seen, cs);
    HeadingLine(t, Count(cs, Clean(t)));
    BeforeHeading(st.res);
    LabelNotEmpty(t, Count(cs, Clean(t)));
    HeadingAppended(if EndsBlank(st.res) then st.res else st.res + [""], h, pad);
  }

  lemma HeadingIsHash(inCode: bool, line: string)
    requires KindOf(inCode, line) == Heading
    ensures !inCode && StartsWith(Trim(line), "#") && ItemsOf(inCode, line) == [Title(line)]
  {
  }

  lemma LabelNotEmpty(t: string, k: nat)
    requires StartsWith(t, "#")
    ensures Label(Clean(t), k) != ""
  {
    CleanKeepsHash(t);
  }

  lemma StepIsFaithful(read: seq<string>, st: State, line: string, pad: bool)
    requires Faithful(read, st) && (AwaitsBlank(st.res) ==> Trim(line) == "")
    ensures Faithful(read + [line], Step(st, line, pad)) && (pad ==> !AwaitsBlank(Step(st, line, pad).res))
  {
    hide Faithful;
    match KindOf(st.inCb, line)
    case Fence => VerbatimStep(read, st, line);
    case Code => VerbatimStep(read, st, line);
    case Text => TextStep(read, st, line);
    case Blank => BlankStep(read, st, line);
    case Heading => HeadingStep(read, st, line, pad);
  }

  lemma InitialIsFaithful()
    ensures Faithful([], INITIAL) && !AwaitsBlank(INITIAL.res)
  {
  }

  lemma {:induction false} RefineToIsFaithful(raw: seq<string>, n: nat)
    requires n <= |raw|
    ensures Faithful(raw[..n], RefineTo(raw, n))
    ensures AwaitsBlank(RefineTo(raw, n).res) && n < |raw| ==> Trim(raw[n]) == ""
  {
    hide Step, Trim, Faithful, AwaitsBlank;
    if n == 0 {
      InitialIsFaithful();
      assert raw[..0] == [];
    } else {
      RefineToIsFaithful(raw, n - 1);
      assert raw[..n] == raw[..n - 1] + [raw[n - 1]];
      StepIsFaithful(raw[..n - 1], RefineTo(raw, n - 1), raw[n - 1], Pad(raw, n - 1));
    }
  }
}

/** `transformCallouts` (src/main.ts:478-565): every blockquote whose first paragraph opens with a
    `[!type]` header becomes a one-cell table holding a title paragraph and the blockquote's
    paragraphs, restyled. The document is the list of `body`'s children; parsing and
    serialisation are outside the model. */
module Callouts {

  import opened Wrappers
  import opened Text
  import opened Dom
  import opened DomQuery
  import opened CalloutHeader
  import opened CalloutTables

  predicate IsBr(n: Node) { IsElement(n, "br") }

  /** `textContent` of each node of a list, concatenated. */
  function TextContents(cs: seq<Node>): string {
    if cs == [] then [] else TextContent(cs[0]) + TextContents(cs[1..])
  }

  /** `getFirstBreakElement`: the position of the first `br` child. */
  function FirstBreak(cs: seq<Node>): (r: Option<nat>)
    ensures r.Some? ==> r.value < |cs| && IsBr(cs[r.value])
  {
    if cs == [] then None
    else if IsBr(cs[0]) then Some(0)
    else match FirstBreak(cs[1..])
      case None => None
      case Some(i) => Some(i + 1)
  }

  /** The break found is a `br`, no child before it is one, and none is found only when no child
      is one. */
  lemma {:induction false} FirstBreakIsFirst(cs: seq<Node>)
    ensures FirstBreak(cs).Some? ==> IsBr(cs[FirstBreak(cs).value])
    ensures FirstBreak(cs).Some? ==> forall j | 0 <= j < FirstBreak(cs).value :: !IsBr(cs[j])
    ensures FirstBreak(cs).None? <==> forall j | 0 <= j < |cs| :: !IsBr(cs[j])
  {
    if cs != [] && !IsBr(cs[0]) {
      FirstBreakIsFirst(cs[1..]);
      assert forall j | 1 <= j < |cs| :: cs[j] == cs[1..][j - 1];
    }
  }

  /** `getFirstLineText`: the `textContent` of the children before the first `br`. */
  function FirstLineText(cs: seq<Node>): (r: string)
    ensures r <= TextContents(cs)
  {
    if cs == [] || IsBr(cs[0]) then [] else TextContent(cs[0]) + FirstLineText(cs[1..])
  }

  /** The first line is the text of exactly the children that precede the first `br`, or of all
      children when there is none. */
  lemma {:induction false} FirstLineIsBeforeBreak(cs: seq<Node>)
    ensures FirstLineText(cs) == TextContents(cs[..if FirstBreak(cs).Some? then FirstBreak(cs).value else |cs|])
  {
    if cs != [] && !IsBr(cs[0]) {
      FirstLineIsBeforeBreak(cs[1..]);
      var k := if FirstBreak(cs[1..]).Some? then FirstBreak(cs[1..]).value else |cs| - 1;
      assert cs[..k + 1][1..] == cs[1..][..k];
    }
  }

  /** What the header says: the canonical type and the title to show. */
  datatype Heading = Heading(kind: string, title: string)

  /** Lines 488-495: the trimmed first line against the header pattern; the raw type is lower-cased
      and normalised, an empty custom title gives way to the type's default. */
  function MatchHeading(p: Node): (r: Option<Heading>)
    requires p.Element?
    ensures r.Some? ==> r.value.kind in CanonicalTypes && r.value.title != []
  {
    match ParseHeader(Trim(FirstLineText(p.children)))
    case None => None
    case Some(h) =>
      var kind := NormalizeCalloutType(AsciiLower(h.kind));
      var custom := Trim(h.title);
      Some(Heading(kind, if custom != [] then custom else DefaultTitle(kind)))
  }

  /** Lines 497-509: what replaces the first paragraph. With a `br`, the paragraph keeps only the
      children after it, unless their text is blank; without one, it goes. */
  function StripHeader(p: Node): (r: seq<Node>)
    requires p.Element?
    ensures |r| <= 1 && (r != [] ==> r[0].Element? && r[0] == p.(children := r[0].children))
    ensures r != [] ==> |r[0].children| < |p.children| && r[0].children == p.children[|p.children| - |r[0].children|..]
  {
    var br := FirstBreak(p.children);
    if br.None? || Blank(p.children[br.value + 1..]) then []
    else [p.(children := p.children[br.value + 1..])]
  }

  /** The text of these children is all white space. */
  predicate Blank(cs: seq<Node>) {
    AllSpace(ChildrenText(cs))
  }

  /** `!textContent.trim()` on an element with these children. */
  lemma BlankIff(cs: seq<Node>)
    ensures Blank(cs) <==> Trim(ChildrenText(cs)) == []
  {
    TrimEmptyIff(ChildrenText(cs));
  }

  const TableStyles: Pairs :=
    [("width", "100%"), ("margin", "20px 0"), ("border-collapse", "collapse"), ("border-spacing", "0")]

  function CellStyles(theme: Theme): Pairs {
    [("border-left", "4px solid " + theme.borderColor), ("background", theme.background),
     ("padding", "12px 16px"), ("border-radius", "8px")]
  }

  function TitleStyles(theme: Theme): Pairs {
    [("margin", "0 0 10px 0"), ("color", theme.titleColor), ("font-size", "15px"),
     ("font-weight", "700"), ("line-height", "1.6")]
  }

  const BodyStyles: Pairs :=
    [("margin", "0 0 12px 0"), ("color", "#333"), ("font-size", "16px"), ("font-weight", "400"),
     ("line-height", "1.9")]

  const LastMargin: Pairs := [("margin", "0")]

  /** A paragraph style carrying the body declarations, with the given margin. */
  predicate HasBodyStyle(style: Pairs, margin: string) {
    && Lookup(style, "margin") == Some(margin)
    && Lookup(style, "color") == Some("#333")
    && Lookup(style, "font-size") == Some("16px")
    && Lookup(style, "font-weight") == Some("400")
    && Lookup(style, "line-height") == Some("1.9")
  }

  lemma BodyMargin(d: Pairs)
    ensures Lookup(SetAll(d, BodyStyles), "margin") == Some("0 0 12px 0")
  {
    SetAllLookup(d, BodyStyles, 0);
  }

  lemma BodyColor(d: Pairs)
    ensures Lookup(SetAll(d, BodyStyles), "color") == Some("#333")
  {
    SetAllLookup(d, BodyStyles, 1);
  }

  lemma BodyFontSize(d: Pairs)
    ensures Lookup(SetAll(d, BodyStyles), "font-size") == Some("16px")
  {
    SetAllLookup(d, BodyStyles, 2);
  }

  lemma BodyFontWeight(d: Pairs)
    ensures Lookup(SetAll(d, BodyStyles), "font-weight") == Some("400")
  {
    SetAllLookup(d, BodyStyles, 3);
  }

  lemma BodyLineHeight(d: Pairs)
    ensures Lookup(SetAll(d, BodyStyles), "line-height") == Some("1.9")
  {
    SetAllLookup(d, BodyStyles, 4);
  }

  /** Whatever style a paragraph had, the body declarations override it. */
  lemma BodyStyled(d: Pairs)
    ensures HasBodyStyle(SetAll(d, BodyStyles), "0 0 12px 0")
  {
    BodyMargin(d);
    BodyColor(d);
    BodyFontSize(d);
    BodyFontWeight(d);
    BodyLineHeight(d);
  }

  /** The last paragraph's margin override touches nothing else. */
  lemma LastStyled(d: Pairs, margin: string)
    requires HasBodyStyle(d, margin)
    ensures HasBodyStyle(SetAll(d, LastMargin), "0")
  {
    SetAllLookup(d, LastMargin, 0);
  }

  /** Two elements that differ at most in their style. */
  predicate SameButStyle(a: Node, b: Node) {
    a.Element? && b.Element? && a.tag == b.tag && a.attrs == b.attrs && a.children == b.children
  }

  /** One paragraph of the body: the body styles, and margin `0` when it is the last one. */
  function Styled(p: Node, last: bool): (r: Node)
    requires p.Element?
    ensures r.Element? && r == p.(style := r.style)
    ensures HasBodyStyle(r.style, if last then "0" else "0 0 12px 0")
    ensures forall k :: k !in Names(BodyStyles) ==> Lookup(r.style, k) == Lookup(p.style, k)
  {
    var q := p.(style := SetAll(p.style, BodyStyles));
    BodyStyled(p.style);
    if last then
      LastStyled(q.style, "0 0 12px 0");
      NamesIndex(BodyStyles);
      NamesIndex(LastMargin);
      q.(style := SetAll(q.style, LastMargin))
    else q
  }

  /** Lines 541-556: the body styles on every paragraph, then margin `0` on the last one. Nothing
      but the style changes, and style declarations the body styles do not name are kept. */
  function Restyle(ps: seq<Node>): (r: seq<Node>)
    requires forall i | 0 <= i < |ps| :: ps[i].Element?
    ensures |r| == |ps|
    ensures forall i | 0 <= i < |ps| :: r[i].Element? && r[i] == ps[i].(style := r[i].style)
    ensures forall i | 0 <= i < |ps| ::
      HasBodyStyle(r[i].style, if i == |ps| - 1 then "0" else "0 0 12px 0")
    ensures forall i, k | 0 <= i < |ps| && k !in Names(BodyStyles) ::
      Lookup(r[i].style, k) == Lookup(ps[i].style, k)
  {
    seq(|ps|, i requires 0 <= i < |ps| => Styled(ps[i], i == |ps| - 1))
  }

  /** Lines 530-539: the title paragraph. */
  function TitleParagraph(theme: Theme, title: string): Node {
    Element("p", [], SetAll([], TitleStyles(theme)), [Text(title)])
  }

  /** Lines 520-528, 540-551: the cell, the title paragraph first. */
  function CellNode(theme: Theme, title: string, body: seq<Node>): Node {
    Element("td", [], SetAll([], CellStyles(theme)), [TitleParagraph(theme, title)] + body)
  }

  /** Lines 511-518, 553-558: `table > tbody > tr > td`. */
  function Table(theme: Theme, title: string, body: seq<Node>): Node {
    var row := Element("tr", [], [], [CellNode(theme, title, body)]);
    Element("table", [], SetAll([], TableStyles), [Element("tbody", [], [], [row])])
  }

  /** One blockquote, given its children: the table it becomes, or `None` when it is left alone. */
  function TransformBlockquote(cs: seq<Node>): (r: Option<Node>)
    ensures FirstF(cs, "p").None? ==> r.None?
    ensures r.Some? ==> IsElement(r.value, "table") && |r.value.children| == 1
  {
    match FirstF(cs, "p")
    case None => None
    case Some(p0) =>
      match MatchHeading(p0)
      case None => None
      case Some(hd) =>
        var body := SelectF(EditF(cs, "p", StripHeader(p0)), "p");
        Some(Table(CalloutTheme(hd.kind), hd.title, Restyle(body)))
  }

  /** The loop over every blockquote in tree order. A matched blockquote is replaced before the
      ones inside it are visited; by then their paragraphs have moved into the table, so they
      have none and are skipped. An unmatched one stays and the ones inside it are visited. */
  function TransformForest(cs: seq<Node>): (r: seq<Node>)
    ensures |r| == |cs|
    ensures forall i | 0 <= i < |cs| :: r[i] == TransformNode(cs[i])
    decreases cs
  {
    if cs == [] then [] else [TransformNode(cs[0])] + TransformForest(cs[1..])
  }

  function TransformNode(n: Node): (r: Node)
    decreases n
  {
    match n
    case Element(tag, attrs, style, cs) =>
      if tag == "blockquote" && TransformBlockquote(cs).Some? then TransformBlockquote(cs).value
      else Element(tag, attrs, style, TransformForest(cs))
    case _ => n
  }

  /** `transformCallouts` on the children of `body`. */
  function TransformCallouts(body: seq<Node>): (r: seq<Node>)
    ensures |r| == |body|
    ensures NoBlockquote(body) ==> r == body
  {
    assert NoBlockquote(body) ==> TransformForest(body) == body by {
      if NoBlockquote(body) { NoBlockquoteUnchangedF(body); }
    }
    TransformForest(body)
  }

  // ---------------------------------------------------------------------------------------
  // Which blockquotes are left alone

  /** The trimmed first line is in the language of the header pattern. */
  ghost predicate IsHeaderLine(line: string) {
    exists kind, fold, gap, title :: HeaderShape(line, kind, fold, gap, title)
  }

  /** A paragraph opens a callout exactly when its trimmed first line is in the language of the
      header pattern. */
  lemma HeadingIff(p: Node)
    requires p.Element?
    ensures MatchHeading(p).Some? <==> IsHeaderLine(Trim(FirstLineText(p.children)))
  {
    var line := Trim(FirstLineText(p.children));
    if ParseHeader(line).Some? {
      var h := ParseHeader(line).value;
      ParseHeaderSound(line, h);
    }
    if IsHeaderLine(line) {
      var kind, fold, gap, title :| HeaderShape(line, kind, fold, gap, title);
      ParseHeaderComplete(line, kind, fold, gap, title);
    }
  }

  /** Lines 485-490: a blockquote without a paragraph, or whose first paragraph's first line is
      not a header, is not transformed. */
  lemma LeftAloneIff(cs: seq<Node>)
    ensures TransformBlockquote(cs).None? <==>
      FirstF(cs, "p").None? || !IsHeaderLine(Trim(FirstLineText(FirstF(cs, "p").value.children)))
  {
    if FirstF(cs, "p").Some? {
      HeadingIff(FirstF(cs, "p").value);
    }
  }

  predicate NoBlockquote(cs: seq<Node>) {
    FirstF(cs, "blockquote").None?
  }

  /** A document without blockquotes comes out as it went in. */
  lemma {:induction false} NoBlockquoteUnchangedF(cs: seq<Node>)
    requires NoBlockquote(cs)
    ensures TransformForest(cs) == cs
    decreases cs
  {
    if cs != [] {
      NoBlockquoteUnchangedN(cs[0]);
      NoBlockquoteUnchangedF(cs[1..]);
    }
  }

  lemma {:induction false} NoBlockquoteUnchangedN(n: Node)
    requires FirstN(n, "blockquote").None?
    ensures TransformNode(n) == n
    decreases n
  {
    if n.Element? {
      NoBlockquoteUnchangedF(n.children);
    }
  }

  // ---------------------------------------------------------------------------------------
  // The title

  /** The `trim` of the custom title on line 493 never changes anything: the first line was
      trimmed, and the greedy `\s*` leaves no white space at the head of the capture. */
  lemma TitleAlreadyTrimmed(line: string, h: Header)
    requires ParseHeader(Trim(line)) == Some(h)
    ensures Trim(h.title) == h.title
  {
    var s := Trim(line);
    ParseHeaderSound(s, h);
    if h.title != [] {
      var pre := "[!" + h.kind + "]" + h.fold + h.gap;
      assert s == pre + h.title;
      assert s[|s| - 1] == h.title[|h.title| - 1];
    }
    TrimOfTrimmed(h.title);
  }

  /** Lines 492-495: the title is the text after the header, or the type's default title when
      there is none. */
  lemma HeadingTitle(p: Node)
    requires p.Element? && MatchHeading(p).Some?
    ensures var h := ParseHeader(Trim(FirstLineText(p.children))).value;
      MatchHeading(p).value.title == if h.title != [] then h.title else DefaultTitle(MatchHeading(p).value.kind)
  {
    var h := ParseHeader(Trim(FirstLineText(p.children))).value;
    TitleAlreadyTrimmed(FirstLineText(p.children), h);
  }

  // ---------------------------------------------------------------------------------------
  // Header stripping

  /** Lines 497-509, 580-587: the first paragraph goes when it has no `br`, or when the text
      after its first `br` is blank. */
  lemma StripHeaderRemoved(p: Node)
    requires p.Element?
    ensures StripHeader(p) == [] <==>
      FirstBreak(p.children).None? || Trim(ChildrenText(p.children[FirstBreak(p.children).value + 1..])) == []
  {
    StripDecision(p);
    if FirstBreak(p.children).Some? {
      BlankIff(p.children[FirstBreak(p.children).value + 1..]);
    }
  }

  lemma StripDecision(p: Node)
    requires p.Element?
    ensures StripHeader(p) == [] <==>
      FirstBreak(p.children).None? || Blank(p.children[FirstBreak(p.children).value + 1..])
  {
  }

  /** Otherwise it stays, with every child up to and including the first `br` removed and the
      rest untouched. */
  lemma StripHeaderKept(p: Node)
    requires p.Element?
    ensures |StripHeader(p)| <= 1
    ensures StripHeader(p) != [] ==>
      var q := StripHeader(p)[0];
      var k := FirstBreak(p.children).value;
      && q == p.(children := q.children)
      && p.children == p.children[..k] + [p.children[k]] + q.children
  {
    match FirstBreak(p.children)
    case None =>
    case Some(k) =>
      assert p.children == p.children[..k] + [p.children[k]] + p.children[k + 1..];
  }

  // ---------------------------------------------------------------------------------------
  // The table

  lemma CellBorder(theme: Theme)
    ensures Lookup(SetAll([], CellStyles(theme)), "border-left") == Some("4px solid " + theme.borderColor)
  {
    SetAllLookup([], CellStyles(theme), 0);
  }

  lemma CellBackground(theme: Theme)
    ensures Lookup(SetAll([], CellStyles(theme)), "background") == Some(theme.background)
  {
    SetAllLookup([], CellStyles(theme), 1);
  }

  lemma TitleColor(theme: Theme)
    ensures Lookup(SetAll([], TitleStyles(theme)), "color") == Some(theme.titleColor)
  {
    SetAllLookup([], TitleStyles(theme), 1);
  }

  /** The cell of a callout table: the only cell of its only row. */
  function Cell(t: Node): Node
    requires t.Element? && |t.children| == 1 && t.children[0].Element? && |t.children[0].children| == 1
    requires t.children[0].children[0].Element? && |t.children[0].children[0].children| == 1
  {
    t.children[0].children[0].children[0]
  }

  predicate IsCalloutTable(t: Node) {
    && IsElement(t, "table") && |t.children| == 1
    && IsElement(t.children[0], "tbody") && |t.children[0].children| == 1
    && IsElement(t.children[0].children[0], "tr") && |t.children[0].children[0].children| == 1
    && IsElement(Cell(t), "td") && |Cell(t).children| >= 1
  }

  /** Lines 511-539, 558-561: `table > tbody > tr > td`; the cell has the theme's left border and
      background, and its first child is a paragraph holding the title in the theme's title
      colour; the body follows. */
  lemma TableShape(theme: Theme, title: string, body: seq<Node>)
    ensures var t := Table(theme, title, body);
      && IsCalloutTable(t)
      && Lookup(Cell(t).style, "border-left") == Some("4px solid " + theme.borderColor)
      && Lookup(Cell(t).style, "background") == Some(theme.background)
      && IsElement(Cell(t).children[0], "p")
      && Cell(t).children[0].children == [Text(title)]
      && Lookup(Cell(t).children[0].style, "color") == Some(theme.titleColor)
      && Cell(t).children[1..] == body
  {
    var td := CellNode(theme, title, body);
    assert Cell(Table(theme, title, body)) == td;
    assert td.style == SetAll([], CellStyles(theme));
    assert td.children[0] == TitleParagraph(theme, title);
    CellBorder(theme);
    CellBackground(theme);
    TitleColor(theme);
  }

  /** What the cell holds after the title. */
  function CellBody(cs: seq<Node>): seq<Node>
    requires TransformBlockquote(cs).Some?
  {
    Cell(TransformBlockquote(cs).value).children[1..]
  }

  /** A matched blockquote becomes a callout table whose cell has the theme of the header's type
      and the header's title. */
  lemma CalloutShape(cs: seq<Node>)
    requires TransformBlockquote(cs).Some?
    ensures var hd := MatchHeading(FirstF(cs, "p").value).value;
      var theme := CalloutTheme(hd.kind);
      var t := TransformBlockquote(cs).value;
      && IsCalloutTable(t)
      && Lookup(Cell(t).style, "border-left") == Some("4px solid " + theme.borderColor)
      && Lookup(Cell(t).style, "background") == Some(theme.background)
      && IsElement(Cell(t).children[0], "p")
      && Cell(t).children[0].children == [Text(hd.title)]
      && Lookup(Cell(t).children[0].style, "color") == Some(theme.titleColor)
  {
    var p0 := FirstF(cs, "p").value;
    var hd := MatchHeading(p0).value;
    TableShape(CalloutTheme(hd.kind), hd.title, Restyle(SelectF(EditF(cs, "p", StripHeader(p0)), "p")));
  }

  /** Lines 541-551: only paragraphs are moved into the cell; everything else in the blockquote
      is dropped with it. */
  lemma CellHoldsOnlyParagraphs(cs: seq<Node>)
    requires TransformBlockquote(cs).Some?
    ensures forall i | 0 <= i < |CellBody(cs)| :: IsElement(CellBody(cs)[i], "p")
  {
    var p0 := FirstF(cs, "p").value;
    var hd := MatchHeading(p0).value;
    var body := Restyle(SelectF(EditF(cs, "p", StripHeader(p0)), "p"));
    TableShape(CalloutTheme(hd.kind), hd.title, body);
  }

  lemma CellBodyIsRestyled(cs: seq<Node>)
    requires TransformBlockquote(cs).Some?
    ensures var p0 := FirstF(cs, "p").value;
      CellBody(cs) == Restyle(SelectF(EditF(cs, "p", StripHeader(p0)), "p"))
  {
    var p0 := FirstF(cs, "p").value;
    var hd := MatchHeading(p0).value;
    TableShape(CalloutTheme(hd.kind), hd.title, Restyle(SelectF(EditF(cs, "p", StripHeader(p0)), "p")));
  }

  /** The paragraphs of the blockquote once the header is stripped: what is left of the first
      one, then every later one in order. This needs the first paragraph to hold no paragraph of
      its own; raw inline HTML such as `<button><p>` inside it would give it one. */
  lemma ParagraphsAfterStrip(cs: seq<Node>)
    requires FirstF(cs, "p").Some? && FirstF(FirstF(cs, "p").value.children, "p").None?
    ensures var p0 := FirstF(cs, "p").value;
      SelectF(cs, "p") != [] &&
      SelectF(EditF(cs, "p", StripHeader(p0)), "p") == StripHeader(p0) + SelectF(cs, "p")[1..]
  {
    var p0 := FirstF(cs, "p").value;
    var repl := StripHeader(p0);
    EditSelectF(cs, "p", repl);
    StripHeaderKept(p0);
    if repl != [] {
      var k := FirstBreak(p0.children).value;
      FirstNoneSuffix(p0.children, "p", k + 1);
      assert repl[0].children == p0.children[k + 1..];
      SelectFlat(repl[0], "p");
      assert repl == [repl[0]];
    }
  }

  /** Lines 541-556: after the title, the cell holds what is left of the first paragraph, then
      every later paragraph of the blockquote in order, each with the body styles, the last one
      with margin `0`. */
  lemma CalloutBody(cs: seq<Node>)
    requires FirstF(cs, "p").Some? && FirstF(FirstF(cs, "p").value.children, "p").None?
    requires TransformBlockquote(cs).Some?
    ensures var p0 := FirstF(cs, "p").value;
      SelectF(cs, "p") != [] &&
      var ps := StripHeader(p0) + SelectF(cs, "p")[1..];
      && |CellBody(cs)| == |ps|
      && (forall i | 0 <= i < |ps| :: SameButStyle(CellBody(cs)[i], ps[i]))
      && (forall i | 0 <= i < |ps| :: HasBodyStyle(CellBody(cs)[i].style, if i == |ps| - 1 then "0" else "0 0 12px 0"))
  {
    ParagraphsAfterStrip(cs);
    CellBodyIsRestyled(cs);
  }
}

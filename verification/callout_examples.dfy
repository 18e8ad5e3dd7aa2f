/** Worked examples of the callout transformer on small, simplified blockquotes: the paragraph
    Markdown renders for `> [!warning] Careful` / `> Body` is taken as `[!warning] Careful<br>Body`.
    With line breaks turned on the renderer writes `<br>` followed by a newline, so the text after
    the break is really `"\nBody"`, and the blockquote has newline text nodes around the paragraph;
    the trees here leave those out. */
module CalloutExamples {

  import opened Wrappers
  import opened Text
  import opened Dom
  import opened DomQuery
  import opened CalloutHeader
  import opened CalloutTables
  import opened Callouts

  const Br: Node := Element("br", [], [], [])

  lemma FirstLineOfWarning()
    ensures FirstLineText([Text("[!warning] Careful"), Br, Text("Body")]) == "[!warning] Careful"
  {
    var cs := [Text("[!warning] Careful"), Br, Text("Body")];
    assert cs[1..][0] == Br;
    assert "[!warning] Careful" + [] == "[!warning] Careful";
  }

  lemma LowerWarning()
    ensures AsciiLower("warning") == "warning"
  {
  }

  lemma WarningIsCanonical()
    ensures NormalizeCalloutType("warning") == "warning"
    ensures DefaultTitle("warning") == "Warning"
    ensures CalloutTheme("warning") == Theme("#e8913c", "#fff8f0", "#b96f22")
  {
  }

  /** `[!warning] Careful<br>Body`: a warning callout titled `Careful`. */
  lemma WarningHeading(p: Node)
    requires p == Element("p", [], [], [Text("[!warning] Careful"), Br, Text("Body")])
    ensures MatchHeading(p) == Some(Heading("warning", "Careful"))
  {
    FirstLineOfWarning();
    LineIsTrimmed();
    ExampleHeader();
    LowerWarning();
    TitleIsTrimmed();
    WarningIsCanonical();
  }

  lemma LineIsTrimmed()
    ensures Trim("[!warning] Careful") == "[!warning] Careful"
  {
    TrimOfTrimmed("[!warning] Careful");
  }

  lemma TitleIsTrimmed()
    ensures Trim("Careful") == "Careful"
  {
    TrimOfTrimmed("Careful");
  }

  const WarningParagraph: Node := Element("p", [], [], [Text("[!warning] Careful"), Br, Text("Body")])

  lemma WarningParagraphIsFlat()
    ensures FirstF(WarningParagraph.children, "p").None?
    ensures FirstF([WarningParagraph], "p") == Some(WarningParagraph)
    ensures SelectF([WarningParagraph], "p") == [WarningParagraph]
  {
    FirstNoneAll(WarningParagraph.children, "p");
    SelectFlat(WarningParagraph, "p");
  }

  lemma WarningStripped()
    ensures StripHeader(WarningParagraph) == [Element("p", [], [], [Text("Body")])]
  {
    var cs := WarningParagraph.children;
    assert FirstBreak(cs) == Some(1) by {
      assert cs[1..][0] == Br;
    }
    assert cs[2..] == [Text("Body")];
    assert ChildrenText([Text("Body")]) == "Body" by {
      assert [Text("Body")][1..] == [];
      assert "Body" + [] == "Body";
    }
    TrimOfTrimmed("Body");
  }

  /** The whole blockquote: a table in the warning colours, titled `Careful`, whose cell holds
      the paragraph `Body` with the body styles and margin `0`. */
  lemma WarningCallout(cs: seq<Node>)
    requires cs == [WarningParagraph]
    ensures TransformBlockquote(cs)
      == Some(Table(Theme("#e8913c", "#fff8f0", "#b96f22"), "Careful", Restyle([Element("p", [], [], [Text("Body")])])))
  {
    WarningParagraphIsFlat();
    WarningHeading(WarningParagraph);
    WarningIsCanonical();
    WarningBody(cs);
  }

  /** The paragraphs that move into the cell: what is left of the first one. */
  lemma WarningBody(cs: seq<Node>)
    requires cs == [WarningParagraph]
    ensures SelectF(EditF(cs, "p", StripHeader(WarningParagraph)), "p") == [Element("p", [], [], [Text("Body")])]
  {
    WarningParagraphIsFlat();
    WarningStripped();
    ParagraphsAfterStrip(cs);
  }

  // ---------------------------------------------------------------------------------------
  // A header with nothing after it

  const Img: Node := Element("img", [("src", "a.png")], [], [])

  const BareWarning: Node := Element("p", [], [], [Text("[!warning]")])

  lemma BareFirstLine()
    ensures FirstLineText(BareWarning.children) == "[!warning]"
  {
    assert BareWarning.children[1..] == [];
    assert "[!warning]" + [] == "[!warning]";
  }

  lemma BareLineIsTrimmed()
    ensures Trim("[!warning]") == "[!warning]"
  {
    TrimOfTrimmed("[!warning]");
  }

  lemma BareParse()
    ensures ParseHeader("[!warning]") == Some(Header("warning", "", "", ""))
  {
    ParseHeaderExact("[!warning]", "warning", "", "", "");
  }

  lemma EmptyTrim()
    ensures Trim("") == ""
  {
  }

  lemma BareWarningHeading(p: Node)
    requires p == BareWarning
    ensures MatchHeading(p) == Some(Heading("warning", "Warning"))
  {
    BareFirstLine();
    BareLineIsTrimmed();
    BareParse();
    LowerWarning();
    WarningIsCanonical();
    EmptyTrim();
  }

  lemma BareStripped(p: Node)
    requires p == BareWarning
    ensures StripHeader(p) == []
  {
  }

  lemma BareIsFlat()
    ensures FirstF(BareWarning.children, "p").None?
    ensures FirstF([BareWarning], "p") == Some(BareWarning)
    ensures SelectF([BareWarning], "p") == [BareWarning]
  {
    FirstNoneAll(BareWarning.children, "p");
    SelectFlat(BareWarning, "p");
  }

  lemma RestyleNothing()
    ensures Restyle([]) == []
  {
  }

  /** `> [!warning]` alone: the default title, and a cell holding only the title. */
  lemma HeaderOnlyCallout(cs: seq<Node>)
    requires cs == [BareWarning]
    ensures TransformBlockquote(cs) == Some(Table(Theme("#e8913c", "#fff8f0", "#b96f22"), "Warning", []))
  {
    BareIsFlat();
    BareWarningHeading(BareWarning);
    WarningIsCanonical();
    BareStripped(BareWarning);
    ParagraphsAfterStrip(cs);
    RestyleNothing();
  }

  // ---------------------------------------------------------------------------------------
  // An image on the line after the header

  const TipWithImage: Node := Element("p", [], [], [Text("[!tip]"), Br, Img])

  lemma TipFirstLine()
    ensures FirstLineText(TipWithImage.children) == "[!tip]"
  {
    assert TipWithImage.children[1..][0] == Br;
    assert "[!tip]" + [] == "[!tip]";
  }

  lemma TipLineIsTrimmed()
    ensures Trim("[!tip]") == "[!tip]"
  {
    TrimOfTrimmed("[!tip]");
  }

  lemma TipParse()
    ensures ParseHeader("[!tip]") == Some(Header("tip", "", "", ""))
  {
    ParseHeaderExact("[!tip]", "tip", "", "", "");
  }

  lemma LowerTip()
    ensures AsciiLower("tip") == "tip"
  {
  }

  lemma TipIsCanonical()
    ensures NormalizeCalloutType("tip") == "tip"
    ensures DefaultTitle("tip") == "Tip"
  {
  }

  lemma TipHeading(p: Node)
    requires p == TipWithImage
    ensures MatchHeading(p) == Some(Heading("tip", "Tip"))
  {
    TipFirstLine();
    TipLineIsTrimmed();
    TipParse();
    LowerTip();
    TipIsCanonical();
    EmptyTrim();
  }

  lemma TipStripped(p: Node)
    requires p == TipWithImage
    ensures StripHeader(p) == []
  {
    var rest := p.children[2..];
    assert FirstBreak(p.children) == Some(1) by {
      assert p.children[1..][0] == Br;
    }
    assert rest == [Img];
    assert ChildrenText(rest) == [] by {
      assert rest[1..] == [];
    }
    EmptyTrim();
  }

  lemma TipIsFlat()
    ensures FirstF(TipWithImage.children, "p").None?
    ensures FirstF([TipWithImage], "p") == Some(TipWithImage)
    ensures SelectF([TipWithImage], "p") == [TipWithImage]
  {
    FirstNoneAll(TipWithImage.children, "p");
    SelectFlat(TipWithImage, "p");
  }

  /** Lines 507-509 on `> [!tip]` / `> ![](a.png)`: the line after the header holds an image and
      no text, so the paragraph counts as blank and is removed with the image in it. */
  lemma ImageAfterHeaderDropped(cs: seq<Node>)
    requires cs == [TipWithImage]
    ensures TransformBlockquote(cs) == Some(Table(CalloutTheme("tip"), "Tip", []))
  {
    TipIsFlat();
    TipHeading(TipWithImage);
    TipStripped(TipWithImage);
    ParagraphsAfterStrip(cs);
    RestyleNothing();
  }
}

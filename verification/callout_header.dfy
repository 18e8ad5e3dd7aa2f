/** The callout header pattern `^\[!([a-zA-Z0-9_-]+)\]([+-])?\s*(.*)$` (src/main.ts:482), matched
    by hand. The regular expression has no flags: `^`/`$` anchor at the ends of the whole string,
    `\s` is ECMAScript white space and `.` refuses line terminators. */
module CalloutHeader {

  import opened Wrappers
  import opened Text

  /** The characters of `[a-zA-Z0-9_-]`. */
  predicate IsTypeChar(c: char) {
    ('a' <= c <= 'z') || ('A' <= c <= 'Z') || ('0' <= c <= '9') || c == '_' || c == '-'
  }

  predicate AllTypeChars(s: string) {
    forall i | 0 <= i < |s| :: IsTypeChar(s[i])
  }

  predicate NoLineTerminator(s: string) {
    forall i | 0 <= i < |s| :: !IsLineTerminator(s[i])
  }

  /** The parts of a matched header: the type (group 1), the fold marker (group 2, possibly
      empty), the white space the `\s*` consumed, and the title (group 3). */
  datatype Header = Header(kind: string, fold: string, gap: string, title: string)

  /** The length of the longest prefix whose characters all satisfy the class. */
  function SpanTypeChars(s: string): (n: nat)
    ensures n <= |s| && AllTypeChars(s[..n])
    ensures n < |s| ==> !IsTypeChar(s[n])
  {
    if s == [] || !IsTypeChar(s[0]) then 0
    else
      var n := 1 + SpanTypeChars(s[1..]);
      assert s[..n] == [s[0]] + s[1..][..n - 1];
      n
  }

  function SpanSpaces(s: string): (n: nat)
    ensures n <= |s| && AllSpace(s[..n])
    ensures n < |s| ==> !IsJsSpace(s[n])
  {
    if s == [] || !IsJsSpace(s[0]) then 0
    else
      var n := 1 + SpanSpaces(s[1..]);
      assert s[..n] == [s[0]] + s[1..][..n - 1];
      n
  }

  /** What follows `]`: the optional fold marker, the greedy `\s*` and the rest of the line. */
  function ParseTail(rest: string): (r: Option<(string, string, string)>)
  {
    var fold := if rest != [] && (rest[0] == '+' || rest[0] == '-') then rest[..1] else [];
    var after := rest[|fold|..];
    var g := SpanSpaces(after);
    if NoLineTerminator(after[g..]) then Some((fold, after[..g], after[g..])) else None
  }

  /** The match, with the captures the regular expression engine returns: the type run is
      maximal, the optional fold marker is taken when present, `\s*` is greedy. */
  function ParseHeader(s: string): (r: Option<Header>)
    ensures r.Some? ==> |s| > 2 && s[0] == '[' && s[1] == '!'
    ensures r.Some? ==> r.value.kind != [] && AllTypeChars(r.value.kind) && NoLineTerminator(r.value.title)
  {
    if |s| < 2 || s[0] != '[' || s[1] != '!' then None
    else
      var n := SpanTypeChars(s[2..]);
      assert s[2..][..n] == s[2..2 + n];
      if n == 0 || 2 + n >= |s| || s[2 + n] != ']' then None
      else match ParseTail(s[3 + n..])
        case None => None
        case Some((fold, gap, title)) => Some(Header(s[2..2 + n], fold, gap, title))
  }

  predicate TailShape(rest: string, fold: string, gap: string, title: string) {
    && rest == fold + gap + title
    && (fold == [] || fold == "+" || fold == "-")
    && AllSpace(gap)
    && NoLineTerminator(title)
  }

  /** `s` is in the language of the pattern, split as `[!`, type, `]`, fold, spaces, title. */
  predicate HeaderShape(s: string, kind: string, fold: string, gap: string, title: string) {
    && s == "[!" + kind + "]" + fold + gap + title
    && |kind| > 0 && AllTypeChars(kind)
    && (fold == [] || fold == "+" || fold == "-")
    && AllSpace(gap)
    && NoLineTerminator(title)
  }

  lemma ParseTailSound(rest: string)
    requires ParseTail(rest).Some?
    ensures var (fold, gap, title) := ParseTail(rest).value;
      && TailShape(rest, fold, gap, title)
      && (title == [] || !IsJsSpace(title[0]))
      && (fold == [] ==> gap + title == [] || (gap + title)[0] !in "+-")
  {
    var (fold, gap, title) := ParseTail(rest).value;
    var after := rest[|fold|..];
    var g := SpanSpaces(after);
    assert gap == after[..g] && title == after[g..];
    assert after == gap + title;
    assert rest == fold + after;
    if g < |after| {
      assert title[0] == after[g];
    }
    if fold == [] {
      assert after == rest;
    }
  }

  lemma HeaderSplit(s: string, n: nat)
    requires 3 + n <= |s| && s[0] == '[' && s[1] == '!' && s[2 + n] == ']'
    ensures s == "[!" + s[2..2 + n] + "]" + s[3 + n..]
  {
    assert s == s[..3 + n] + s[3 + n..];
    assert s[..3 + n] == "[!" + s[2..2 + n] + "]";
  }

  lemma KindRun(s: string)
    requires |s| >= 2
    ensures var n := SpanTypeChars(s[2..]); 2 + n <= |s| && AllTypeChars(s[2..2 + n])
  {
    var n := SpanTypeChars(s[2..]);
    assert s[2..][..n] == s[2..2 + n];
  }

  lemma ShapeOfParts(s: string, kind: string, rest: string, fold: string, gap: string, title: string)
    requires s == "[!" + kind + "]" + rest && |kind| > 0 && AllTypeChars(kind)
    requires TailShape(rest, fold, gap, title)
    ensures HeaderShape(s, kind, fold, gap, title)
  {
    assert "[!" + kind + "]" + rest == "[!" + kind + "]" + fold + gap + title;
  }

  /** A match has the shape the pattern describes, with greedy captures: the title does not start
      with white space, and a fold marker is never left to the title. */
  lemma ParseHeaderSound(s: string, h: Header)
    requires ParseHeader(s) == Some(h)
    ensures HeaderShape(s, h.kind, h.fold, h.gap, h.title)
    ensures Greedy(h.fold, h.gap, h.title)
  {
    var n := SpanTypeChars(s[2..]);
    var rest := s[3 + n..];
    ParseTailSound(rest);
    HeaderSplit(s, n);
    KindRun(s);
    ShapeOfParts(s, h.kind, rest, h.fold, h.gap, h.title);
  }

  lemma SpanTypeCharsStops(kind: string, t: string)
    requires AllTypeChars(kind) && t != [] && !IsTypeChar(t[0])
    ensures SpanTypeChars(kind + t) == |kind|
    decreases |kind|
  {
    if kind != [] {
      assert (kind + t)[1..] == kind[1..] + t;
      SpanTypeCharsStops(kind[1..], t);
    } else {
      assert kind + t == t;
    }
  }

  lemma SpanSpacesCovers(gap: string, t: string)
    requires AllSpace(gap)
    ensures SpanSpaces(gap + t) >= |gap|
    decreases |gap|
  {
    if gap != [] {
      assert (gap + t)[1..] == gap[1..] + t;
      SpanSpacesCovers(gap[1..], t);
    }
  }

  lemma SuffixNoLineTerminator(t: string, k: nat)
    requires NoLineTerminator(t) && k <= |t|
    ensures NoLineTerminator(t[k..])
  {
    assert forall i | 0 <= i < |t[k..]| :: t[k..][i] == t[k + i];
  }

  /** The spaces-and-title part: whatever white space the greedy `\s*` takes, the remainder is
      a suffix of the title. */
  lemma SpacesThenTitle(gap: string, title: string)
    requires AllSpace(gap) && NoLineTerminator(title)
    ensures NoLineTerminator((gap + title)[SpanSpaces(gap + title)..])
  {
    SpanSpacesCovers(gap, title);
    var g := SpanSpaces(gap + title);
    assert (gap + title)[g..] == title[g - |gap|..];
    SuffixNoLineTerminator(title, g - |gap|);
  }

  lemma ParseTailComplete(rest: string, fold: string, gap: string, title: string)
    requires TailShape(rest, fold, gap, title)
    ensures ParseTail(rest).Some?
  {
    if fold != [] {
      assert rest[1..] == gap + title;
      SpacesThenTitle(gap, title);
    } else if gap != [] {
      assert rest == gap + title;
      assert rest[0] == gap[0];
      SpacesThenTitle(gap, title);
    } else if rest != [] && (rest[0] == '+' || rest[0] == '-') {
      assert rest == title;
      SpacesThenTitle([], title[1..]) by { SuffixNoLineTerminator(title, 1); }
      assert rest[1..] == [] + title[1..];
    } else {
      assert rest == [] + title;
      SpacesThenTitle([], title);
    }
  }

  lemma PrefixParts(s: string, kind: string, t: string)
    requires s == "[!" + kind + "]" + t
    ensures |s| == 3 + |kind| + |t| && s[0] == '[' && s[1] == '!' && s[2 + |kind|] == ']'
    ensures s[2..] == kind + ("]" + t) && s[2..2 + |kind|] == kind && s[3 + |kind|..] == t
  {
  }

  /** Every string of the pattern's shape is matched, with the type it was built from. */
  lemma ParseHeaderComplete(s: string, kind: string, fold: string, gap: string, title: string)
    requires HeaderShape(s, kind, fold, gap, title)
    ensures ParseHeader(s).Some? && ParseHeader(s).value.kind == kind
  {
    var t := fold + gap + title;
    assert "[!" + kind + "]" + fold + gap + title == "[!" + kind + "]" + t;
    PrefixParts(s, kind, t);
    SpanTypeCharsStops(kind, "]" + t);
    ParseTailComplete(t, fold, gap, title);
  }

  /** The captures are the greedy ones: the title does not start with white space, and an empty
      fold capture is not followed by a fold marker. */
  predicate Greedy(fold: string, gap: string, title: string) {
    && (title == [] || !IsJsSpace(title[0]))
    && (fold == [] ==> gap + title == [] || (gap + title)[0] !in "+-")
  }

  /** Two greedy splits of the text after `]` are the same split. */
  lemma TailUnique(rest: string, f1: string, g1: string, t1: string, f2: string, g2: string, t2: string)
    requires TailShape(rest, f1, g1, t1) && Greedy(f1, g1, t1)
    requires TailShape(rest, f2, g2, t2) && Greedy(f2, g2, t2)
    ensures f1 == f2 && g1 == g2 && t1 == t2
  {
    FoldDetermined(rest, f1, g1, t1);
    FoldDetermined(rest, f2, g2, t2);
    var after := rest[|f1|..];
    assert after == g1 + t1 && after == g2 + t2;
    GapIsSpan(after, g1, t1);
    GapIsSpan(after, g2, t2);
    assert g1 == after[..|g1|] && t1 == after[|g1|..];
  }

  /** A greedy split takes the fold marker exactly when the text starts with one. */
  lemma FoldDetermined(rest: string, fold: string, gap: string, title: string)
    requires TailShape(rest, fold, gap, title) && Greedy(fold, gap, title)
    ensures fold == if rest != [] && (rest[0] == '+' || rest[0] == '-') then rest[..1] else []
    ensures rest[|fold|..] == gap + title
  {
    if fold == [] {
      assert rest == gap + title;
    } else {
      assert rest == fold + (gap + title);
    }
  }

  /** White space followed by a non-space (or nothing) is exactly the leading white-space run. */
  lemma {:induction false} GapIsSpan(after: string, gap: string, title: string)
    requires after == gap + title && AllSpace(gap) && (title == [] || !IsJsSpace(title[0]))
    ensures SpanSpaces(after) == |gap|
    decreases |gap|
  {
    if gap == [] {
      assert after == title;
    } else {
      assert after[0] == gap[0] && after[1..] == gap[1..] + title;
      GapIsSpan(after[1..], gap[1..], title);
    }
  }

  /** What follows `]` in a string of the pattern's shape. */
  lemma ShapeTail(s: string, kind: string, fold: string, gap: string, title: string)
    requires HeaderShape(s, kind, fold, gap, title)
    ensures 3 + |kind| <= |s| && TailShape(s[3 + |kind|..], fold, gap, title)
  {
    var t := fold + gap + title;
    assert "[!" + kind + "]" + fold + gap + title == "[!" + kind + "]" + t;
    PrefixParts(s, kind, t);
  }

  /** Matching is the inverse of building: a string of the pattern's shape, split greedily, is
      matched with exactly those captures. */
  lemma ParseHeaderExact(s: string, kind: string, fold: string, gap: string, title: string)
    requires HeaderShape(s, kind, fold, gap, title) && Greedy(fold, gap, title)
    ensures ParseHeader(s) == Some(Header(kind, fold, gap, title))
  {
    ParseHeaderComplete(s, kind, fold, gap, title);
    var h := ParseHeader(s).value;
    ParseHeaderSound(s, h);
    ShapeTail(s, kind, fold, gap, title);
    ShapeTail(s, h.kind, h.fold, h.gap, h.title);
    TailUnique(s[3 + |kind|..], fold, gap, title, h.fold, h.gap, h.title);
  }

  /** `[!warning] Careful`: type `warning`, no fold marker, title `Careful`. */
  lemma ExampleHeader()
    ensures ParseHeader("[!warning] Careful") == Some(Header("warning", "", " ", "Careful"))
  {
    ParseHeaderExact("[!warning] Careful", "warning", "", " ", "Careful");
  }

  /** `[!tip]- Folded`: the fold marker is captured, not left to the title. */
  lemma ExampleFolded()
    ensures ParseHeader("[!tip]- Folded") == Some(Header("tip", "-", " ", "Folded"))
  {
    ParseHeaderExact("[!tip]- Folded", "tip", "-", " ", "Folded");
  }
}

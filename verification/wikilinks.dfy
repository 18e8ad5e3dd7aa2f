/** The wiki-embed normaliser (`convertWikiLinks`, src/main.ts:407-428): every `![[content]]` whose
    content holds no `]` becomes the standard Markdown image `![alt](path)`, where `path` is
    `encodeURI` of the trimmed file name. The global regular expression `!\[\[([^\]]*?)\]\]` is
    modelled by a left-to-right scan that resumes after each replacement. */
module WikiLinks {

  import opened Text
  import opened Uri

  // ---------------------------------------------------------------------------------------
  // `split('|')` and `join('|')`

  /** `String.prototype.split` with a one-character separator. */
  function SplitOn(s: string, sep: char): (parts: seq<string>)
    ensures |parts| >= 1
    ensures sep !in parts[0]
    ensures sep !in s ==> parts == [s]
    ensures sep in s ==> |parts| >= 2
  {
    if s == [] then [[]]
    else
      var rest := SplitOn(s[1..], sep);
      if s[0] == sep then [[]] + rest
      else
        assert [s[0]] + s[1..] == s;
        [[s[0]] + rest[0]] + rest[1..]
  }

  /** `Array.prototype.join` with a one-character separator. */
  function JoinWith(parts: seq<string>, sep: char): string {
    if parts == [] then []
    else if |parts| == 1 then parts[0]
    else parts[0] + [sep] + JoinWith(parts[1..], sep)
  }

  /** Joining the pieces of a split gives back the original text. */
  lemma {:induction false} JoinSplit(s: string, sep: char)
    ensures JoinWith(SplitOn(s, sep), sep) == s
    decreases |s|
  {
    if s != [] {
      JoinSplit(s[1..], sep);
      JoinSplitStep(s, sep);
    }
  }

  /** One step of `JoinSplit`: a split of `s` joins back to `s` when the split of its tail does. */
  lemma JoinSplitStep(s: string, sep: char)
    requires s != [] && JoinWith(SplitOn(s[1..], sep), sep) == s[1..]
    ensures JoinWith(SplitOn(s, sep), sep) == s
  {
    var rest := SplitOn(s[1..], sep);
    assert [s[0]] + s[1..] == s;
    if s[0] == sep {
      assert SplitOn(s, sep) == [[]] + rest;
      JoinCons([], rest, sep);
    } else {
      assert SplitOn(s, sep) == [[s[0]] + rest[0]] + rest[1..];
      JoinHead([s[0]], rest, sep);
    }
  }

  /** Joining a first piece in front of non-empty pieces puts a separator between them. */
  lemma JoinCons(head: string, parts: seq<string>, sep: char)
    requires parts != []
    ensures JoinWith([head] + parts, sep) == head + [sep] + JoinWith(parts, sep)
  {
    assert ([head] + parts)[1..] == parts;
  }

  /** Extending the first piece extends the joined text at the front. */
  lemma JoinHead(pre: string, parts: seq<string>, sep: char)
    requires parts != []
    ensures JoinWith([pre + parts[0]] + parts[1..], sep) == pre + JoinWith(parts, sep)
  {
    if |parts| > 1 {
      JoinCons(pre + parts[0], parts[1..], sep);
      JoinCons(parts[0], parts[1..], sep);
      assert [parts[0]] + parts[1..] == parts;
    } else {
      assert [pre + parts[0]] + parts[1..] == [pre + parts[0]];
    }
  }

  /** The file name and the alias of an embed: the text before the first `|` and everything after
      it (later pipes kept); without a `|`, the whole content and the empty alias. */
  function SplitAlias(content: string): (r: (string, string))
    ensures '|' !in content ==> r == (content, [])
    ensures '|' in content ==> '|' !in r.0 && content == r.0 + "|" + r.1
  {
    if '|' in content then
      var parts := SplitOn(content, '|');
      JoinSplit(content, '|');
      (parts[0], JoinWith(parts[1..], '|'))
    else (content, [])
  }

  // ---------------------------------------------------------------------------------------
  // The scan

  /** The index of the first `]`, or the length when there is none. */
  function FirstClose(t: string): nat
  {
    FirstIndex(t, ']')
  }

  /** The first `]` exists and is immediately followed by a second one. */
  predicate CloseDoubled(t: string) {
    var j := FirstClose(t);
    j + 1 < |t| && t[j + 1] == ']'
  }

  /** The regular expression matches at the start of `t`: `![[`, a lazily matched run of non-`]`
      characters, `]]`. Since the run cannot contain `]`, the lazy and the greedy reading agree:
      the run ends at the first `]`. */
  predicate IsEmbedStart(t: string) {
    |t| >= 3 && t[..3] == "![[" && CloseDoubled(t[3..])
  }

  /** The text one embed is replaced with. */
  function Replacement(content: string): string {
    var (fileName, alt) := SplitAlias(content);
    "![" + alt + "](" + EncodeURI(Trim(fileName)) + ")"
  }

  function ConvertWikiLinks(s: string): (r: string)
    ensures NoEmbed(s) ==> r == s
    decreases |s|
  {
    if s == [] then []
    else
      NoEmbedTail(s);
      if IsEmbedStart(s) then
        var j := 3 + FirstClose(s[3..]);
        Replacement(s[3..j]) + ConvertWikiLinks(s[j + 2..])
      else
        assert [s[0]] + s[1..] == s;
        [s[0]] + ConvertWikiLinks(s[1..])
  }

  /** No embed starts anywhere in `s`. */
  predicate NoEmbed(s: string) {
    forall i | 0 <= i <= |s| :: !IsEmbedStart(s[i..])
  }

  // ---------------------------------------------------------------------------------------
  // What one embed becomes

  lemma EmbedStartChars(t: string)
    ensures IsEmbedStart(t) <==> |t| >= 3 && t[0] == '!' && t[1] == '[' && t[2] == '[' && CloseDoubled(t[3..])
  {
    if |t| >= 3 && t[0] == '!' && t[1] == '[' && t[2] == '[' {
      assert t[..3] == "![[";
    }
  }

  lemma FirstCloseAfter(c: string, rest: string)
    requires ']' !in c
    ensures FirstClose(c + rest) == |c| + FirstClose(rest)
  {
    FirstIndexAfter(c, ']', rest);
  }

  /** `![[content]]` is replaced by `Replacement(content)` and the scan resumes right after it. */
  lemma ConvertEmbed(content: string, rest: string)
    requires ']' !in content
    ensures ConvertWikiLinks("![[" + content + "]]" + rest) == Replacement(content) + ConvertWikiLinks(rest)
  {
    var s := "![[" + content + "]]" + rest;
    EmbedParts(s, content, rest);
    ConvertEmbedStep(s);
  }

  /** Where the parts of a written-out embed sit. */
  lemma EmbedParts(s: string, content: string, rest: string)
    requires ']' !in content && s == "![[" + content + "]]" + rest
    ensures IsEmbedStart(s) && FirstClose(s[3..]) == |content|
    ensures s[3..3 + |content|] == content && s[3 + |content| + 2..] == rest
  {
    assert s[3..] == content + ("]]" + rest);
    FirstCloseAfter(content, "]]" + rest);
    assert s[..3] == "![[";
    var j := 3 + |content|;
    assert s[3..j] == content;
    assert s[j + 2..] == rest;
  }

  /** `![[A|B]]` becomes `![B](encodeURI(trim(A)))`. */
  lemma EmbedWithAlias(a: string, b: string, rest: string)
    requires ']' !in a && ']' !in b && '|' !in a
    ensures ConvertWikiLinks("![[" + a + "|" + b + "]]" + rest)
         == "![" + b + "](" + EncodeURI(Trim(a)) + ")" + ConvertWikiLinks(rest)
  {
    var content := a + "|" + b;
    assert "![[" + a + "|" + b + "]]" + rest == "![[" + content + "]]" + rest;
    ConvertEmbed(content, rest);
    var (f, alt) := SplitAlias(content);
    assert f + "|" + alt == a + "|" + b;
    SplitUnique(f, alt, a, b);
  }

  lemma SplitUnique(f: string, alt: string, a: string, b: string)
    requires f + "|" + alt == a + "|" + b && '|' !in f && '|' !in a
    ensures f == a && alt == b
  {
    var s := a + "|" + b;
    assert f + ("|" + alt) == s && a + ("|" + b) == s;
    FirstIndexAfter(f, '|', "|" + alt);
    FirstIndexAfter(a, '|', "|" + b);
    assert |f| == |a|;
    assert f == s[..|f|] && a == s[..|a|];
    assert alt == s[|f| + 1..] && b == s[|a| + 1..];
  }

  lemma ReplacementWithoutAlias(a: string)
    requires '|' !in a
    ensures Replacement(a) == "![](" + EncodeURI(Trim(a)) + ")"
  {
    assert SplitAlias(a) == (a, []);
  }

  /** `![[A]]` becomes `![](encodeURI(trim(A)))`. */
  lemma EmbedWithoutAlias(a: string, rest: string)
    requires ']' !in a && '|' !in a
    ensures ConvertWikiLinks("![[" + a + "]]" + rest) == "![](" + EncodeURI(Trim(a)) + ")" + ConvertWikiLinks(rest)
  {
    ConvertEmbed(a, rest);
    ReplacementWithoutAlias(a);
  }

  lemma ConvertStep(t: string)
    requires t != [] && !IsEmbedStart(t)
    ensures ConvertWikiLinks(t) == [t[0]] + ConvertWikiLinks(t[1..])
  {
  }

  lemma {:induction false} PlainPrefix(p: string, s: string)
    requires '!' !in p
    ensures ConvertWikiLinks(p + s) == p + ConvertWikiLinks(s)
    decreases |p|
  {
    if p != [] {
      var t := p + s;
      assert p[0] in p;
      assert t[0] == p[0];
      EmbedStartChars(t);
      ConvertStep(t);
      assert t[1..] == p[1..] + s;
      PlainPrefix(p[1..], s);
      assert [p[0]] + p[1..] == p;
    } else {
      assert p + s == s;
    }
  }

  /** Text without embeds has none at its start and none after its first character. */
  lemma NoEmbedTail(s: string)
    requires s != []
    ensures NoEmbed(s) ==> !IsEmbedStart(s) && NoEmbed(s[1..])
  {
    if NoEmbed(s) {
      assert s[0..] == s;
      forall i | 0 <= i <= |s[1..]| ensures !IsEmbedStart(s[1..][i..]) {
        assert s[1..][i..] == s[i + 1..];
      }
    }
  }

  // ---------------------------------------------------------------------------------------
  // The output holds no embed

  lemma CloseDoubledStep(t: string)
    requires t != [] && t[0] != ']'
    ensures CloseDoubled(t) == CloseDoubled(t[1..])
  {
  }

  lemma ConvertNonEmpty(t: string)
    requires t != []
    ensures ConvertWikiLinks(t) != []
    ensures ConvertWikiLinks(t)[0] == (if IsEmbedStart(t) then '!' else t[0])
  {
  }

  /** Rewriting never creates a doubled first `]` where there was none. */
  lemma {:induction false} CloseDoubledPreserved(t: string)
    requires !CloseDoubled(t)
    ensures !CloseDoubled(ConvertWikiLinks(t))
    decreases |t|
  {
    if t != [] {
      if IsEmbedStart(t) {
        assert t[0] != ']' && t[1] != ']' && t[2] != ']';
        assert t[1..][1..][1..] == t[3..];
        CloseDoubledStep(t);
        CloseDoubledStep(t[1..]);
        CloseDoubledStep(t[1..][1..]);
        assert false;
      }
      var out := ConvertWikiLinks(t);
      assert out == [t[0]] + ConvertWikiLinks(t[1..]);
      assert out[1..] == ConvertWikiLinks(t[1..]);
      if t[0] == ']' {
        if |t| > 1 {
          ConvertNonEmpty(t[1..]);
        }
      } else {
        CloseDoubledStep(t);
        CloseDoubledPreserved(t[1..]);
        CloseDoubledStep(out);
      }
    }
  }

  lemma NoDoubleBefore(x: string, rest: string)
    requires ']' !in x && |rest| >= 2 && rest[0] == ']' && rest[1] != ']'
    ensures !CloseDoubled(x + rest)
  {
    FirstCloseAfter(x, rest);
    assert (x + rest)[|x|] == ']' && (x + rest)[|x| + 1] == rest[1];
  }

  lemma ConvertEmbedStep(s: string)
    requires IsEmbedStart(s)
    ensures ConvertWikiLinks(s) == Replacement(s[3..3 + FirstClose(s[3..])]) + ConvertWikiLinks(s[3 + FirstClose(s[3..]) + 2..])
  {
  }

  lemma EmbedContent(s: string)
    requires IsEmbedStart(s)
    ensures 3 + FirstClose(s[3..]) + 2 <= |s|
    ensures ']' !in s[3..3 + FirstClose(s[3..])]
  {
    var j := 3 + FirstClose(s[3..]);
    assert forall k | 0 <= k < j - 3 :: s[3..j][k] == s[3..][k];
  }

  /** The shape of a replacement: `![`, the alias, `](`, the encoded path, `)`. */
  function Shape(alt: string, enc: string): string {
    "![" + alt + "](" + enc + ")"
  }

  /** An embed starting inside the alias would need a doubled `]`, but the first `]` after it is
      the one of `](`. */
  lemma NoEmbedInAlias(alt: string, enc: string, y: string, i: nat)
    requires ']' !in alt && i < |alt|
    ensures !IsEmbedStart((Shape(alt, enc) + y)[i..])
  {
    var out := Shape(alt, enc) + y;
    var x := alt[i + 1..];
    var rest := "](" + enc + ")" + y;
    assert alt == alt[..i + 1] + x;
    assert out == ("![" + alt[..i + 1]) + (x + rest);
    assert out[i..][3..] == x + rest;
    assert forall k | 0 <= k < |x| :: x[k] in alt;
    NoDoubleBefore(x, rest);
    EmbedStartChars(out[i..]);
  }

  /** From the `]` on, a replacement holds no `[`, so no `![[` can start there. */
  lemma NoEmbedInTail(alt: string, enc: string, y: string, i: nat)
    requires '[' !in enc && |alt| <= i < |Shape(alt, enc)|
    ensures !IsEmbedStart((Shape(alt, enc) + y)[i..])
  {
    var r := Shape(alt, enc);
    var out := r + y;
    var t := out[i..];
    EmbedStartChars(t);
    if i + 2 < |r| {
      assert t[2] == r[i + 2];
      if i + 2 >= 4 + |alt| && i + 2 < |r| - 1 {
        assert r[i + 2] == enc[i + 2 - 4 - |alt|];
        assert enc[i + 2 - 4 - |alt|] in enc;
      }
    } else if i + 1 < |r| {
      assert t[1] == r[i + 1] == ')';
    } else {
      assert t[0] == r[i] == ')';
    }
  }

  lemma NoOpenBracketEncoded(s: string)
    ensures '[' !in EncodeURI(s)
  {
    var r := EncodeURI(s);
    EncodeURIIsEncoded(s);
    BracketIsEscaped();
    assert forall i | 0 <= i < |r| :: r[i] != '[';
  }

  lemma BracketIsEscaped()
    ensures !IsUriUnescaped('[')
  {
  }

  /** A replacement has the shape `![alt](enc)` with no `]` in the alias and no `[` in the path. */
  lemma ReplacementParts(content: string) returns (alt: string, enc: string)
    requires ']' !in content
    ensures Replacement(content) == Shape(alt, enc)
    ensures ']' !in alt && '[' !in enc
  {
    var f;
    f, alt := SplitAlias(content).0, SplitAlias(content).1;
    enc := EncodeURI(Trim(f));
    if '|' in content {
      assert forall k | 0 <= k < |alt| :: alt[k] == content[|f| + 1 + k];
    }
    NoOpenBracketEncoded(Trim(f));
  }

  /** No embed starts inside a replacement, whatever follows it. */
  lemma NoEmbedInReplacement(content: string, y: string, i: nat)
    requires ']' !in content && i < |Replacement(content)|
    ensures !IsEmbedStart((Replacement(content) + y)[i..])
  {
    var alt, enc := ReplacementParts(content);
    if i < |alt| {
      NoEmbedInAlias(alt, enc, y, i);
    } else {
      NoEmbedInTail(alt, enc, y, i);
    }
  }

  lemma ShiftSuffix(x: string, y: string, i: nat)
    requires i <= |y|
    ensures (x + y)[|x| + i..] == y[i..]
  {
  }

  /** Gluing text in front of embed-free text creates no embed after the glue point. */
  lemma NoEmbedConcat(r: string, tail: string)
    requires forall i | 0 <= i < |r| :: !IsEmbedStart((r + tail)[i..])
    requires NoEmbed(tail)
    ensures NoEmbed(r + tail)
  {
    forall i | 0 <= i <= |r + tail| ensures !IsEmbedStart((r + tail)[i..]) {
      if i >= |r| {
        ShiftSuffix(r, tail, i - |r|);
      }
    }
  }

  lemma NoEmbedAfterEmbed(s: string)
    requires IsEmbedStart(s)
    requires NoEmbed(ConvertWikiLinks(s[3 + FirstClose(s[3..]) + 2..]))
    ensures NoEmbed(ConvertWikiLinks(s))
  {
    ConvertEmbedStep(s);
    EmbedContent(s);
    var content := s[3..3 + FirstClose(s[3..])];
    var tail := ConvertWikiLinks(s[3 + FirstClose(s[3..]) + 2..]);
    var r := Replacement(content);
    forall i | 0 <= i < |r| ensures !IsEmbedStart((r + tail)[i..]) {
      NoEmbedInReplacement(content, tail, i);
    }
    NoEmbedConcat(r, tail);
  }

  lemma NoEmbedAfterChar(s: string)
    requires s != [] && !IsEmbedStart(s)
    requires NoEmbed(ConvertWikiLinks(s[1..]))
    ensures NoEmbed(ConvertWikiLinks(s))
  {
    ConvertStep(s);
    var tail := ConvertWikiLinks(s[1..]);
    var out := [s[0]] + tail;
    forall i | 0 <= i <= |out| ensures !IsEmbedStart(out[i..]) {
      if i > 0 {
        ShiftSuffix([s[0]], tail, i - 1);
      } else {
        assert out[0..] == out;
        StartOfOutput(s);
      }
    }
  }

  /** After the normaliser has run, the text holds no embed at all. */
  lemma {:induction false} ConvertLeavesNoEmbed(s: string)
    ensures NoEmbed(ConvertWikiLinks(s))
    decreases |s|
  {
    if s == [] {
      assert ConvertWikiLinks(s)[0..] == [];
    } else if IsEmbedStart(s) {
      EmbedContent(s);
      ConvertLeavesNoEmbed(s[3 + FirstClose(s[3..]) + 2..]);
      NoEmbedAfterEmbed(s);
    } else {
      ConvertLeavesNoEmbed(s[1..]);
      NoEmbedAfterChar(s);
    }
  }

  /** An embed cannot start the output at a place where none started in the input. */
  lemma StartOfOutput(s: string)
    requires s != [] && !IsEmbedStart(s)
    ensures !IsEmbedStart(ConvertWikiLinks(s))
  {
    var out := ConvertWikiLinks(s);
    if IsEmbedStart(out) {
      ConvertStep(s);
      EmbedStartChars(out);
      var t1 := ConvertWikiLinks(s[1..]);
      assert out == [s[0]] + t1;
      assert s[0] == '!' && t1[0] == '[';
      ConvertNonEmpty(s[1..]);
      assert s[1] == '[' && !IsEmbedStart(s[1..]);
      ConvertStep(s[1..]);
      assert s[1..][1..] == s[2..];
      var t2 := ConvertWikiLinks(s[2..]);
      assert t1 == [s[1]] + t2;
      assert t2[0] == '[';
      ConvertNonEmpty(s[2..]);
      assert s[2] == '[' && !IsEmbedStart(s[2..]);
      ConvertStep(s[2..]);
      assert s[2..][1..] == s[3..];
      assert out[3..] == ConvertWikiLinks(s[3..]);
      EmbedStartChars(s);
      CloseDoubledPreserved(s[3..]);
      assert false;
    }
  }

  /** Running the normaliser twice gives what running it once gives. */
  lemma ConvertIdempotent(s: string)
    ensures ConvertWikiLinks(ConvertWikiLinks(s)) == ConvertWikiLinks(s)
  {
    ConvertLeavesNoEmbed(s);
  }

  /** The normaliser leaves a text unchanged exactly when the text holds no embed. */
  lemma UnchangedIff(s: string)
    ensures ConvertWikiLinks(s) == s <==> NoEmbed(s)
  {
    if NoEmbed(s) {
    }
    if ConvertWikiLinks(s) == s {
      ConvertLeavesNoEmbed(s);
    }
  }

  /** The path written for an embed percent-decodes back to the trimmed file name, so the image
      resolver looks up the file the note named. */
  lemma EmbedPathDecodes(a: string)
    ensures DecodeURIComponent(EncodeURI(Trim(a))) == Wrappers.Ok(Trim(a))
  {
    DecodeEncodeURI(Trim(a));
  }
}

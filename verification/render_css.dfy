/** The stylesheet put in front of the rendered note (src/main.ts:247-338, 658-664): the user's
    custom CSS, completed with the fallback callout rules when it has none of its own. */
module RenderCss {

  import opened Wrappers
  import opened Text
  import opened CalloutTables

  /** The class every callout rule of the fallback sheet is written against. */
  const CalloutClass: string := ".wechat-callout"

  /** The rules of the fallback sheet that do not depend on the callout type. */
  const BaseRules: string := "\t" + CalloutClass + BaseBody

  /** `BaseRules` after the class that opens it. */
  const BaseBody: string :=
    " {\n"
    + "\t    margin: 20px 0;\n"
    + "\t    border-left: 4px solid #773098;\n"
    + "\t    border-radius: 8px;\n"
    + "\t    overflow: hidden;\n"
    + "\t    background: #faf7fd;\n"
    + "\t}\n"
    + "\t.wechat-callout-title {\n"
    + "\t    padding: 10px 14px;\n"
    + "\t    font-size: 15px;\n"
    + "\t    font-weight: 700;\n"
    + "\t    line-height: 1.6;\n"
    + "\t    color: #5a3382;\n"
    + "\t    background: #f1e7fb;\n"
    + "\t}\n"
    + "\t.wechat-callout-body {\n"
    + "\t    padding: 12px 14px;\n"
    + "\t}\n"
    + "\t.wechat-callout-body p {\n"
    + "\t    margin: 0 0 12px 0;\n"
    + "\t    color: #333;\n"
    + "\t    font-weight: 400;\n"
    + "\t}\n"
    + "\t.wechat-callout-body p:last-child {\n"
    + "\t    margin-bottom: 0;\n"
    + "\t}\n"

  /** The colours the fallback sheet gives one callout type. */
  datatype CssTheme = CssTheme(name: string, borderColor: string, background: string,
                               titleColor: string, titleBackground: string)

  /** The two rules of one callout type: the box, and its title. */
  function TypeRules(c: CssTheme): string {
    "\t.wechat-callout-" + c.name + " {\n"
    + "\t    border-left-color: " + c.borderColor + ";\n"
    + "\t    background: " + c.background + ";\n"
    + "\t}\n"
    + "\t.wechat-callout-" + c.name + " .wechat-callout-title {\n"
    + "\t    color: " + c.titleColor + ";\n"
    + "\t    background: " + c.titleBackground + ";\n"
    + "\t}\n"
  }

  /** The per-type part of the sheet, in the order it is written. */
  const CssThemes: seq<CssTheme> := [
    CssTheme("note", "#773098", "#faf7fd", "#5a3382", "#f1e7fb"),
    CssTheme("info", "#2eaadc", "#f3fbff", "#1f7599", "#dff4fd"),
    CssTheme("tip", "#2f9e44", "#f3fcf5", "#1f6d2f", "#dff5e4"),
    CssTheme("question", "#b7791f", "#fffaf2", "#8a5b17", "#fcefd9"),
    CssTheme("warning", "#e8913c", "#fff8f0", "#b96f22", "#fde9d4"),
    CssTheme("danger", "#e03131", "#fff5f5", "#b42323", "#fde3e3"),
    CssTheme("example", "#0ca678", "#f2fffb", "#087f5b", "#d9f7ee"),
    CssTheme("quote", "#868e96", "#f8f9fa", "#495057", "#e9ecef")
  ]

  function AllTypeRules(cs: seq<CssTheme>): string {
    if cs == [] then "" else TypeRules(cs[0]) + AllTypeRules(cs[1..])
  }

  /** `CALLOUT_FALLBACK_CSS`: the template literal opens with a line break. */
  const FallbackCss: string := "\n" + BaseRules + AllTypeRules(CssThemes)

  /** What is appended to a sheet that lacks callout rules. */
  const Appended: string := "\n" + FallbackCss

  /** `getRenderCSS`: a missing setting reads as the empty sheet; a sheet that already mentions
      the callout class is used as it is, any other gets a line break and the fallback rules. */
  function RenderCss(custom: Option<string>): (css: string)
    ensures StartsWith(css, Custom(custom))
    ensures Contains(css, CalloutClass)
    ensures Contains(Custom(custom), CalloutClass) ==> css == Custom(custom)
    ensures !Contains(Custom(custom), CalloutClass) ==> css[|Custom(custom)|..] == Appended
  {
    var c := Custom(custom);
    if Contains(c, CalloutClass) then c
    else
      StartsAppend(c, Appended);
      AppendedHasClass();
      ContainsSuffix(c, Appended, CalloutClass);
      c + Appended
  }

  lemma StartsAppend(a: string, b: string)
    ensures StartsWith(a + b, a) && (a + b)[|a|..] == b
  {
    assert (a + b)[..|a|] == a;
  }

  /** `this.settings.customCSS ?? ''`. */
  function Custom(custom: Option<string>): string {
    match custom
    case Some(s) => s
    case None => ""
  }

  // ---------------------------------------------------------------------------------------
  // Properties

  lemma ContainsItself(s: string)
    ensures Contains(s, s)
  {
    assert OccursAt(s, s, 0);
  }

  /** The fallback sheet carries the callout class (its first rule). */
  lemma FallbackHasClass()
    ensures Contains(FallbackCss, CalloutClass)
  {
    ContainsItself(CalloutClass);
    ContainsSuffix("\t", CalloutClass, CalloutClass);
    ContainsPrefix("\t" + CalloutClass, BaseBody, CalloutClass);
    ContainsSuffix("\n", BaseRules, CalloutClass);
    ContainsPrefix("\n" + BaseRules, AllTypeRules(CssThemes), CalloutClass);
  }

  lemma AppendedHasClass()
    ensures Contains(Appended, CalloutClass)
  {
    FallbackHasClass();
    ContainsSuffix("\n", FallbackCss, CalloutClass);
  }

  /** The custom sheet comes back as it is exactly when it already mentions the callout class. */
  lemma RenderedUnchangedIff(custom: Option<string>)
    ensures RenderCss(custom) == Custom(custom) <==> Contains(Custom(custom), CalloutClass)
  {
    var c := Custom(custom);
    if !Contains(c, CalloutClass) {
      assert |RenderCss(custom)| > |c|;
    }
  }

  /** Rendering a rendered sheet again changes nothing. */
  lemma RenderIdempotent(custom: Option<string>)
    ensures RenderCss(Some(RenderCss(custom))) == RenderCss(custom)
  {
  }

  /** Every type's rules are part of the per-type sheet. */
  lemma {:induction false} AllTypeRulesHas(cs: seq<CssTheme>, i: nat)
    requires i < |cs|
    ensures Contains(AllTypeRules(cs), TypeRules(cs[i]))
  {
    if i == 0 {
      ContainsItself(TypeRules(cs[0]));
      ContainsPrefix(TypeRules(cs[0]), AllTypeRules(cs[1..]), TypeRules(cs[0]));
    } else {
      AllTypeRulesHas(cs[1..], i - 1);
      ContainsSuffix(TypeRules(cs[0]), AllTypeRules(cs[1..]), TypeRules(cs[i]));
    }
  }

  /** The fallback sheet has rules for each of the eight canonical types, in the colours the
      callout table is painted with inline (src/main.ts:637-650). */
  lemma FallbackMatchesThemes(t: string)
    requires t in CanonicalTypes
    ensures exists i ::
      (0 <= i < |CssThemes| && CssThemes[i].name == t &&
       CssThemes[i].borderColor == CalloutTheme(t).borderColor &&
       CssThemes[i].background == CalloutTheme(t).background &&
       CssThemes[i].titleColor == CalloutTheme(t).titleColor &&
       Contains(FallbackCss, TypeRules(CssThemes[i])))
  {
    var i := ThemeIndex(t);
    TypeRulesInFallback(i);
  }

  lemma TypeRulesInFallback(i: nat)
    requires i < |CssThemes|
    ensures Contains(FallbackCss, TypeRules(CssThemes[i]))
  {
    AllTypeRulesHas(CssThemes, i);
    ContainsSuffix("\n" + BaseRules, AllTypeRules(CssThemes), TypeRules(CssThemes[i]));
  }

  function ThemeIndex(t: string): (i: nat)
    requires t in CanonicalTypes
    ensures i < |CssThemes| && CssThemes[i].name == t
    ensures Theme(CssThemes[i].borderColor, CssThemes[i].background, CssThemes[i].titleColor) == CalloutTheme(t)
  {
    if t == "note" then 0
    else if t == "info" then 1
    else if t == "tip" then 2
    else if t == "question" then 3
    else if t == "warning" then 4
    else if t == "danger" then 5
    else if t == "example" then 6
    else 7
  }
}

/** The fixed tables of the callout transformer (src/main.ts:589-650): raw callout names to the
    eight canonical types, the default title and the colour theme of each type. */
module CalloutTables {

  import opened JsRecord

  /** The eight canonical callout types. */
  const CanonicalTypes: set<string> :=
    {"note", "info", "tip", "question", "warning", "danger", "example", "quote"}

  /** The 26 raw names `normalizeCalloutType` knows. */
  const TypeMap: map<string, string> := map[
    "note" := "note", "abstract" := "note", "summary" := "note", "tldr" := "note",
    "info" := "info", "todo" := "info",
    "tip" := "tip", "hint" := "tip", "important" := "tip", "success" := "tip", "check" := "tip", "done" := "tip",
    "question" := "question", "help" := "question", "faq" := "question",
    "warning" := "warning", "caution" := "warning", "attention" := "warning",
    "failure" := "danger", "fail" := "danger", "missing" := "danger", "danger" := "danger",
    "error" := "danger", "bug" := "danger",
    "example" := "example",
    "quote" := "quote"
  ]

  const TitleMap: map<string, string> := map[
    "note" := "Note", "info" := "Info", "tip" := "Tip", "question" := "Question",
    "warning" := "Warning", "danger" := "Danger", "example" := "Example", "quote" := "Quote"
  ]

  datatype Theme = Theme(borderColor: string, background: string, titleColor: string)

  const ThemeMap: map<string, Theme> := map[
    "note" := Theme("#773098", "#faf7fd", "#5a3382"),
    "info" := Theme("#2eaadc", "#f3fbff", "#1f7599"),
    "tip" := Theme("#2f9e44", "#f3fcf5", "#1f6d2f"),
    "question" := Theme("#b7791f", "#fffaf2", "#8a5b17"),
    "warning" := Theme("#e8913c", "#fff8f0", "#b96f22"),
    "danger" := Theme("#e03131", "#fff5f5", "#b42323"),
    "example" := Theme("#0ca678", "#f2fffb", "#087f5b"),
    "quote" := Theme("#868e96", "#f8f9fa", "#495057")
  ]

  /** `normalizeCalloutType` with the table read as a map, so that unknown names, including the
      names of `Object.prototype` members, fall back to `note`. */
  function NormalizeCalloutType(raw: string): (t: string)
    ensures t in CanonicalTypes
    ensures raw !in TypeMap ==> t == "note"
    ensures raw in CanonicalTypes ==> t == raw
  {
    if raw in TypeMap then TypeMap[raw] else "note"
  }

  /**
   * The corrected `getCalloutDefaultTitle`. The source reads an object literal, so an
   * `Object.prototype` name would return an inherited member; `normalizeCalloutType` never
   * returns one (see `AsWrittenAgreesDownstream`).
   */
  function DefaultTitle(t: string): (title: string)
    ensures title != []
    ensures t !in CanonicalTypes ==> title == "Note"
  {
    if t in TitleMap then TitleMap[t] else "Note"
  }

  /** The corrected `getCalloutTheme`, for the same reason as `DefaultTitle`. */
  function CalloutTheme(t: string): (theme: Theme)
    ensures t !in CanonicalTypes ==> theme == ThemeMap["note"]
  {
    if t in ThemeMap then ThemeMap[t] else ThemeMap["note"]
  }

  /** The raw names that map to each canonical type. */
  function Aliases(t: string): set<string> {
    if t == "note" then {"note", "abstract", "summary", "tldr"}
    else if t == "info" then {"info", "todo"}
    else if t == "tip" then {"tip", "hint", "important", "success", "check", "done"}
    else if t == "question" then {"question", "help", "faq"}
    else if t == "warning" then {"warning", "caution", "attention"}
    else if t == "danger" then {"failure", "fail", "missing", "danger", "error", "bug"}
    else if t == "example" then {"example"}
    else if t == "quote" then {"quote"}
    else {}
  }

  /** The table read backwards: a raw name normalises to `t` exactly when it is one of `t`'s
      aliases, or when `t` is `note` and the name is unknown. */
  lemma NormalizeInverse(raw: string, t: string)
    requires t in CanonicalTypes
    ensures NormalizeCalloutType(raw) == t <==> raw in Aliases(t) || (t == "note" && raw !in TypeMap)
  {
    if raw in TypeMap {
      KeyIsAlias(raw);
    }
    if raw in Aliases(t) {
      AliasIsKey(raw, t);
    }
  }

  lemma KeyIsAlias(raw: string)
    requires raw in TypeMap
    ensures raw in Aliases(TypeMap[raw])
  {
  }

  lemma AliasIsKey(raw: string, t: string)
    requires raw in Aliases(t)
    ensures raw in TypeMap && TypeMap[raw] == t
  {
    if t == "note" || t == "info" {
      NoteOrInfoAliasIsKey(raw, t);
    } else if t == "tip" || t == "question" {
      TipOrQuestionAliasIsKey(raw, t);
    } else {
      OtherAliasIsKey(raw, t);
    }
  }

  lemma NoteOrInfoAliasIsKey(raw: string, t: string)
    requires raw in Aliases(t) && (t == "note" || t == "info")
    ensures raw in TypeMap && TypeMap[raw] == t
  {
    if t == "note" {
    } else {
    }
  }

  lemma TipOrQuestionAliasIsKey(raw: string, t: string)
    requires raw in Aliases(t) && (t == "tip" || t == "question")
    ensures raw in TypeMap && TypeMap[raw] == t
  {
    if t == "tip" {
    } else {
    }
  }

  lemma OtherAliasIsKey(raw: string, t: string)
    requires raw in Aliases(t) && t !in {"note", "info", "tip", "question"}
    ensures raw in TypeMap && TypeMap[raw] == t
  {
    if t == "warning" {
    } else if t == "danger" {
    } else if t == "example" {
    } else {
    }
  }

  /** Normalising a canonical type changes nothing, so normalising twice is normalising once. */
  lemma NormalizeIdempotent(raw: string)
    ensures NormalizeCalloutType(NormalizeCalloutType(raw)) == NormalizeCalloutType(raw)
  {
  }

  /** Every canonical type has its own entry in both tables: the fallbacks are never used for them,
      and no two types share a title or a border colour. */
  lemma TablesCoverCanonical(t: string, u: string)
    requires t in CanonicalTypes && u in CanonicalTypes && t != u
    ensures t in TitleMap && t in ThemeMap
    ensures DefaultTitle(t) != DefaultTitle(u)
    ensures CalloutTheme(t).borderColor != CalloutTheme(u).borderColor
  {
  }

  // ---------------------------------------------------------------------------------------
  // The lookups as written: object literals, read with `??`

  /** `typeMap[rawType] ?? 'note'` on the object literal. */
  function NormalizeAsWritten(raw: string): Value<string> {
    Coalesce(Get(TypeMap, raw), "note")
  }

  /** `titleMap[type] ?? 'Note'`, where `type` is whatever `normalizeCalloutType` returned. */
  function DefaultTitleAsWritten(t: Value<string>): Value<string> {
    Coalesce(Get(TitleMap, ToStr(t)), "Note")
  }

  /** `themeMap[type] ?? themeMap.note`. */
  function ThemeAsWritten(t: Value<string>): Value<Theme> {
    Coalesce(Get(ThemeMap, ToStr(t)), ThemeMap["note"])
  }

  /** `[!constructor]` and `[!__proto__]` match the header pattern and survive lower-casing, and
      `normalizeCalloutType` then returns an `Object.prototype` member instead of a type name. */
  lemma NormalizeAsWrittenLeaks()
    ensures NormalizeAsWritten("constructor") == ProtoMember("constructor")
    ensures NormalizeAsWritten("__proto__") == ProtoMember("__proto__")
    ensures NormalizeCalloutType("constructor") == "note"
  {
  }

  lemma ProtoMemberNamesNoEntry(t: Value<string>)
    requires t.ProtoMember?
    ensures ToStr(t) !in TitleMap && ToStr(t) !in ThemeMap && ToStr(t) !in ObjectPrototypeNames
  {
  }

  /** The leak never reaches the output: for every raw name, the title and the theme the source
      ends up with are those of the corrected normalisation. */
  lemma AsWrittenAgreesDownstream(raw: string)
    ensures DefaultTitleAsWritten(NormalizeAsWritten(raw)) == Plain(DefaultTitle(NormalizeCalloutType(raw)))
    ensures ThemeAsWritten(NormalizeAsWritten(raw)) == Plain(CalloutTheme(NormalizeCalloutType(raw)))
  {
    var t := NormalizeAsWritten(raw);
    if t.ProtoMember? {
      ProtoMemberNamesNoEntry(t);
    } else {
      assert t.value == NormalizeCalloutType(raw);
    }
  }
}

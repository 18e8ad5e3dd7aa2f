# Obsidian-to-WeChat export: a Dafny model of the HTML pipeline

This project models the part of the plugin that turns a rendered Obsidian note into HTML for the
WeChat editor. All of it lives in `src/main.ts`. The model covers:

- **Wiki embeds** (`convertWikiLinks`): before Markdown rendering, every `![[file|alias]]` is
  rewritten as a standard Markdown image `![alias](encodeURI(trim(file)))`.
- **Image inlining** (`processImagesToBase64`, `readImageToBase64`): every `img` whose `src`
  names a vault file gets a base64 `data:` URI. The MIME type is chosen from the file extension.
- **Callouts** (`transformCallouts`, `getFirstLineText`, `getFirstBreakElement`): a blockquote
  whose first paragraph opens with `[!type] title` becomes a one-cell table with inline styles.
  The helper tables `normalizeCalloutType`, `getCalloutDefaultTitle` and `getCalloutTheme`, and
  the style setter `setElementStyles`, are modelled with it.
- **The stylesheet** (`getRenderCSS`, `CALLOUT_FALLBACK_CSS`): the user's CSS, with the fallback
  callout rules appended when it has none of its own.

Modules, in dependency order:

- `Wrappers`: `Option`, `Result`.
- `Text`: `trim` and `includes` with ECMAScript semantics, and the ASCII part of `toLowerCase`.
- `Utf8` (section 3 of RFC 3629) and `Uri` (`encodeURI` and `decodeURIComponent`, section 19.2.6
  of ECMA-262).
- `WikiLinks`.
- `JsRecord`: reading an object literal used as a lookup table, including the keys it inherits
  from `Object.prototype`.
- `CalloutTables`.
- `Dom` and `DomQuery`: an abstract HTML tree with `querySelector` and `querySelectorAll` in tree
  order.
- `CalloutHeader`: the header regular expression, matched by hand.
- `Callouts`, with worked examples in `CalloutExamples`.
- `RenderCss`.
- `Images`: the vault, `readBinary` and `btoa` are parameters of the pass.

A document is the list of children of `body`. Parsing (`DOMParser`) and serialisation
(`innerHTML`) are outside the model.

## Model

| member | source | states |
|---|---|---|
| WikiLinks.SplitAlias | src/main.ts:412-418 | Without a pipe the whole content is the file name and the alias is empty. With one, the file name is the text before the first pipe, and file name, pipe and alias give back the content. |
| WikiLinks.JoinSplit | src/main.ts:415-417 | Joining the pieces of a split on the pipe character, with that character, gives back the original string. |
| WikiLinks.ConvertEmbed | src/main.ts:408-427 | A `![[content]]` whose content holds no `]` is replaced in place, and the scan resumes right after its `]]`. |
| WikiLinks.EmbedWithAlias | src/main.ts:407-428 | An embed with file name `A`, a pipe and alias `B` becomes `![B](encodeURI(trim(A)))`; later pipes stay in the alias. |
| WikiLinks.EmbedWithoutAlias | src/main.ts:407-428 | `![[A]]` becomes `![](encodeURI(trim(A)))`. |
| WikiLinks.ConvertWikiLinks | src/main.ts:407-428 | `convertWikiLinks`. Text in which the pattern matches nowhere is returned unchanged; what each match becomes and what the output holds are stated by `ConvertEmbed`, `EmbedWithAlias`, `EmbedWithoutAlias`, `ConvertLeavesNoEmbed` and `UnchangedIff`. |
| WikiLinks.ConvertLeavesNoEmbed | src/main.ts:407-428 | The output holds no wiki embed anywhere. |
| WikiLinks.ConvertIdempotent | src/main.ts:407-428 | Converting converted text changes nothing. |
| WikiLinks.UnchangedIff | src/main.ts:407-428 | The text comes back unchanged exactly when it holds no wiki embed. |
| WikiLinks.EmbedPathDecodes | src/main.ts:421-424 | The path written for an embed decodes with `decodeURIComponent` to the trimmed file name. |
| Uri.EncodeURI | src/main.ts:424 | `encodeURI`. The output is never shorter than the input, and it equals the input exactly when it holds no `%`, that is when no character needed escaping. |
| Uri.DecodeURIComponent | src/main.ts:453 | `decodeURIComponent`, throwing as an `Err`. Text without `%` decodes to itself, and a decoded string is never longer than its input. |
| Uri.DecodeEncodeURI | src/main.ts:424 | `decodeURIComponent(encodeURI(s))` is `s` for every string, and never throws. |
| Uri.EncodeURIIsEncoded | src/main.ts:424 | The output of `encodeURI` holds only characters of its unescaped set (which includes reserved characters such as `;/?:@&=+$,#` and the parentheses) and `%XX` escapes. |
| Uri.EncodeURIIdentity | src/main.ts:424 | Text made only of characters `encodeURI` leaves alone comes back unchanged. |
| Utf8.DecodeEncode | src/main.ts:453 | The UTF-8 octets of a non-ASCII code point decode back to it. |
| Utf8.EncodeDecode | src/main.ts:453 | The only octets that decode to a code point are its UTF-8 encoding: over-long forms are refused. |
| Text.TrimIdempotent | src/main.ts:488 | Trimming trimmed text changes nothing. |
| Text.TrimEmptyIff | src/main.ts:507 | A string trims to empty exactly when it is all white space. |
| CalloutHeader.ParseHeader | src/main.ts:482 | The header pattern's `match`. An accepted string starts with `[!`, its type capture is a non-empty run of `[a-zA-Z0-9_-]`, and its title holds no line terminator; the full language and captures are stated by `ParseHeaderSound`, `ParseHeaderComplete` and `ParseHeaderExact`. |
| CalloutHeader.ParseHeaderSound | src/main.ts:482 | Every string the matcher accepts is `[!`, a non-empty run of `[a-zA-Z0-9_-]`, `]`, an optional `+` or `-`, white space, and a title with no line terminator. The captures are the greedy ones. |
| CalloutHeader.ParseHeaderComplete | src/main.ts:482 | Every string of that shape is accepted, with the type it was built from. |
| CalloutHeader.ParseHeaderExact | src/main.ts:482 | A string of that shape, split greedily, is matched with exactly those captures. |
| CalloutHeader.TailUnique | src/main.ts:482 | The text after `]` has only one greedy split into fold marker, white space and title. |
| CalloutHeader.ExampleHeader | src/main.ts:482 | `[!warning] Careful` has type `warning`, no fold marker and title `Careful`. |
| CalloutHeader.ExampleFolded | src/main.ts:482 | In `[!tip]- Folded` the fold marker is captured, not left to the title. |
| CalloutTables.NormalizeCalloutType | src/main.ts:589-620 | The result is always one of the eight canonical types. Unknown names give `note`, and a canonical name maps to itself. |
| CalloutTables.NormalizeInverse | src/main.ts:590-617 | A raw name normalises to type `t` exactly when it is one of `t`'s aliases, or `t` is `note` and the name is unknown. |
| CalloutTables.NormalizeIdempotent | src/main.ts:589-620 | Normalising twice is normalising once. |
| CalloutTables.DefaultTitle | src/main.ts:622-635 | The corrected `getCalloutDefaultTitle`, exact for every type `normalizeCalloutType` returns: every such type has a non-empty title, and a name outside the eight types gets `Note`. |
| CalloutTables.CalloutTheme | src/main.ts:637-650 | The corrected `getCalloutTheme`, exact for every type `normalizeCalloutType` returns: a name outside the eight types gets the `note` theme. |
| CalloutTables.TablesCoverCanonical | src/main.ts:622-650 | Each canonical type has its own title entry and its own theme entry. No two types share a title or a border colour. |
| CalloutTables.NormalizeAsWrittenLeaks | src/main.ts:619 | The object-literal lookup returns an `Object.prototype` member for `constructor` and for `__proto__`. |
| CalloutTables.AsWrittenAgreesDownstream | src/main.ts:491-511 | For every raw name, the title and the theme the code ends up with are those of the corrected lookup. |
| Callouts.FirstBreak | src/main.ts:580-587 | `getFirstBreakElement`. A position found is a child that is a `br`; that it is the first, and that none is found only without a `br`, is `FirstBreakIsFirst`. |
| Callouts.FirstLineText | src/main.ts:567-578 | `getFirstLineText`. The first line is a prefix of the text of all the children; where it ends is `FirstLineIsBeforeBreak`. |
| Callouts.FirstBreakIsFirst | src/main.ts:580-587 | The break found is a `br` child with no `br` before it. None is found exactly when no child is a `br`. |
| Callouts.FirstLineIsBeforeBreak | src/main.ts:567-578 | The first line is the text content of exactly the children before the first `br`, or of all children when there is none. |
| Callouts.MatchHeading | src/main.ts:488-495 | A matched heading has a canonical type and a non-empty title. |
| Callouts.HeadingIff | src/main.ts:488-490 | A paragraph opens a callout exactly when its trimmed first line is in the language of the header pattern. |
| Callouts.LeftAloneIff | src/main.ts:485-490 | A blockquote is left alone exactly when it has no paragraph, or its first paragraph's first line is not a header. |
| Callouts.TitleAlreadyTrimmed | src/main.ts:493 | The `trim` of the captured title never changes it. |
| Callouts.HeadingTitle | src/main.ts:493-495 | The title is the text after the header, or the type's default title when that text is empty. |
| Callouts.StripHeader | src/main.ts:497-509 | What replaces the first paragraph: nothing, or the same paragraph keeping a proper suffix of its children. When each happens is `StripHeaderRemoved` and `StripHeaderKept`. |
| Callouts.StripHeaderRemoved | src/main.ts:497-509 | The first paragraph is removed exactly when it has no `br`, or the text after its first `br` trims to empty. |
| Callouts.StripHeaderKept | src/main.ts:497-502 | Otherwise the paragraph stays. It loses the children up to and including the first `br`, and keeps the rest unchanged. |
| Callouts.Restyle | src/main.ts:541-556 | Every body paragraph gets the body declarations; the last gets margin `0` and the others `0 0 12px 0`. Nothing but the style changes, and in the declaration list every property the body styles do not name keeps its value (CSS shorthand expansion is not modelled). |
| Callouts.TableShape | src/main.ts:511-539 | The table is `table > tbody > tr > td`. The cell has the theme's left border and background, then a title paragraph in the theme's title colour, then the body. |
| Callouts.CalloutShape | src/main.ts:511-561 | A matched blockquote becomes that table, themed and titled from its header. |
| Callouts.CellHoldsOnlyParagraphs | src/main.ts:541-551 | After the title, the cell holds only paragraphs. |
| Callouts.ParagraphsAfterStrip | src/main.ts:497-541 | After header stripping, the blockquote's paragraphs are what is left of the first one, then every later one in order. |
| Callouts.CalloutBody | src/main.ts:541-556 | The cell body is that list of paragraphs, each changed only in style, and the last has margin `0`. |
| Callouts.TransformBlockquote | src/main.ts:484-561 | The loop body for one blockquote. Without a paragraph it is left alone, and a replacement is a `table` with one child; when it is left alone is `LeftAloneIff`, and the replacement is `CalloutShape` and `CalloutBody`. |
| Callouts.TransformCallouts | src/main.ts:478-565 | `transformCallouts` on the parsed body. It keeps the number of top-level nodes, and a body without blockquotes comes back unchanged. |
| Callouts.NoBlockquoteUnchangedF | src/main.ts:481-484 | A document without blockquotes comes out as it went in. |
| DomQuery.FirstIsSelectedF | src/main.ts:485-541 | `querySelector` finds nothing exactly when `querySelectorAll` lists nothing; otherwise it finds the head of that list. |
| DomQuery.EditSelectF | src/main.ts:497-541 | Replacing a first match that holds no further match: `querySelectorAll` then lists the matches in the replacement, followed by the other original matches in order. |
| Dom.Set | src/main.ts:652-656 | `setProperty` gives the name its new value and leaves every other name as it was. An existing name keeps its place; a new one is appended. |
| Dom.SetAllLookup | src/main.ts:652-656 | After `setElementStyles`, a property carries the value of its last entry. |
| CalloutExamples.WarningCallout | src/main.ts:478-565 | `[!warning] Careful`, a `br` and `Body` give a table in the warning colours, titled `Careful`, with a cell holding a paragraph `Body`. |
| CalloutExamples.HeaderOnlyCallout | src/main.ts:497-509 | `[!warning]` alone gives the default title `Warning` and a cell with nothing after the title. |
| CalloutExamples.ImageAfterHeaderDropped | src/main.ts:507-509 | `[!tip]`, a `br` and an image: the paragraph's text after the break is blank, so it is removed, image and all. |
| RenderCss.RenderCss | src/main.ts:658-664 | The sheet starts with the custom CSS and always mentions `.wechat-callout`. A custom sheet that mentions it is used as it is; any other is followed by a line break and the fallback sheet. |
| RenderCss.RenderedUnchangedIff | src/main.ts:658-664 | The custom sheet comes back as it is exactly when it already mentions the callout class. |
| RenderCss.RenderIdempotent | src/main.ts:658-664 | Rendering a rendered sheet again changes nothing. |
| RenderCss.FallbackHasClass | src/main.ts:247-249 | The fallback sheet mentions the callout class, so it is never appended twice. |
| RenderCss.FallbackMatchesThemes | src/main.ts:247-338 | The fallback sheet has rules for each canonical type, in the border, background and title colours the inline table uses. |
| Images.Mime | src/main.ts:679-688 | The MIME type comes from the table by lower-cased extension, or is `image/jpeg` for an unknown one. |
| Images.MimeIgnoresCase | src/main.ts:679 | The case of the extension does not matter. |
| Images.MimeAsWrittenLeaksConstructor | src/main.ts:680-688 | As written, the extension `constructor` takes the `Object` function as its MIME type. |
| Images.MimeAsWrittenLeaksProto | src/main.ts:680-688 | As written, the extension `__proto__` takes `Object.prototype` as its MIME type. |
| Images.MimeAsWrittenAgrees | src/main.ts:680-688 | For every other extension the lookup as written gives the corrected MIME type. |
| Images.DataUriRoundTrip | src/main.ts:690 | A `data:` URI reads back into the media type and the data it was built from. |
| Images.NewSrc | src/main.ts:442-468 | Skipped sources keep their value. A new value is a `data:` URI whose media type is from the table. |
| Images.NewSrcIff | src/main.ts:442-468 | An image is inlined exactly when its `src` is not skipped, decodes, resolves to a file and can be read. It then holds the file's base64 bytes under the file's MIME type. |
| Images.WikiEmbedResolvesByName | src/main.ts:453-456 | An `src` equal to the path the rewrite wrote (`encodeURI` of the name) is looked up under the file name the note used. |
| Images.NewSrcSettles | src/main.ts:446-448 | A rewritten source is skipped by a second pass. |
| Images.ImagesN | src/main.ts:435-472 | An `img` gets its new source, or keeps the old one. Every other attribute, the style and the tag are kept, and non-images keep their attributes. |
| Images.ImagesKeepShapeF | src/main.ts:431-475 | The pass changes nothing but image sources. |
| Images.NoImagesUnchangedF | src/main.ts:435-438 | A tree without images comes back as it is. |
| Images.ImagesIdempotentF | src/main.ts:431-475 | Running the pass on its own output changes nothing. |
| Images.ProcessImages | src/main.ts:431-475 | `processImagesToBase64` on the parsed body. It keeps the number of top-level nodes, changes nothing but image sources, and leaves a body without images unchanged; which sources change is `NewSrcIff`. |

## Left out

- Parsing with `DOMParser` and serialising with `innerHTML` are not modelled. Documents are abstract trees of text, comment and element nodes, and tag names are lower-case.
- Markdown rendering, the CSS inliner, the clipboard, notices, console logging, the settings and the settings tab are I/O or foreign code. They are not modelled.
- `btoa` and the byte-to-string loop before it are the opaque `Host.base64` parameter. `getFirstLinkpathDest` and `readBinary` are the `Host.resolve` and `Host.readBinary` oracles. A thrown read is `None`.
- `Promise.all`: each per-image closure writes only its own element's `src`, so the model applies them one after the other.
- Dom.Set: `setProperty` and `setAttribute` are modelled on ordered name/value lists. CSS shorthand expansion (`margin` into `margin-top` and the rest) is not modelled, nor is the normalisation CSSOM applies to stored and serialised values (`#333` becomes `rgb(51, 51, 51)`, `0` becomes `0px`): the model keeps the declared strings.
- Callouts.Restyle: "declarations the body styles do not name keep their values" holds for the model's declaration lists, not for CSSOM. Setting `margin` at src/main.ts:547 and :554 also overwrites `margin-top` and the other margin longhands a raw `<p style="margin-top:8px">` in a callout may carry; shorthand expansion is left out as on the `Dom.Set` line.
- CalloutTables.DefaultTitle: is the corrected lookup of src/main.ts:634. The code reads an object literal, so `constructor`, `toString`, `__proto__` and the other `Object.prototype` names return inherited members rather than `Note`. Line 494 never passes such a name, and `CalloutTables.AsWrittenAgreesDownstream` proves the code's result equals the corrected one for every raw name.
- CalloutTables.CalloutTheme: is the corrected lookup of src/main.ts:649, for the same reason: `Object.prototype` names return inherited members rather than the `note` theme. `CalloutTables.AsWrittenAgreesDownstream` proves they never reach it from line 494.
- Text.AsciiLower: models `toLowerCase` on ASCII letters only. Callout types are ASCII by the header pattern. Every MIME key and prototype name is ASCII, and the only non-ASCII character that lowercases to an ASCII letter is the Kelvin sign, which becomes `k`. No key contains `k`, so the lookups come out the same.
- Strings are sequences of Unicode scalar values. A lone UTF-16 surrogate, the only input on which `encodeURI` throws, cannot occur.
- Callouts.CalloutBody: requires that the first paragraph holds no `p` descendant. Raw inline HTML in the header paragraph, such as `<button><p>y</p></button>` after the header line, breaks this, because `button` is a scope boundary for the implicit closing of `p`. The transform itself (`Callouts.TransformBlockquote`) is modelled for that input too; only this description of the cell body is not.
- Callouts.ParagraphsAfterStrip: the same requirement, for the same reason.
- A local file whose path starts with `http` is never inlined. This is how the code behaves, and the model keeps it in `Images.Skipped`.
- `CALLOUT_FALLBACK_CSS` is modelled as the exact text of the template literal. Only the facts above are proved about it.
- The general theme CSS (`DEFAULT_CSS`) is not used by these functions and is not modelled.

## Findings

| source | as written | input that shows it | evidently intended | confidence | as-written member | corrected member |
|---|---|---|---|---|---|---|
| src/main.ts:619 | `typeMap[rawType] ?? 'note'` reads an object literal, so an `Object.prototype` member comes back for a key it does not hold. | `> [!constructor]` returns the `Object` function, and `> [!__proto__]` returns `Object.prototype`. Neither is a type name. | Unknown names give `note`. The title and theme lookups that follow still end at `note`, proved by `CalloutTables.AsWrittenAgreesDownstream`. | not executed | CalloutTables.NormalizeAsWrittenLeaks | CalloutTables.NormalizeCalloutType |
| src/main.ts:688 | The MIME table is an object literal read by key, with `image/jpeg` as the fallback, so an `Object.prototype` member comes back for a key the table does not hold. | An image file `x.constructor` becomes `data:function Object() { [native code] };base64,…` | Unknown extensions give `image/jpeg` | not executed | Images.MimeAsWrittenLeaksConstructor | Images.Mime |

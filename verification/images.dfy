/** The image pass (src/main.ts:431-475, 666-691): every `img` whose `src` names a vault file is
    given the file's bytes as a base64 `data:` URI, the form section 3 of RFC 2397 defines.
    The vault and the base64 encoder are calls the model cannot see; they are parameters. */
module Images {

  import opened Wrappers
  import opened Text
  import opened Dom
  import opened DomQuery
  import opened Uri
  import opened JsRecord
  import Utf8

  /** A vault file, as far as the pass looks at it: its path and its extension (without the dot). */
  datatype VaultFile = VaultFile(path: string, extension: string)

  /** What the pass calls into:
      `resolve(linkpath, sourcePath)` is `metadataCache.getFirstLinkpathDest`, giving `None` for
      an unknown link and for a link that names a folder; `readBinary` is `vault.readBinary`,
      giving `None` when the read fails; `base64` is `window.btoa` over the file's octets. */
  datatype Host = Host(
    resolve: (string, string) -> Option<VaultFile>,
    readBinary: VaultFile -> Option<seq<Utf8.Byte>>,
    base64: seq<Utf8.Byte> -> string)

  // ---------------------------------------------------------------------------------------
  // The MIME type

  const MimeMap: map<string, string> := map[
    "png" := "image/png", "jpg" := "image/jpeg", "jpeg" := "image/jpeg",
    "gif" := "image/gif", "webp" := "image/webp", "svg" := "image/svg+xml"
  ]

  const DefaultMime: string := "image/jpeg"

  /** The MIME type of a file extension, compared without regard to case; unknown extensions
      are taken for JPEG. */
  function Mime(extension: string): (mime: string)
    ensures mime in MimeMap.Values
    ensures AsciiLower(extension) in MimeMap ==> mime == MimeMap[AsciiLower(extension)]
    ensures AsciiLower(extension) !in MimeMap ==> mime == DefaultMime
  {
    var e := AsciiLower(extension);
    if e in MimeMap then MimeMap[e]
    else
      assert MimeMap["jpeg"] == DefaultMime;
      DefaultMime
  }

  /** The case of the extension does not matter. */
  lemma MimeIgnoresCase(extension: string)
    ensures Mime(extension) == Mime(AsciiLower(extension))
  {
    AsciiLowerIdempotent(extension);
  }

  lemma MimeHasNoSemicolon(extension: string)
    ensures ';' !in Mime(extension)
  {
    var m := Mime(extension);
    assert m in {"image/png", "image/jpeg", "image/gif", "image/webp", "image/svg+xml"};
  }

  /** `mimeMap[ext] || 'image/jpeg'` on the object literal. */
  function MimeAsWritten(extension: string): Value<string> {
    OrElse(Get(MimeMap, AsciiLower(extension)), DefaultMime)
  }


  /** An image file whose extension lower-cases to `constructor` reads the `Object` constructor
      from the MIME table; the data URI then carries that function's source text where the MIME
      type belongs. */
  lemma MimeAsWrittenLeaksConstructor(extension: string)
    requires AsciiLower(extension) == "constructor"
    ensures ToStr(MimeAsWritten(extension)) == "function Object() { [native code] }"
    ensures Mime(extension) == DefaultMime
  {
  }

  /** The extension `__proto__` reads `Object.prototype` itself. */
  lemma MimeAsWrittenLeaksProto(extension: string)
    requires AsciiLower(extension) == "__proto__"
    ensures ToStr(MimeAsWritten(extension)) == "[object Object]"
    ensures Mime(extension) == DefaultMime
  {
  }

  /** Both names are their own lower case, so `a.constructor` and `a.__proto__` show the leak. */
  lemma ConstructorIsLower(e: string)
    requires e == "constructor"
    ensures AsciiLower(e) == e
  {
    forall i | 0 <= i < |e| ensures !IsAsciiUpper(e[i]) {
      assert e[i] in e;
    }
    AsciiLowerOfLower(e);
  }

  lemma ProtoIsLower(e: string)
    requires e == "__proto__"
    ensures AsciiLower(e) == e
  {
    forall i | 0 <= i < |e| ensures !IsAsciiUpper(e[i]) {
      assert e[i] in e;
    }
    AsciiLowerOfLower(e);
  }

  /** For every other extension the table read as written gives the corrected MIME type. */
  lemma MimeAsWrittenAgrees(extension: string)
    requires AsciiLower(extension) !in ObjectPrototypeNames
    ensures MimeAsWritten(extension) == Plain(Mime(extension))
  {
  }

  // ---------------------------------------------------------------------------------------
  // The data URI

  /** `data:<mime>;base64,<data>`. */
  function DataUri(mime: string, data: string): string {
    "data:" + mime + ";base64," + data
  }

  /** Reads a base64 data URI back into its media type and its data: the media type runs from
      after `data:` to the first `;`, which must open `;base64,`. */
  function ParseDataUri(s: string): (r: Option<(string, string)>)
    ensures r.Some? ==> DataUri(r.value.0, r.value.1) == s && ';' !in r.value.0
  {
    if !StartsWith(s, "data:") then None
    else
      var k := FirstIndex(s[5..], ';');
      if 5 + k < |s| && StartsWith(s[5 + k..], ";base64,") then
        DataUriParts(s, k);
        assert s[5..5 + k] == s[5..][..k];
        Some((s[5..5 + k], s[13 + k..]))
      else None
  }

  lemma DataUriParts(s: string, k: nat)
    requires StartsWith(s, "data:") && 5 + k <= |s| && StartsWith(s[5 + k..], ";base64,")
    ensures DataUri(s[5..5 + k], s[13 + k..]) == s
  {
    assert s == s[..5] + s[5..5 + k] + s[5 + k..][..8] + s[13 + k..];
  }

  /** Reading a data URI back gives the media type and the data it was built from, whenever the
      media type has no `;` (a MIME type from the table never has one). */
  lemma DataUriRoundTrip(mime: string, data: string)
    requires ';' !in mime
    ensures ParseDataUri(DataUri(mime, data)) == Some((mime, data))
  {
    var s := DataUri(mime, data);
    var k := |mime|;
    assert s[..5] == "data:";
    assert s[5..][..k] == mime && s[5..][k] == ';';
    FirstIndexAt(s[5..], ';', k);
    assert s[5 + k..][..8] == ";base64,";
    assert s[5..5 + k] == mime && s[13 + k..] == data;
  }

  lemma DataUriIsData(mime: string, data: string)
    ensures StartsWith(DataUri(mime, data), "data:")
  {
    assert DataUri(mime, data)[..5] == "data:";
  }

  // ---------------------------------------------------------------------------------------
  // One image

  /** The sources the pass leaves alone without looking them up: no `src`, an empty one, and
      those starting with `http` (a network address) or `data:` (already inline). */
  predicate Skipped(src: Option<string>) {
    src.None? || src.value == [] || StartsWith(src.value, "http") || StartsWith(src.value, "data:")
  }

  /** The per-image `task` closure: the value the image's `src` is set to, or `None` to leave it as it is —
      skipped, undecodable (`decodeURIComponent` throws and the closure catches it), unresolved,
      or unreadable. */
  function NewSrc(src: Option<string>, sourcePath: string, host: Host): (r: Option<string>)
    ensures Skipped(src) ==> r.None?
    ensures r.Some? ==> StartsWith(r.value, "data:")
    ensures r.Some? ==> match ParseDataUri(r.value)
                        case Some((mime, _)) => mime in MimeMap.Values
                        case None => false
  {
    if Skipped(src) then None
    else
      match DecodeURIComponent(src.value)
      case Err(_) => None
      case Ok(path) =>
        match host.resolve(path, sourcePath)
        case None => None
        case Some(file) =>
          match host.readBinary(file)
          case None => None
          case Some(bytes) =>
            var mime := Mime(file.extension);
            MimeHasNoSemicolon(file.extension);
            DataUriRoundTrip(mime, host.base64(bytes));
            DataUriIsData(mime, host.base64(bytes));
            Some(DataUri(mime, host.base64(bytes)))
  }

  /** An image is inlined exactly when its `src` is not skipped, decodes, resolves to a file and
      the file can be read; it then holds that file's bytes under the file's MIME type. */
  lemma NewSrcIff(src: Option<string>, sourcePath: string, host: Host)
    ensures NewSrc(src, sourcePath, host).Some? <==>
      !Skipped(src) && DecodeURIComponent(src.value).Ok? &&
      host.resolve(DecodeURIComponent(src.value).value, sourcePath).Some? &&
      host.readBinary(host.resolve(DecodeURIComponent(src.value).value, sourcePath).value).Some?
    ensures NewSrc(src, sourcePath, host).Some? ==>
      var file := host.resolve(DecodeURIComponent(src.value).value, sourcePath).value;
      ParseDataUri(NewSrc(src, sourcePath, host).value)
        == Some((Mime(file.extension), host.base64(host.readBinary(file).value)))
  {
    if NewSrc(src, sourcePath, host).Some? {
      var file := host.resolve(DecodeURIComponent(src.value).value, sourcePath).value;
      MimeHasNoSemicolon(file.extension);
      DataUriRoundTrip(Mime(file.extension), host.base64(host.readBinary(file).value));
    }
  }

  /** A link written `![[name.png]]` is encoded with `encodeURI` on the way in; the image pass
      decodes it back to the name it looks up. */
  lemma WikiEmbedResolvesByName(name: string, sourcePath: string, host: Host)
    requires !Skipped(Some(EncodeURI(name)))
    ensures NewSrc(Some(EncodeURI(name)), sourcePath, host)
      == match host.resolve(name, sourcePath)
         case None => None
         case Some(file) =>
           match host.readBinary(file)
           case None => None
           case Some(bytes) => Some(DataUri(Mime(file.extension), host.base64(bytes)))
  {
    DecodeEncodeURI(name);
  }

  /** A rewritten `src` is left alone by a second pass. */
  lemma NewSrcSettles(src: Option<string>, sourcePath: string, host: Host)
    requires NewSrc(src, sourcePath, host).Some?
    ensures NewSrc(NewSrc(src, sourcePath, host), sourcePath, host).None?
  {
  }

  // ---------------------------------------------------------------------------------------
  // The document

  /** `processImagesToBase64` on a forest: every `img` element, at any depth, goes through the closure.
      Each closure writes only its own element's `src`, so running the closures one after the other
      gives what `Promise.all` gives. */
  function ImagesF(cs: seq<Node>, sourcePath: string, host: Host): (r: seq<Node>)
    ensures |r| == |cs|
    ensures forall i | 0 <= i < |cs| :: r[i] == ImagesN(cs[i], sourcePath, host)
    decreases cs
  {
    if cs == [] then [] else [ImagesN(cs[0], sourcePath, host)] + ImagesF(cs[1..], sourcePath, host)
  }

  function ImagesN(n: Node, sourcePath: string, host: Host): (r: Node)
    ensures r.Element? <==> n.Element?
    ensures r.Element? ==> r.tag == n.tag && r.style == n.style && |r.children| == |n.children|
    ensures IsElement(n, "img") ==>
      Lookup(r.attrs, "src") == match NewSrc(Lookup(n.attrs, "src"), sourcePath, host)
                                case Some(v) => Some(v)
                                case None => Lookup(n.attrs, "src")
    ensures r.Element? ==> forall name :: name != "src" ==> Lookup(r.attrs, name) == Lookup(n.attrs, name)
    ensures r.Element? && !IsElement(n, "img") ==> r.attrs == n.attrs
    decreases n
  {
    match n
    case Element(tag, attrs, style, cs) =>
      var attrs' :=
        if tag != "img" then attrs
        else
          match NewSrc(Lookup(attrs, "src"), sourcePath, host)
          case Some(v) => Set(attrs, "src", v)
          case None => attrs;
      Element(tag, attrs', style, ImagesF(cs, sourcePath, host))
    case _ => n
  }

  /** `processImagesToBase64` on the children of `body`. */
  function ProcessImages(body: seq<Node>, sourcePath: string, host: Host): (r: seq<Node>)
    ensures |r| == |body|
    ensures SameButSrcF(body, r)
    ensures FirstF(body, "img").None? ==> r == body
  {
    ImagesKeepShapeF(body, sourcePath, host);
    assert FirstF(body, "img").None? ==> ImagesF(body, sourcePath, host) == body by {
      if FirstF(body, "img").None? { NoImagesUnchangedF(body, sourcePath, host); }
    }
    ImagesF(body, sourcePath, host)
  }

  /** Two trees that differ at most in the `src` of `img` elements. */
  ghost predicate SameButSrcF(a: seq<Node>, b: seq<Node>)
    decreases a
  {
    |a| == |b| && (a == [] || (SameButSrcN(a[0], b[0]) && SameButSrcF(a[1..], b[1..])))
  }

  ghost predicate SameButSrcN(a: Node, b: Node)
    decreases a
  {
    match a
    case Element(tag, attrs, style, cs) =>
      b.Element? && b.tag == tag && b.style == style &&
      (attrs == b.attrs ||
       (tag == "img" && forall name :: name != "src" ==> Lookup(b.attrs, name) == Lookup(attrs, name))) &&
      SameButSrcF(cs, b.children)
    case _ => b == a
  }

  /** The pass changes nothing but image sources: every node keeps its kind, tag, style and
      children, and every attribute other than an image's `src`. */
  lemma {:induction false} ImagesKeepShapeF(cs: seq<Node>, sourcePath: string, host: Host)
    ensures SameButSrcF(cs, ImagesF(cs, sourcePath, host))
    decreases cs
  {
    if cs != [] {
      ImagesKeepShapeN(cs[0], sourcePath, host);
      ImagesKeepShapeF(cs[1..], sourcePath, host);
      assert ImagesF(cs, sourcePath, host)[1..] == ImagesF(cs[1..], sourcePath, host);
    }
  }

  lemma {:induction false} ImagesKeepShapeN(n: Node, sourcePath: string, host: Host)
    ensures SameButSrcN(n, ImagesN(n, sourcePath, host))
    decreases n
  {
    if n.Element? {
      ImagesKeepShapeF(n.children, sourcePath, host);
    }
  }

  /** A tree without images comes back as it is. */
  lemma {:induction false} NoImagesUnchangedF(cs: seq<Node>, sourcePath: string, host: Host)
    requires FirstF(cs, "img").None?
    ensures ImagesF(cs, sourcePath, host) == cs
    decreases cs
  {
    if cs != [] {
      FirstNoneAll(cs, "img");
      FirstNoneSuffix(cs, "img", 1);
      NoImagesUnchangedN(cs[0], sourcePath, host);
      NoImagesUnchangedF(cs[1..], sourcePath, host);
    }
  }

  lemma {:induction false} NoImagesUnchangedN(n: Node, sourcePath: string, host: Host)
    requires FirstN(n, "img").None?
    ensures ImagesN(n, sourcePath, host) == n
    decreases n
  {
    if n.Element? {
      NoImagesUnchangedF(n.children, sourcePath, host);
    }
  }

  /** Running the pass on its own output changes nothing: inlined images now start with `data:`,
      and the others get the same answer from the same host as before. */
  lemma {:induction false} ImagesIdempotentF(cs: seq<Node>, sourcePath: string, host: Host)
    ensures ImagesF(ImagesF(cs, sourcePath, host), sourcePath, host) == ImagesF(cs, sourcePath, host)
    decreases cs
  {
    var once := ImagesF(cs, sourcePath, host);
    var twice := ImagesF(once, sourcePath, host);
    forall i | 0 <= i < |cs|
      ensures twice[i] == once[i]
    {
      ImagesIdempotentN(cs[i], sourcePath, host);
    }
  }

  lemma {:induction false} ImagesIdempotentN(n: Node, sourcePath: string, host: Host)
    ensures ImagesN(ImagesN(n, sourcePath, host), sourcePath, host) == ImagesN(n, sourcePath, host)
    decreases n
  {
    if n.Element? {
      var once := ImagesN(n, sourcePath, host);
      ImagesIdempotentF(n.children, sourcePath, host);
      if n.tag == "img" {
        var src := Lookup(n.attrs, "src");
        if NewSrc(src, sourcePath, host).Some? {
          NewSrcSettles(src, sourcePath, host);
        }
      }
    }
  }
}

/** The URI handling functions of ECMA-262 (section 19.2.6, abstract operations Encode and
    Decode): `encodeURI`, which the wiki-embed normaliser applies to file names, and
    `decodeURIComponent`, which the image resolver applies to `src` values. Escapes follow
    section 2.1 of RFC 3986: `%` and two hexadecimal digits per UTF-8 octet. */
module Uri {

  import opened Wrappers
  import Utf8

  predicate IsAsciiAlphaNum(c: char) {
    ('a' <= c <= 'z') || ('A' <= c <= 'Z') || ('0' <= c <= '9')
  }

  /** The characters `encodeURI` leaves as they are: ASCII letters and digits, the marks
      `-_.!~*'()`, the reserved characters `;/?:@&=+$,` and `#`. */
  predicate IsUriUnescaped(c: char) {
    IsAsciiAlphaNum(c) || c in "-_.!~*'()" || c in ";/?:@&=+$,#"
  }

  predicate IsHexDigit(c: char) {
    ('0' <= c <= '9') || ('a' <= c <= 'f') || ('A' <= c <= 'F')
  }

  /** The upper-case hexadecimal digit for `n`. */
  function HexDigit(n: nat): (c: char)
    requires n < 16
    ensures IsHexDigit(c) && !('a' <= c <= 'f')
  {
    if n < 10 then ('0' as int + n) as char else ('A' as int + n - 10) as char
  }

  /** The value of a hexadecimal digit of either case. */
  function HexValue(c: char): (r: Option<nat>)
    ensures r.Some? <==> IsHexDigit(c)
    ensures r.Some? ==> r.value < 16
  {
    if '0' <= c <= '9' then Some(c as int - '0' as int)
    else if 'a' <= c <= 'f' then Some(c as int - 'a' as int + 10)
    else if 'A' <= c <= 'F' then Some(c as int - 'A' as int + 10)
    else None
  }

  /** `%` followed by the octet in two upper-case hexadecimal digits. */
  function Escape(b: Utf8.Byte): (r: string)
    ensures |r| == 3 && r[0] == '%'
  {
    ['%', HexDigit(b / 16), HexDigit(b % 16)]
  }

  function EscapeAll(bs: seq<Utf8.Byte>): (r: string)
    ensures |r| == 3 * |bs|
  {
    if bs == [] then [] else Escape(bs[0]) + EscapeAll(bs[1..])
  }

  /** One character as `encodeURI` writes it. */
  function EncodeChar(c: char): (r: string)
    ensures IsUriUnescaped(c) ==> r == [c]
    ensures !IsUriUnescaped(c) ==> |r| >= 3 && r[0] == '%'
  {
    if IsUriUnescaped(c) then [c] else EscapeAll(Utf8.Encode(c))
  }

  /** `encodeURI`. It cannot throw here: its only error, a lone surrogate, is not a `char`. */
  function EncodeURI(s: string): (r: string)
    ensures |r| >= |s|
    ensures r == s <==> '%' !in r
  {
    if s == [] then []
    else
      var e, t := EncodeChar(s[0]), EncodeURI(s[1..]);
      assert e + t == s ==> t == s[1..] by {
        if e + t == s && IsUriUnescaped(s[0]) { assert t == (e + t)[1..]; }
      }
      assert IsUriUnescaped(s[0]) ==> s == e + s[1..];
      assert !IsUriUnescaped(s[0]) ==> (e + t)[0] == '%';
      e + t
  }

  /** ParseHexOctet: the octet spelled by the two characters at `k`, if both are hex digits. */
  function ParseHexOctet(s: string, k: nat): (r: Option<Utf8.Byte>)
    requires k + 2 <= |s|
    ensures r.Some? <==> IsHexDigit(s[k]) && IsHexDigit(s[k + 1])
  {
    match (HexValue(s[k]), HexValue(s[k + 1]))
    case (Some(hi), Some(lo)) => Some(hi * 16 + lo)
    case _ => None
  }

  /** The `count` continuation octets written as escapes from index `k` on, or `None` if one of
      them is missing, does not start with `%` or is not followed by two hex digits. */
  function ReadEscapes(s: string, k: nat, count: nat): (r: Option<seq<Utf8.Byte>>)
    requires k <= |s|
    ensures r.Some? ==> |r.value| == count && k + 3 * count <= |s|
    decreases count
  {
    if count == 0 then Some([])
    else if k + 3 > |s| || s[k] != '%' then None
    else match ParseHexOctet(s, k + 1)
      case None => None
      case Some(b) =>
        match ReadEscapes(s, k + 3, count - 1)
        case None => None
        case Some(rest) => Some([b] + rest)
  }

  /** The character an escape sequence at the start of `s` stands for, and how many characters the
      sequence spans. An octet below 0x80 is one character; a lead octet reads one to three more
      escapes and the octets must form a valid UTF-8 encoding; anything else is a URIError. */
  function DecodeEscape(s: string): (r: Result<(char, nat)>)
    requires |s| > 0 && s[0] == '%'
    ensures r.Ok? ==> 3 <= r.value.1 <= |s|
  {
    if |s| < 3 then Err("URIError")
    else match ParseHexOctet(s, 1)
      case None => Err("URIError")
      case Some(b) =>
        var n := Utf8.LeadingOnes(b);
        if n == 0 then Ok((b as char, 3))
        else if n == 1 || n > 4 then Err("URIError")
        else match ReadEscapes(s, 3, n - 1)
          case None => Err("URIError")
          case Some(rest) =>
            match Utf8.Decode([b] + rest)
            case None => Err("URIError")
            case Some(c) => Ok((c, 3 * n))
  }

  /** `decodeURIComponent`: every escape is decoded (its set of preserved escapes is empty); a
      malformed escape anywhere makes the whole call throw. */
  function DecodeURIComponent(s: string): (r: Result<string>)
    ensures '%' !in s ==> r == Ok(s)
    ensures r.Ok? ==> |r.value| <= |s|
    decreases |s|
  {
    if s == [] then Ok([])
    else if s[0] != '%' then
      assert '%' !in s ==> '%' !in s[1..] && s == [s[0]] + s[1..];
      match DecodeURIComponent(s[1..])
      case Err(e) => Err(e)
      case Ok(t) => Ok([s[0]] + t)
    else
      match DecodeEscape(s)
      case Err(e) => Err(e)
      case Ok((c, k)) =>
        match DecodeURIComponent(s[k..])
        case Err(e) => Err(e)
        case Ok(t) => Ok([c] + t)
  }

  // ---------------------------------------------------------------------------------------
  // Round trip

  lemma HexRoundTrip(b: Utf8.Byte, s: string, k: nat)
    requires k + 2 <= |s| && s[k] == HexDigit(b / 16) && s[k + 1] == HexDigit(b % 16)
    ensures ParseHexOctet(s, k) == Some(b)
  {
  }

  lemma {:induction false} ReadEscapesOfEscapeAll(bs: seq<Utf8.Byte>, pre: string, t: string)
    ensures ReadEscapes(pre + EscapeAll(bs) + t, |pre|, |bs|) == Some(bs)
    decreases |bs|
  {
    var s := pre + EscapeAll(bs) + t;
    if bs != [] {
      var e := Escape(bs[0]);
      assert EscapeAll(bs) == e + EscapeAll(bs[1..]);
      assert s == (pre + e) + EscapeAll(bs[1..]) + t;
      assert s[|pre|] == '%' && s[|pre| + 1] == e[1] && s[|pre| + 2] == e[2];
      HexRoundTrip(bs[0], s, |pre| + 1);
      ReadEscapesOfEscapeAll(bs[1..], pre + e, t);
      assert [bs[0]] + bs[1..] == bs;
    }
  }

  /** An escaped character decodes back to itself, consuming exactly its own escapes. */
  lemma DecodeEscapeOfEncodeChar(c: char, t: string)
    requires !IsUriUnescaped(c)
    ensures DecodeEscape(EncodeChar(c) + t) == Ok((c, |EncodeChar(c)|))
  {
    var bs := Utf8.Encode(c);
    var s := EncodeChar(c) + t;
    assert EscapeAll(bs) == Escape(bs[0]) + EscapeAll(bs[1..]);
    assert s[0] == '%';
    HexRoundTrip(bs[0], s, 1);
    if |bs| > 1 {
      assert s == (Escape(bs[0]) + EscapeAll(bs[1..])) + t;
      ReadEscapesOfEscapeAll(bs[1..], Escape(bs[0]), t);
      assert [bs[0]] + bs[1..] == bs;
      Utf8.DecodeEncode(c);
    }
  }

  /** The property the image resolver relies on: `decodeURIComponent` gives back exactly what
      `encodeURI` was given, and never throws on it. */
  lemma {:induction false} DecodeEncodeURI(s: string)
    ensures DecodeURIComponent(EncodeURI(s)) == Ok(s)
    decreases |s|
  {
    if s != [] {
      var e := EncodeChar(s[0]);
      var t := EncodeURI(s[1..]);
      DecodeEncodeURI(s[1..]);
      if IsUriUnescaped(s[0]) {
        assert (e + t)[1..] == t;
      } else {
        DecodeEscapeOfEncodeChar(s[0], t);
        assert (e + t)[|e|..] == t;
      }
      assert [s[0]] + s[1..] == s;
    }
  }

  /** The shape of `encodeURI`'s output: characters of its unescaped set, and `%` each followed
      by two hex digits. */
  predicate IsEncoded(r: string) {
    forall i | 0 <= i < |r| ::
      IsUriUnescaped(r[i]) || (r[i] == '%' && i + 2 < |r| && IsHexDigit(r[i + 1]) && IsHexDigit(r[i + 2]))
  }

  lemma {:induction false} EscapeAllIsEncoded(bs: seq<Utf8.Byte>)
    ensures IsEncoded(EscapeAll(bs))
    decreases |bs|
  {
    if bs != [] {
      EscapeAllIsEncoded(bs[1..]);
      var e := Escape(bs[0]);
      var r := EscapeAll(bs);
      assert r == e + EscapeAll(bs[1..]);
      forall i | 0 <= i < |r|
        ensures IsUriUnescaped(r[i]) || (r[i] == '%' && i + 2 < |r| && IsHexDigit(r[i + 1]) && IsHexDigit(r[i + 2]))
      {
        if i >= 3 {
          assert r[i] == EscapeAll(bs[1..])[i - 3];
          if r[i] == '%' {
            assert r[i + 1] == EscapeAll(bs[1..])[i - 2];
            assert r[i + 2] == EscapeAll(bs[1..])[i - 1];
          }
        } else if i > 0 {
          assert IsUriUnescaped(r[i]);
        }
      }
    }
  }

  lemma {:induction false} EncodeURIIsEncoded(s: string)
    ensures IsEncoded(EncodeURI(s))
    decreases |s|
  {
    if s != [] {
      EncodeURIIsEncoded(s[1..]);
      var e := EncodeChar(s[0]);
      var t := EncodeURI(s[1..]);
      var r := EncodeURI(s);
      if !IsUriUnescaped(s[0]) {
        EscapeAllIsEncoded(Utf8.Encode(s[0]));
      }
      assert r == e + t;
      forall i | 0 <= i < |r|
        ensures IsUriUnescaped(r[i]) || (r[i] == '%' && i + 2 < |r| && IsHexDigit(r[i + 1]) && IsHexDigit(r[i + 2]))
      {
        if i >= |e| {
          assert r[i] == t[i - |e|];
          if r[i] == '%' {
            assert r[i + 1] == t[i - |e| + 1];
            assert r[i + 2] == t[i - |e| + 2];
          }
        } else {
          assert r[i] == e[i];
          if r[i] == '%' {
            assert r[i + 1] == e[i + 1];
            assert r[i + 2] == e[i + 2];
          }
        }
      }
    }
  }

  /** Text made only of unescaped characters passes through `encodeURI` untouched. */
  lemma {:induction false} EncodeURIIdentity(s: string)
    requires forall i | 0 <= i < |s| :: IsUriUnescaped(s[i])
    ensures EncodeURI(s) == s
    decreases |s|
  {
    if s != [] {
      EncodeURIIdentity(s[1..]);
      assert [s[0]] + s[1..] == s;
    }
  }
}

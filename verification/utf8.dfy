/** UTF-8, as section 3 of RFC 3629 defines it: the octets the URI functions of ECMA-262
    percent-encode and percent-decode. A Dafny `char` is a Unicode scalar value, so every
    character has exactly one encoding. */
module Utf8 {

  import opened Wrappers

  type Byte = x: int | 0 <= x < 256

  /** The number of leading one bits of an octet; it tells a lead octet how long its sequence is. */
  function LeadingOnes(b: Byte): (n: nat)
    ensures n <= 8
    ensures n == 0 <==> b < 0x80
  {
    if b < 0x80 then 0
    else if b < 0xC0 then 1
    else if b < 0xE0 then 2
    else if b < 0xF0 then 3
    else if b < 0xF8 then 4
    else if b < 0xFC then 5
    else if b < 0xFE then 6
    else if b < 0xFF then 7
    else 8
  }

  predicate IsContinuation(b: Byte) { 0x80 <= b < 0xC0 }

  /** The UTF-8 octets of one code point. */
  function Encode(c: char): (bs: seq<Byte>)
    ensures 1 <= |bs| <= 4
    ensures |bs| == 1 <==> c as int < 0x80
    ensures |bs| == 1 ==> bs[0] == c as int
    ensures |bs| > 1 ==> LeadingOnes(bs[0]) == |bs|
    ensures forall i :: 1 <= i < |bs| ==> IsContinuation(bs[i])
  {
    var v := c as int;
    if v < 0x80 then [v]
    else if v < 0x800 then [0xC0 + v / 64, 0x80 + v % 64]
    else if v < 0x10000 then [0xE0 + v / 4096, 0x80 + (v / 64) % 64, 0x80 + v % 64]
    else [0xF0 + v / 262144, 0x80 + (v / 4096) % 64, 0x80 + (v / 64) % 64, 0x80 + v % 64]
  }

  /** The bits a sequence of two to four octets carries: the payload of the lead octet followed
      by six bits from each continuation octet. */
  function Value(bs: seq<Byte>): int
    requires 2 <= |bs| <= 4
  {
    if |bs| == 2 then (bs[0] as int - 0xC0) * 64 + (bs[1] as int - 0x80)
    else if |bs| == 3 then (bs[0] as int - 0xE0) * 4096 + (bs[1] as int - 0x80) * 64 + (bs[2] as int - 0x80)
    else (bs[0] as int - 0xF0) * 262144 + (bs[1] as int - 0x80) * 4096 + (bs[2] as int - 0x80) * 64 + (bs[3] as int - 0x80)
  }

  /** The smallest code point that needs `n` octets; anything smaller is an over-long form. */
  function Least(n: nat): int {
    if n == 2 then 0x80 else if n == 3 then 0x800 else 0x10000
  }

  predicate ContinuationsOk(bs: seq<Byte>) {
    forall i | 1 <= i < |bs| :: IsContinuation(bs[i])
  }

  /** The code point a sequence of two to four octets carries, or `None` when the octets are not
      a valid UTF-8 encoding of one code point: a wrong length for the lead octet, a bad
      continuation octet, an over-long form, a surrogate or a value above U+10FFFF. */
  function Decode(bs: seq<Byte>): (r: Option<char>)
  {
    if |bs| < 2 || |bs| > 4 || LeadingOnes(bs[0]) != |bs| || !ContinuationsOk(bs) then None
    else
      var v := Value(bs);
      if v < Least(|bs|) || (0xD800 <= v < 0xE000) || v >= 0x110000 then None
      else Some(v as char)
  }

  lemma ValueOfEncode(c: char)
    requires c as int >= 0x80
    ensures Value(Encode(c)) == c as int
  {
    var v := c as int;
    if v < 0x800 {
    } else if v < 0x10000 {
      Digits3(v);
    } else {
      Digits4(v);
    }
  }

  /** A number below 2^16 is its three base-64 digits. */
  lemma Digits3(v: nat)
    ensures v == (v / 4096) * 4096 + ((v / 64) % 64) * 64 + v % 64
  {
    var q := v / 64;
    assert v == q * 64 + v % 64;
    assert q == (q / 64) * 64 + q % 64;
    assert v / 4096 == q / 64;
  }

  /** A number below 2^21 is its four base-64 digits. */
  lemma Digits4(v: nat)
    ensures v == (v / 262144) * 262144 + ((v / 4096) % 64) * 4096 + ((v / 64) % 64) * 64 + v % 64
  {
    var q := v / 64;
    Digits3(q);
    assert v == q * 64 + v % 64;
    assert q / 4096 == v / 262144;
    assert q / 64 == v / 4096;
  }

  /** Decoding undoes encoding for every character outside ASCII. */
  lemma DecodeEncode(c: char)
    requires c as int >= 0x80
    ensures Decode(Encode(c)) == Some(c)
  {
    ValueOfEncode(c);
  }

  lemma Encode2(v: int, b0: int, b1: int)
    requires 0xC0 <= b0 < 0xE0 && 0x80 <= b1 < 0xC0
    requires v == (b0 - 0xC0) * 64 + (b1 - 0x80)
    ensures v / 64 == b0 - 0xC0 && v % 64 == b1 - 0x80
  {
  }

  lemma Encode3(v: int, b0: int, b1: int, b2: int)
    requires 0xE0 <= b0 < 0xF0 && 0x80 <= b1 < 0xC0 && 0x80 <= b2 < 0xC0
    requires v == (b0 - 0xE0) * 4096 + (b1 - 0x80) * 64 + (b2 - 0x80)
    ensures v / 4096 == b0 - 0xE0 && (v / 64) % 64 == b1 - 0x80 && v % 64 == b2 - 0x80
  {
    var w := (b0 - 0xE0) * 64 + (b1 - 0x80);
    assert v == w * 64 + (b2 - 0x80);
    Encode2(w, b0 - 0xE0 + 0xC0, b1);
  }

  lemma Encode4(v: int, b0: int, b1: int, b2: int, b3: int)
    requires 0xF0 <= b0 < 0xF8 && 0x80 <= b1 < 0xC0 && 0x80 <= b2 < 0xC0 && 0x80 <= b3 < 0xC0
    requires v == (b0 - 0xF0) * 262144 + (b1 - 0x80) * 4096 + (b2 - 0x80) * 64 + (b3 - 0x80)
    ensures v / 262144 == b0 - 0xF0 && (v / 4096) % 64 == b1 - 0x80
    ensures (v / 64) % 64 == b2 - 0x80 && v % 64 == b3 - 0x80
  {
    var w := (b0 - 0xF0) * 4096 + (b1 - 0x80) * 64 + (b2 - 0x80);
    assert v == w * 64 + (b3 - 0x80);
    Encode3(w, b0 - 0xF0 + 0xE0, b1, b2);
    assert v / 64 == w;
    assert v / 4096 == w / 64;
    assert v / 262144 == w / 4096;
  }

  /** ... and it accepts nothing else: the only octets that decode to `c` are `c`'s encoding. */
  lemma EncodeDecode(bs: seq<Byte>, c: char)
    requires Decode(bs) == Some(c)
    ensures Encode(c) == bs
  {
    var v := c as int;
    assert IsContinuation(bs[1]);
    if |bs| == 2 {
      Encode2(v, bs[0], bs[1]);
    } else if |bs| == 3 {
      assert IsContinuation(bs[2]);
      Encode3(v, bs[0], bs[1], bs[2]);
    } else {
      assert IsContinuation(bs[2]) && IsContinuation(bs[3]);
      Encode4(v, bs[0], bs[1], bs[2], bs[3]);
    }
  }
}

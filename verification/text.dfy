/** String helpers with the semantics of the ECMAScript built-ins the plugin calls:
    `String.prototype.trim`, `startsWith`, `includes` and the ASCII part of `toLowerCase`. */
module Text {

  import opened Wrappers

  /** ECMAScript WhiteSpace and LineTerminator code points: the set `trim` strips and the
      regular-expression class `\s` matches. */
  predicate IsJsSpace(c: char) {
    var v := c as int;
    || v == 0x09 || v == 0x0B || v == 0x0C || v == 0x20 || v == 0xA0 || v == 0xFEFF
    || v == 0x1680 || (0x2000 <= v <= 0x200A) || v == 0x202F || v == 0x205F || v == 0x3000
    || IsLineTerminator(c)
  }

  /** The code points the regular-expression `.` refuses to match (no `s` flag). */
  predicate IsLineTerminator(c: char) {
    c == '\n' || c == '\r' || c == '\U{2028}' || c == '\U{2029}'
  }

  predicate AllSpace(s: string) {
    forall i :: 0 <= i < |s| ==> IsJsSpace(s[i])
  }

  /** Drops the leading white space. */
  function TrimStart(s: string): (r: string)
    ensures |r| <= |s| && r == s[|s| - |r|..]
    ensures AllSpace(s[..|s| - |r|])
    ensures r == [] || !IsJsSpace(r[0])
  {
    if |s| > 0 && IsJsSpace(s[0]) then
      var r := TrimStart(s[1..]);
      assert s[1..][..|s[1..]| - |r|] == s[1..|s| - |r|];
      r
    else s
  }

  /** Drops the trailing white space. */
  function TrimEnd(s: string): (r: string)
    ensures |r| <= |s| && r == s[..|r|]
    ensures AllSpace(s[|r|..])
    ensures r == [] || !IsJsSpace(r[|r| - 1])
  {
    if |s| > 0 && IsJsSpace(s[|s| - 1]) then
      var r := TrimEnd(s[..|s| - 1]);
      assert s[..|s| - 1][|r|..] == s[|r|..|s| - 1];
      assert s[|r|..] == s[|r|..|s| - 1] + [s[|s| - 1]];
      r
    else s
  }

  /** `String.prototype.trim`: the longest infix with no white space at either end. */
  function Trim(s: string): (r: string)
    ensures exists i, j :: 0 <= i <= j <= |s| && r == s[i..j] && AllSpace(s[..i]) && AllSpace(s[j..])
    ensures r == [] || (!IsJsSpace(r[0]) && !IsJsSpace(r[|r| - 1]))
  {
    TrimInfix(s);
    TrimEnds(s);
    TrimEnd(TrimStart(s))
  }

  /** The two trims cut a white-space prefix and a white-space suffix. */
  lemma TrimInfix(s: string)
    ensures var r := TrimEnd(TrimStart(s));
      exists i, j :: 0 <= i <= j <= |s| && r == s[i..j] && AllSpace(s[..i]) && AllSpace(s[j..])
  {
    var t := TrimStart(s);
    var r := TrimEnd(t);
    var i := |s| - |t|;
    TrimWitness(s, t, r, i);
    assert 0 <= i <= i + |r| <= |s| && r == s[i..i + |r|] && AllSpace(s[..i]) && AllSpace(s[i + |r|..]);
  }

  /** What is left neither starts nor ends with white space. */
  lemma TrimEnds(s: string)
    ensures var r := TrimEnd(TrimStart(s));
      r == [] || (!IsJsSpace(r[0]) && !IsJsSpace(r[|r| - 1]))
  {
    var t := TrimStart(s);
    var r := TrimEnd(t);
    if r != [] {
      assert r[0] == t[0];
    }
  }

  lemma TrimWitness(s: string, t: string, r: string, i: nat)
    requires i <= |s| && t == s[i..] && AllSpace(s[..i])
    requires |r| <= |t| && r == t[..|r|] && AllSpace(t[|r|..])
    ensures i + |r| <= |s| && r == s[i..i + |r|] && AllSpace(s[i + |r|..])
  {
    assert s[i + |r|..] == t[|r|..];
  }

  /** `trim` applied to its own result changes nothing. */
  lemma TrimIdempotent(s: string)
    ensures Trim(Trim(s)) == Trim(s)
  {
    var r := Trim(s);
    assert TrimStart(r) == r;
    assert TrimEnd(r) == r;
  }

  /** A string with no white space at either end is its own trim. */
  lemma TrimOfTrimmed(s: string)
    requires s == [] || (!IsJsSpace(s[0]) && !IsJsSpace(s[|s| - 1]))
    ensures Trim(s) == s
  {
    assert TrimStart(s) == s;
    assert TrimEnd(s) == s;
  }

  /** A string made only of white space trims to the empty string, and only such a string does. */
  lemma TrimEmptyIff(s: string)
    ensures Trim(s) == [] <==> AllSpace(s)
  {
    if AllSpace(s) {
      var i, j :| 0 <= i <= j <= |s| && Trim(s) == s[i..j] && AllSpace(s[..i]) && AllSpace(s[j..]);
      if i < j {
        assert s[i..j][0] == s[i];
      }
    } else {
      var k :| 0 <= k < |s| && !IsJsSpace(s[k]);
      var i, j :| 0 <= i <= j <= |s| && Trim(s) == s[i..j] && AllSpace(s[..i]) && AllSpace(s[j..]);
      if i == j {
        if k < i {
          assert s[..i][k] == s[k];
        } else {
          assert s[j..][k - j] == s[k];
        }
      }
    }
  }

  predicate StartsWith(s: string, prefix: string) {
    |prefix| <= |s| && s[..|prefix|] == prefix
  }

  /** `String.prototype.includes`. */
  predicate Contains(s: string, part: string) {
    exists i | 0 <= i <= |s| :: OccursAt(s, part, i)
  }

  predicate OccursAt(s: string, part: string, i: int) {
    0 <= i <= |s| - |part| && s[i..i + |part|] == part
  }

  lemma ContainsPrefix(s: string, t: string, part: string)
    requires Contains(s, part)
    ensures Contains(s + t, part)
  {
    var i :| 0 <= i <= |s| && OccursAt(s, part, i);
    assert (s + t)[i..i + |part|] == s[i..i + |part|];
    assert OccursAt(s + t, part, i);
  }

  lemma ContainsSuffix(s: string, t: string, part: string)
    requires Contains(t, part)
    ensures Contains(s + t, part)
  {
    var i :| 0 <= i <= |t| && OccursAt(t, part, i);
    assert (s + t)[|s| + i..|s| + i + |part|] == t[i..i + |part|];
    assert OccursAt(s + t, part, |s| + i);
  }

  /** The index of the first `ch`, or the length when there is none. */
  function FirstIndex(t: string, ch: char): (j: nat)
    ensures j <= |t|
    ensures j < |t| ==> t[j] == ch
    ensures forall k | 0 <= k < j :: t[k] != ch
  {
    if t == [] || t[0] == ch then 0 else 1 + FirstIndex(t[1..], ch)
  }

  /** Text free of `ch` shifts the first `ch` by its length. */
  lemma {:induction false} FirstIndexAfter(c: string, ch: char, rest: string)
    requires ch !in c
    ensures FirstIndex(c + rest, ch) == |c| + FirstIndex(rest, ch)
    decreases |c|
  {
    if c != [] {
      assert c[0] in c;
      assert (c + rest)[1..] == c[1..] + rest;
      FirstIndexAfter(c[1..], ch, rest);
    } else {
      assert c + rest == rest;
    }
  }

  /** An index holding `ch` with no `ch` before it is the first index of `ch`. */
  lemma FirstIndexAt(t: string, ch: char, k: nat)
    requires k < |t| && t[k] == ch && ch !in t[..k]
    ensures FirstIndex(t, ch) == k
  {
    var j := FirstIndex(t, ch);
    assert forall i | 0 <= i < k :: t[i] == t[..k][i];
  }

  predicate IsAsciiUpper(c: char) { 'A' <= c <= 'Z' }

  /** `toLowerCase` restricted to ASCII letters; every other character is kept. */
  function AsciiLower(s: string): (r: string)
    ensures |r| == |s|
    ensures forall i :: 0 <= i < |s| ==> r[i] == (if IsAsciiUpper(s[i]) then (s[i] as int + 32) as char else s[i])
  {
    if s == [] then []
    else [if IsAsciiUpper(s[0]) then (s[0] as int + 32) as char else s[0]] + AsciiLower(s[1..])
  }

  /** Lower-casing lower-cased text changes nothing. */
  lemma AsciiLowerIdempotent(s: string)
    ensures AsciiLower(AsciiLower(s)) == AsciiLower(s)
  {
    var r := AsciiLower(s);
    assert forall i | 0 <= i < |r| :: !IsAsciiUpper(r[i]);
  }

  /** Text without upper-case ASCII letters is its own lower case. */
  lemma AsciiLowerOfLower(s: string)
    requires forall i | 0 <= i < |s| :: !IsAsciiUpper(s[i])
    ensures AsciiLower(s) == s
  {
  }
}

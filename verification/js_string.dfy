/**
 * The JavaScript string operations the chat widget relies on: `toLowerCase`,
 * `includes`, `startsWith`, `trim` and `split` on a single character.
 * Strings are sequences of characters; where a JavaScript string's length and indices
 * matter, it is the sequence of UTF-16 code units those characters encode to.
 */
module JsString {

  /** The characters `String.prototype.trim` removes: ECMAScript WhiteSpace and LineTerminator. */
  predicate IsSpace(c: char) {
    || c == '\t' || c == '\n' || c == '\U{000B}' || c == '\U{000C}' || c == '\r' || c == ' '
    || c == '\U{00A0}' || c == '\U{1680}' || ('\U{2000}' <= c <= '\U{200A}')
    || c == '\U{2028}' || c == '\U{2029}' || c == '\U{202F}' || c == '\U{205F}'
    || c == '\U{3000}' || c == '\U{FEFF}'
  }

  predicate AllSpace(s: string) {
    forall k :: 0 <= k < |s| ==> IsSpace(s[k])
  }

  /** The upper-case ASCII letters are the only characters `LowerChar` changes. */
  function LowerChar(c: char): char {
    if 'A' <= c <= 'Z' then (c as int + 32) as char else c
  }

  /** `s.toLowerCase()`, restricted to ASCII letters: it maps each character on its own. */
  function ToLower(s: string): (r: string)
    ensures |r| == |s|
    ensures forall k :: 0 <= k < |s| ==> r[k] == LowerChar(s[k])
    decreases |s|
  {
    if s == [] then [] else [LowerChar(s[0])] + ToLower(s[1..])
  }

  lemma ToLowerIdempotent(s: string)
    ensures ToLower(ToLower(s)) == ToLower(s)
  {
  }

  /** Lower-casing works piece by piece. */
  lemma ToLowerAppend(a: string, b: string)
    ensures ToLower(a + b) == ToLower(a) + ToLower(b)
  {
  }

  /** Text without upper-case ASCII letters is already in lower case. */
  lemma ToLowerFixed(s: string)
    requires forall c :: c in s ==> !('A' <= c <= 'Z')
    ensures ToLower(s) == s
  {
    assert forall k :: 0 <= k < |s| ==> s[k] in s;
  }

  /** `s.startsWith(p)` */
  predicate StartsWith(s: string, p: string) {
    |p| <= |s| && s[..|p|] == p
  }

  /** `sub` occurs in `s` starting at index `i`. */
  predicate OccursAt(s: string, sub: string, i: int) {
    0 <= i && i + |sub| <= |s| && s[i..i + |sub|] == sub
  }

  /** `s.includes(sub)`, scanning the start positions from left to right. */
  predicate Contains(s: string, sub: string)
    decreases |s|
  {
    StartsWith(s, sub) || (s != [] && Contains(s[1..], sub))
  }

  /** The scan agrees with the positional definition of an occurrence. */
  lemma {:induction false} ContainsIff(s: string, sub: string)
    ensures Contains(s, sub) <==> exists i :: OccursAt(s, sub, i)
    decreases |s|
  {
    if StartsWith(s, sub) {
      assert OccursAt(s, sub, 0);
    } else if s == [] {
      assert forall i :: !OccursAt(s, sub, i);
    } else {
      ContainsIff(s[1..], sub);
      if Contains(s[1..], sub) {
        var i :| OccursAt(s[1..], sub, i);
        assert s[1..][i..i + |sub|] == s[i + 1..i + 1 + |sub|];
        assert OccursAt(s, sub, i + 1);
      } else {
        forall i | OccursAt(s, sub, i)
          ensures false
        {
          assert i != 0;
          assert s[1..][i - 1..i - 1 + |sub|] == s[i..i + |sub|];
          assert OccursAt(s[1..], sub, i - 1);
        }
      }
    }
  }

  /** An occurrence in a part is an occurrence in the whole. */
  lemma ContainsInfix(a: string, b: string, c: string, sub: string)
    requires Contains(b, sub)
    ensures Contains(a + b + c, sub)
  {
    ContainsIff(b, sub);
    var i :| OccursAt(b, sub, i);
    assert (a + b + c)[|a| + i..|a| + i + |sub|] == b[i..i + |sub|];
    assert OccursAt(a + b + c, sub, |a| + i);
    ContainsIff(a + b + c, sub);
  }

  /** `s.indexOf(c, from)`, with `-1` as `|s|`: the first position at or after `from` holding `c`. */
  function IndexOf(s: string, c: char, from: nat): (i: nat)
    ensures from <= i <= |s| || (i == |s| && from > |s|)
    ensures i < |s| ==> s[i] == c
    ensures forall k :: from <= k < i ==> s[k] != c
    decreases |s| - from
  {
    if from >= |s| then |s|
    else if s[from] == c then from
    else IndexOf(s, c, from + 1)
  }

  /** A text starts with a non-empty prefix only if their first characters agree. */
  lemma PrefixHead(s: string, p: string)
    ensures p != [] && StartsWith(s, p) ==> s[0] == p[0]
  {
    if p != [] && StartsWith(s, p) {
      assert s[..|p|][0] == s[0];
    }
  }

  /** A text contains each of its pieces. */
  lemma ContainsPiece(a: string, sub: string, c: string)
    ensures Contains(a + sub + c, sub)
  {
    assert (a + sub + c)[|a|..|a| + |sub|] == sub;
    assert OccursAt(a + sub + c, sub, |a|);
    ContainsIff(a + sub + c, sub);
  }

  /** A keyword longer than the text does not occur in it. */
  lemma NotContainsLonger(s: string, k: string)
    requires |k| > |s|
    ensures !Contains(s, k)
  {
    ContainsIff(s, k);
  }

  /** A keyword with a character the text lacks does not occur in it. */
  lemma {:induction false} NotContainsMissingChar(s: string, k: string, c: char)
    requires c in k && c !in s
    ensures !Contains(s, k)
  {
    ContainsIff(s, k);
    var j :| 0 <= j < |k| && k[j] == c;
    forall i | 0 <= i && i + |k| <= |s|
      ensures !OccursAt(s, k, i)
    {
      assert s[i + j] in s;
      assert s[i..i + |k|][j] == s[i + j];
    }
  }

  /** An occurrence in `a + [sep] + b` lies inside `a`, inside `b`, or covers the separator. */
  lemma {:induction false} ContainsAcrossSeparator(a: string, sep: char, b: string, k: string)
    ensures Contains(a + [sep] + b, k) ==> Contains(a, k) || Contains(b, k) || sep in k
  {
    var s := a + [sep] + b;
    ContainsIff(s, k);
    ContainsIff(a, k);
    ContainsIff(b, k);
    forall i | OccursAt(s, k, i)
      ensures OccursAt(a, k, i) || OccursAt(b, k, i - |a| - 1) || sep in k
    {
      if i + |k| <= |a| {
        assert s[i..i + |k|] == a[i..i + |k|];
      } else if i > |a| {
        assert s[i..i + |k|] == b[i - |a| - 1..i - |a| - 1 + |k|];
      } else {
        assert k[|a| - i] == s[i..i + |k|][|a| - i] == sep;
      }
    }
  }

  /** The number of leading characters of `s` that `trim` removes. */
  function LeadingSpace(s: string): (n: nat)
    ensures n <= |s|
    ensures AllSpace(s[..n])
    ensures n == |s| || !IsSpace(s[n])
    decreases |s|
  {
    if s != [] && IsSpace(s[0]) then 1 + LeadingSpace(s[1..]) else 0
  }

  /** The number of trailing characters of `s` that `trim` removes. */
  function TrailingSpace(s: string): (n: nat)
    ensures n <= |s|
    ensures AllSpace(s[|s| - n..])
    ensures n == |s| || !IsSpace(s[|s| - n - 1])
    decreases |s|
  {
    if s != [] && IsSpace(s[|s| - 1]) then 1 + TrailingSpace(s[..|s| - 1]) else 0
  }

  /** `s.trim()` */
  function Trim(s: string): (r: string)
    ensures |r| <= |s|
    ensures r == [] || (!IsSpace(r[0]) && !IsSpace(r[|r| - 1]))
    ensures exists i :: TrimmedAt(s, r, i)
  {
    var a := LeadingSpace(s);
    var rest := s[a..];
    var b := TrailingSpace(rest);
    var r := rest[..|rest| - b];
    assert s[a..a + |r|] == r;
    assert s[..a] == s[..a];
    assert s[a + |r|..] == rest[|rest| - b..];
    assert r != [] ==> r[0] == rest[0] && r[|r| - 1] == rest[|rest| - b - 1];
    assert TrimmedAt(s, r, a);
    r
  }

  /** `r` is `s` with only white space removed before index `i` and after `r`. */
  predicate TrimmedAt(s: string, r: string, i: int) {
    0 <= i <= |s| - |r| && s[i..i + |r|] == r && AllSpace(s[..i]) && AllSpace(s[i + |r|..])
  }

  /** An input is blank, i.e. `!s.trim()`, exactly when every character is white space. */
  lemma TrimEmptyIff(s: string)
    ensures Trim(s) == [] <==> AllSpace(s)
  {
    var r := Trim(s);
    var i :| TrimmedAt(s, r, i);
    if r == [] {
      AllSpaceJoin(s, i);
    } else {
      assert s[i..i + |r|][0] == s[i];
    }
  }

  /** White space on both sides of a cut makes white space throughout. */
  lemma AllSpaceJoin(s: string, i: nat)
    requires i <= |s| && AllSpace(s[..i]) && AllSpace(s[i..])
    ensures AllSpace(s)
  {
    forall k | 0 <= k < |s|
      ensures IsSpace(s[k])
    {
      if k < i {
        assert s[k] == s[..i][k];
      } else {
        assert s[k] == s[i..][k - i];
      }
    }
  }

  /** Trimming text that neither starts nor ends with white space changes nothing. */
  lemma TrimUnpadded(s: string)
    requires s == [] || (!IsSpace(s[0]) && !IsSpace(s[|s| - 1]))
    ensures Trim(s) == s
  {
  }

  /** `s.split(sep)` for a one-character separator. */
  function Split(s: string, sep: char): (parts: seq<string>)
    ensures |parts| >= 1
    ensures forall k :: 0 <= k < |parts| ==> sep !in parts[k]
    decreases |s|
  {
    if s == [] then [[]]
    else if s[0] == sep then [[]] + Split(s[1..], sep)
    else
      var rest := Split(s[1..], sep);
      [[s[0]] + rest[0]] + rest[1..]
  }

  /** `parts.join(sep)` */
  function Join(parts: seq<string>, sep: char): string
    requires |parts| >= 1
    decreases |parts|
  {
    if |parts| == 1 then parts[0] else parts[0] + [sep] + Join(parts[1..], sep)
  }

  /** Splitting loses nothing: joining the parts with the separator restores the text. */
  lemma {:induction false} JoinSplit(s: string, sep: char)
    ensures Join(Split(s, sep), sep) == s
    decreases |s|
  {
    if s == [] {
    } else if s[0] == sep {
      JoinSplit(s[1..], sep);
      assert s == [sep] + s[1..];
    } else {
      JoinSplit(s[1..], sep);
      var rest := Split(s[1..], sep);
      if |rest| == 1 {
      } else {
        assert Join(rest, sep) == rest[0] + [sep] + Join(rest[1..], sep);
        assert s == [s[0]] + s[1..];
      }
    }
  }

  // ----- UTF-16 code units -----

  /** One element of a JavaScript string: `length` counts these and `s[i]` reads one. */
  newtype CodeUnit = x: int | 0 <= x < 0x1_0000

  predicate IsHighSurrogate(u: CodeUnit) {
    0xD800 <= u < 0xDC00
  }

  predicate IsLowSurrogate(u: CodeUnit) {
    0xDC00 <= u < 0xE000
  }

  /** A character in UTF-16: one unit below U+10000, otherwise a high and a low surrogate. */
  function CharUnits(c: char): (r: seq<CodeUnit>)
    ensures |r| == 1 <==> c as int < 0x1_0000
    ensures |r| == 1 || |r| == 2
    ensures |r| == 1 ==> !IsHighSurrogate(r[0]) && !IsLowSurrogate(r[0])
    ensures |r| == 2 ==> IsHighSurrogate(r[0]) && IsLowSurrogate(r[1])
  {
    if c as int < 0x1_0000 then [c as int as CodeUnit]
    else
      var v := c as int - 0x1_0000;
      [(0xD800 + v / 0x400) as CodeUnit, (0xDC00 + v % 0x400) as CodeUnit]
  }

  /** The code units of a string, as JavaScript stores it. */
  function Utf16(s: string): (r: seq<CodeUnit>)
    ensures |r| >= |s|
    decreases |s|
  {
    if s == [] then [] else CharUnits(s[0]) + Utf16(s[1..])
  }

  /** The character a surrogate pair stands for. */
  function PairChar(hi: CodeUnit, lo: CodeUnit): char
    requires IsHighSurrogate(hi) && IsLowSurrogate(lo)
  {
    var h, l := hi as int - 0xD800, lo as int - 0xDC00;
    assert h * 0x400 <= 0x3FF * 0x400;
    (0x1_0000 + h * 0x400 + l) as char
  }

  /** The text code units show as: pairs are joined, and a surrogate without its partner
      shows as U+FFFD, the replacement character. */
  function FromUtf16(u: seq<CodeUnit>): string
    decreases |u|
  {
    if u == [] then []
    else if |u| >= 2 && IsHighSurrogate(u[0]) && IsLowSurrogate(u[1]) then
      [PairChar(u[0], u[1])] + FromUtf16(u[2..])
    else if IsHighSurrogate(u[0]) || IsLowSurrogate(u[0]) then
      ['\U{FFFD}'] + FromUtf16(u[1..])
    else [u[0] as int as char] + FromUtf16(u[1..])
  }

  lemma PairCharUnits(c: char)
    requires c as int >= 0x1_0000
    ensures PairChar(CharUnits(c)[0], CharUnits(c)[1]) == c
  {
    var v := c as int - 0x1_0000;
    assert (v / 0x400) * 0x400 + v % 0x400 == v;
  }

  /** Decoding the code units of a string gives the string back. */
  lemma {:induction false} Utf16RoundTrip(s: string)
    ensures FromUtf16(Utf16(s)) == s
    decreases |s|
  {
    if s != [] {
      var u, rest := CharUnits(s[0]), Utf16(s[1..]);
      Utf16RoundTrip(s[1..]);
      if |u| == 1 {
        assert (u + rest)[1..] == rest;
      } else {
        PairCharUnits(s[0]);
        assert (u + rest)[2..] == rest;
      }
      assert s == [s[0]] + s[1..];
    }
  }

  /** The code units of a string never end in a high surrogate. */
  lemma {:induction false} Utf16EndsWhole(s: string)
    ensures Utf16(s) != [] ==> !IsHighSurrogate(Utf16(s)[|Utf16(s)| - 1])
    decreases |s|
  {
    if s != [] {
      Utf16EndsWhole(s[1..]);
      var u, rest := CharUnits(s[0]), Utf16(s[1..]);
      if rest != [] {
        assert (u + rest)[|u + rest| - 1] == rest[|rest| - 1];
      }
    }
  }
}

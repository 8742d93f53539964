/**
 * How a message is shown: `formatMessageWithLinks` turns the text into segments
 * (plain text, in-app links, web addresses, line breaks), and the typewriter
 * reveals a bot reply one UTF-16 code unit at a time. Rendering to the page is left
 * out; `Render` gives back the visible text of a segment list.
 */
module ChatMessage {
  import opened Wrappers
  import opened JsString
  import opened KnowledgeBase

  /** ECMAScript LineTerminator: the characters `.` in a regular expression does not match. */
  predicate IsLineTerminator(c: char) {
    c == '\n' || c == '\r' || c == '\U{2028}' || c == '\U{2029}'
  }

  const OpenTag: string := "<Link"
  const CloseTag: string := "</Link>"

  // ----- the pattern /<Link.*?<\/Link>/ -----

  /** The end of the lazy `.*?<\/Link>` started at `j`: just past the first `</Link>` at or
      after `j`, unless a line terminator comes first. */
  function LinkCloseFrom(s: string, j: nat): (e: Option<nat>)
    ensures e.Some? ==> j + |CloseTag| <= e.value <= |s|
    decreases |s| - j
  {
    if j >= |s| then None
    else if s[j] == '<' && StartsWith(s[j..], CloseTag) then Some(j + |CloseTag|)
    else if IsLineTerminator(s[j]) then None
    else LinkCloseFrom(s, j + 1)
  }

  /** The closing tag at `j`, read either way. */
  lemma CloseTagAt(s: string, j: nat)
    requires j < |s|
    ensures OccursAt(s, CloseTag, j) <==> s[j] == '<' && StartsWith(s[j..], CloseTag)
  {
    if j + |CloseTag| <= |s| {
      assert s[j..][..|CloseTag|] == s[j..j + |CloseTag|];
    }
  }

  /** The lazy pattern stops at the first `</Link>`, crossing no line terminator on the way. */
  lemma {:induction false} LinkCloseFound(s: string, j: nat)
    ensures var e := LinkCloseFrom(s, j);
      e.Some? ==> (OccursAt(s, CloseTag, e.value - |CloseTag|)
        && forall k :: j <= k < e.value - |CloseTag| ==> !IsLineTerminator(s[k]) && !OccursAt(s, CloseTag, k))
    decreases |s| - j
  {
    if j < |s| {
      CloseTagAt(s, j);
      if !(s[j] == '<' && StartsWith(s[j..], CloseTag)) && !IsLineTerminator(s[j]) {
        LinkCloseFound(s, j + 1);
      }
    }
  }

  /** The lazy pattern fails only when a line terminator or the end of the text comes
      before any `</Link>`. */
  lemma {:induction false} LinkCloseMissing(s: string, j: nat)
    ensures LinkCloseFrom(s, j).None? ==>
      forall k :: j <= k < |s| && OccursAt(s, CloseTag, k) ==> exists t :: j <= t < k && IsLineTerminator(s[t])
    decreases |s| - j
  {
    if j < |s| {
      CloseTagAt(s, j);
      if !(s[j] == '<' && StartsWith(s[j..], CloseTag)) && !IsLineTerminator(s[j]) {
        LinkCloseMissing(s, j + 1);
      }
    }
  }

  /** The end of a match of `<Link.*?<\/Link>` starting at `q`, if there is one. */
  function LinkMatchAt(s: string, q: nat): (e: Option<nat>)
    ensures e.Some? ==> q + |OpenTag| + |CloseTag| <= e.value <= |s|
    ensures e.Some? ==> StartsWith(s[q..], OpenTag) && s[q] == '<'
  {
    if q < |s| && s[q] == '<' && StartsWith(s[q..], OpenTag) then LinkCloseFrom(s, q + |OpenTag|) else None
  }

  /** Where a match of the link pattern lies in a text. */
  datatype Span = Span(start: nat, end: nat)

  /** The leftmost match of the link pattern at or after `q`. */
  function FirstLinkFrom(s: string, q: nat): (r: Option<Span>)
    requires q <= |s|
    ensures r.Some? ==> q <= r.value.start && r.value.start + 12 <= r.value.end <= |s|
    ensures r.Some? ==> LinkMatchAt(s, r.value.start) == Some(r.value.end)
    decreases |s| - q
  {
    if q == |s| then None
    else
      var m := LinkMatchAt(s, q);
      if m.Some? then Some(Span(q, m.value)) else FirstLinkFrom(s, q + 1)
  }

  /** The match found is the leftmost one, and none is missed. */
  lemma {:induction false} FirstLinkLeftmost(s: string, q: nat)
    requires q <= |s|
    ensures var r := FirstLinkFrom(s, q);
      r.Some? ==> forall k :: q <= k < r.value.start ==> LinkMatchAt(s, k).None?
    ensures FirstLinkFrom(s, q).None? ==> forall k :: q <= k <= |s| ==> LinkMatchAt(s, k).None?
    decreases |s| - q
  {
    if q == |s| {
      assert !StartsWith(s[q..], OpenTag);
    } else if LinkMatchAt(s, q).None? {
      FirstLinkLeftmost(s, q + 1);
    }
  }

  /** The concatenation of `parts`. */
  function Concat(parts: seq<string>): string
    decreases |parts|
  {
    if parts == [] then [] else parts[0] + Concat(parts[1..])
  }

  lemma ConcatCons2(x: string, y: string, rest: seq<string>)
    ensures Concat([x, y] + rest) == x + y + Concat(rest)
  {
    assert ([x, y] + rest)[1..] == [y] + rest;
    assert ([y] + rest)[1..] == rest;
  }

  /** Text and matches alternate, starting and ending with text; every match starts with `<Link`. */
  predicate Alternating(parts: seq<string>) {
    && |parts| % 2 == 1
    && forall k :: 0 <= k < |parts| && k % 2 == 1 ==> StartsWith(parts[k], OpenTag) && |parts[k]| >= 12
  }

  /** `text.split(/(<Link.*?<\/Link>)/)`: the text between matches, with each match kept
      between them; empty pieces included. */
  function SplitLinks(s: string): (parts: seq<string>)
    ensures Alternating(parts)
    ensures Concat(parts) == s
    decreases |s|
  {
    var m := FirstLinkFrom(s, 0);
    if m.None? then
      assert [s][1..] == [];
      [s]
    else
      var a, b := m.value.start, m.value.end;
      var rest := SplitLinks(s[b..]);
      SplitStep(s, a, b, rest);
      [s[..a], s[a..b]] + rest
  }

  lemma SplitStep(s: string, a: nat, b: nat, rest: seq<string>)
    requires a + 12 <= b <= |s| && StartsWith(s[a..], OpenTag)
    requires Alternating(rest) && Concat(rest) == s[b..]
    ensures Alternating([s[..a], s[a..b]] + rest)
    ensures Concat([s[..a], s[a..b]] + rest) == s
  {
    ConcatCons2(s[..a], s[a..b], rest);
    assert s[..a] + s[a..b] + s[b..] == s;
    assert s[a..][..|OpenTag|] == s[a..b][..|OpenTag|];
    AlternatingCons2(s[..a], s[a..b], rest);
  }

  lemma AlternatingCons2(x: string, m: string, rest: seq<string>)
    requires StartsWith(m, OpenTag) && |m| >= 12 && Alternating(rest)
    ensures Alternating([x, m] + rest)
  {
    var parts := [x, m] + rest;
    forall k | 0 <= k < |parts| && k % 2 == 1
      ensures StartsWith(parts[k], OpenTag) && |parts[k]| >= 12
    {
      if k >= 2 {
        assert parts[k] == rest[k - 2];
      }
    }
  }

  // ----- the shape of the link split -----

  /** Where part `k` begins in the text the parts concatenate to. */
  function Offset(parts: seq<string>, k: nat): nat
    requires k <= |parts|
  {
    |Concat(parts[..k])|
  }

  /** The parts are as `split` cuts `s`: every odd part is one whole match of the link
      pattern, and no match in `s` starts inside an even part. */
  predicate SplitShape(s: string, parts: seq<string>) {
    && (forall k :: 0 <= k < |parts| && k % 2 == 1 ==> LinkMatchAt(parts[k], 0) == Some(|parts[k]|))
    && (forall k, q :: 0 <= k < |parts| && k % 2 == 0 && Offset(parts, k) <= q < Offset(parts, k) + |parts[k]|
          ==> LinkMatchAt(s, q).None?)
  }

  /** The lazy match ending at `e` ends there in any slice of `s` that holds it. */
  lemma {:induction false} LinkCloseSlice(s: string, lo: nat, j: nat, e: nat)
    requires lo <= j && LinkCloseFrom(s, j) == Some(e)
    ensures LinkCloseFrom(s[lo..e], j - lo) == Some(e - lo)
    decreases |s| - j
  {
    var t := s[lo..e];
    assert t[j - lo] == s[j];
    if s[j] == '<' && StartsWith(s[j..], CloseTag) {
      assert t[j - lo..][..|CloseTag|] == s[j..][..|CloseTag|];
    } else {
      LinkCloseSlice(s, lo, j + 1, e);
      if t[j - lo] == '<' && StartsWith(t[j - lo..], CloseTag) {
        assert false;
      }
    }
  }

  /** A lazy match within a prefix of `s` is the same match in `s`. */
  lemma {:induction false} LinkClosePrefix(s: string, n: nat, j: nat)
    requires n <= |s| && LinkCloseFrom(s[..n], j).Some?
    ensures LinkCloseFrom(s, j) == LinkCloseFrom(s[..n], j)
    decreases n - j
  {
    var t := s[..n];
    assert t[j] == s[j];
    if t[j] == '<' && StartsWith(t[j..], CloseTag) {
      assert t[j..][..|CloseTag|] == s[j..][..|CloseTag|];
    } else {
      LinkClosePrefix(s, n, j + 1);
      if s[j] == '<' && StartsWith(s[j..], CloseTag) {
        assert false;
      }
    }
  }

  /** A match of the link pattern within a prefix of `s` is one in `s`. */
  lemma LinkMatchPrefix(s: string, n: nat, q: nat)
    requires q <= n <= |s| && LinkMatchAt(s[..n], q).Some?
    ensures LinkMatchAt(s, q) == LinkMatchAt(s[..n], q)
  {
    assert s[..n][q..][..|OpenTag|] == s[q..][..|OpenTag|];
    LinkClosePrefix(s, n, q + |OpenTag|);
  }

  /** A match of the link pattern, cut out of its text, is one whole match. */
  lemma MatchPartWhole(s: string, a: nat, b: nat)
    requires a <= |s| && LinkMatchAt(s, a) == Some(b)
    ensures LinkMatchAt(s[a..b], 0) == Some(b - a)
  {
    assert s[a..b][..|OpenTag|] == s[a..][..|OpenTag|];
    LinkCloseSlice(s, a, a + |OpenTag|, b);
  }

  /** The lazy pattern reads only what follows its start: cutting text off the front
      shifts a match without changing it. */
  lemma {:induction false} LinkCloseSuffix(s: string, b: nat, j: nat)
    requires b <= |s|
    ensures LinkCloseFrom(s[b..], j).None? <==> LinkCloseFrom(s, b + j).None?
    ensures LinkCloseFrom(s[b..], j).Some? ==> LinkCloseFrom(s, b + j) == Some(LinkCloseFrom(s[b..], j).value + b)
    decreases |s| - b - j
  {
    if j < |s| - b {
      assert s[b..][j] == s[b + j];
      assert s[b..][j..] == s[b + j..];
      LinkCloseSuffix(s, b, j + 1);
    }
  }

  lemma LinkMatchSuffix(s: string, b: nat, q: nat)
    requires b <= |s|
    ensures LinkMatchAt(s[b..], q).None? <==> LinkMatchAt(s, b + q).None?
    ensures LinkMatchAt(s[b..], q).Some? ==> LinkMatchAt(s, b + q) == Some(LinkMatchAt(s[b..], q).value + b)
  {
    if q < |s| - b {
      assert s[b..][q] == s[b + q];
      assert s[b..][q..] == s[b + q..];
      LinkCloseSuffix(s, b, q + |OpenTag|);
    }
  }

  /** The offsets after two leading parts are those of the rest, moved by both. */
  lemma OffsetCons2(x: string, y: string, rest: seq<string>, k: nat)
    requires 2 <= k <= |rest| + 2
    ensures Offset([x, y] + rest, k) == |x| + |y| + Offset(rest, k - 2)
  {
    assert ([x, y] + rest)[..k] == [x, y] + rest[..k - 2];
    ConcatCons2(x, y, rest[..k - 2]);
  }

  /** A text part free of matches and a whole match, in front of the shape of the rest of
      the text, give the shape of the whole text. */
  lemma ShapeCons(s: string, a: nat, b: nat, rest: seq<string>)
    requires a <= b <= |s|
    requires forall q :: 0 <= q < a ==> LinkMatchAt(s, q).None?
    requires LinkMatchAt(s[a..b], 0) == Some(b - a) && SplitShape(s[b..], rest)
    ensures SplitShape(s, [s[..a], s[a..b]] + rest)
  {
    var parts := [s[..a], s[a..b]] + rest;
    forall k | 0 <= k < |parts| && k % 2 == 1
      ensures LinkMatchAt(parts[k], 0) == Some(|parts[k]|)
    {
      if k >= 2 {
        assert parts[k] == rest[k - 2];
      }
    }
    forall k, q | 0 <= k < |parts| && k % 2 == 0 && Offset(parts, k) <= q < Offset(parts, k) + |parts[k]|
      ensures LinkMatchAt(s, q).None?
    {
      if k == 0 {
        assert parts[..0] == [];
      } else {
        OffsetCons2(s[..a], s[a..b], rest, k);
        assert parts[k] == rest[k - 2];
        LinkMatchSuffix(s, b, q - b);
      }
    }
  }

  /** The shape of the whole text, less its first two parts, is the shape of the rest of
      the text. */
  lemma ShapeTail(s: string, x: string, y: string, rest: seq<string>)
    requires s == x + y + Concat(rest) && SplitShape(s, [x, y] + rest)
    ensures SplitShape(s[|x| + |y|..], rest)
  {
    var parts, b := [x, y] + rest, |x| + |y|;
    forall k | 0 <= k < |rest| && k % 2 == 1
      ensures LinkMatchAt(rest[k], 0) == Some(|rest[k]|)
    {
      assert rest[k] == parts[k + 2];
    }
    forall k, q | 0 <= k < |rest| && k % 2 == 0 && Offset(rest, k) <= q < Offset(rest, k) + |rest[k]|
      ensures LinkMatchAt(s[b..], q).None?
    {
      OffsetCons2(x, y, rest, k + 2);
      assert rest[k] == parts[k + 2];
      assert (k + 2) % 2 == 0;
      LinkMatchSuffix(s, b, q);
    }
  }

  /** A match at `a` with none before it, from `q` on, is the one `FirstLinkFrom` finds. */
  lemma {:induction false} FirstLinkIs(s: string, q: nat, a: nat)
    requires q <= a <= |s| && LinkMatchAt(s, a).Some?
    requires forall k :: q <= k < a ==> LinkMatchAt(s, k).None?
    ensures FirstLinkFrom(s, q) == Some(Span(a, LinkMatchAt(s, a).value))
    decreases a - q
  {
    if q < a {
      FirstLinkIs(s, q + 1, a);
    }
  }

  /** `split` cuts the text exactly at the matches: each odd part is a whole match, and no
      match starts inside a text part, so no link is missed or cut short. */
  lemma {:induction false} SplitLinksShape(s: string)
    ensures SplitShape(s, SplitLinks(s))
    decreases |s|
  {
    var m := FirstLinkFrom(s, 0);
    FirstLinkLeftmost(s, 0);
    if m.None? {
      assert SplitLinks(s) == [s];
      assert [s][..0] == [];
    } else {
      var a, b := m.value.start, m.value.end;
      SplitLinksShape(s[b..]);
      assert SplitLinks(s) == [s[..a], s[a..b]] + SplitLinks(s[b..]);
      MatchPartWhole(s, a, b);
      ShapeCons(s, a, b, SplitLinks(s[b..]));
    }
  }

  /** The shape determines the split: any alternation of text and matches that concatenates
      to `s` and is cut at the matches is the one `split` gives. */
  lemma {:induction false} SplitShapeUnique(s: string, parts: seq<string>)
    requires Alternating(parts) && Concat(parts) == s && SplitShape(s, parts)
    ensures parts == SplitLinks(s)
    decreases |parts|
  {
    if |parts| == 1 {
      UniqueSingle(s, parts);
    } else {
      var x, y, rest := parts[0], parts[1], parts[2..];
      assert parts == [x, y] + rest;
      ConcatCons2(x, y, rest);
      UniqueStep(s, x, y, rest);
      SplitShapeUnique(s[|x| + |y|..], rest);
    }
  }

  /** A single part free of matches is the text itself, which `split` leaves whole. */
  lemma UniqueSingle(s: string, parts: seq<string>)
    requires |parts| == 1 && Concat(parts) == s && SplitShape(s, parts)
    ensures parts == SplitLinks(s)
  {
    assert Concat(parts) == parts[0] + Concat(parts[1..]);
    assert parts[1..] == [] && parts[0] + [] == parts[0];
    assert parts == [parts[0]];
    assert Offset(parts, 0) == 0 by {
      assert parts[..0] == [];
    }
    var m := FirstLinkFrom(s, 0);
    if m.Some? {
      assert false;
    }
  }

  /** The first two parts of a split of this shape are the text before the leftmost match
      and that match, so `split` continues with the rest of the text. */
  lemma UniqueStep(s: string, x: string, y: string, rest: seq<string>)
    requires Alternating([x, y] + rest) && s == x + y + Concat(rest) && SplitShape(s, [x, y] + rest)
    ensures Alternating(rest) && Concat(rest) == s[|x| + |y|..] && SplitShape(s[|x| + |y|..], rest)
    ensures SplitLinks(s) == [x, y] + SplitLinks(s[|x| + |y|..])
  {
    var parts := [x, y] + rest;
    var a, b := |x|, |x| + |y|;
    assert s[..a] == x && s[a..b] == y && s[b..] == Concat(rest);
    assert parts[1] == y && parts[0] == x && parts[..0] == [];
    MatchInPlace(s, a, y);
    FirstLinkIs(s, 0, a);
    assert SplitLinks(s) == [s[..a], s[a..b]] + SplitLinks(s[b..]);
    AlternatingTail(x, y, rest);
    ShapeTail(s, x, y, rest);
  }

  /** A whole match, found where it lies in a longer text, is a match there. */
  lemma MatchInPlace(s: string, a: nat, y: string)
    requires a + |y| <= |s| && s[a..a + |y|] == y && LinkMatchAt(y, 0) == Some(|y|)
    ensures LinkMatchAt(s, a) == Some(a + |y|)
  {
    assert s[a..][..|y|] == y;
    LinkMatchPrefix(s[a..], |y|, 0);
    LinkMatchSuffix(s, a, 0);
  }

  lemma AlternatingTail(x: string, y: string, rest: seq<string>)
    requires Alternating([x, y] + rest)
    ensures Alternating(rest)
  {
    var parts := [x, y] + rest;
    forall k | 0 <= k < |rest| && k % 2 == 1
      ensures StartsWith(rest[k], OpenTag) && |rest[k]| >= 12
    {
      assert rest[k] == parts[k + 2];
    }
  }

  // ----- a link part -----

  /** The leftmost match of `/to='([^']*)'|to="([^"]*)"/` at or after `p`, as the target
      `match[1] || match[2]` yields: `None` for no match (`null`), `Some(None)` for an empty
      single-quoted target (`undefined`), `Some(Some(t))` otherwise. */
  function ToAttrFrom(s: string, p: nat): (r: Option<Option<string>>)
    ensures r == Some(Some([])) ==> exists k :: p <= k && OccursAt(s, "to=\"\"", k)
    decreases |s| - p
  {
    if p >= |s| then None
    else if s[p] != 't' then ToAttrFrom(s, p + 1)
    else if StartsWith(s[p..], "to='") && IndexOf(s, '\'', p + 4) < |s| then
      var target := s[p + 4..IndexOf(s, '\'', p + 4)];
      Some(if target == [] then None else Some(target))
    else if StartsWith(s[p..], "to=\"") && IndexOf(s, '"', p + 4) < |s| then
      var target := s[p + 4..IndexOf(s, '"', p + 4)];
      if target == [] then
        assert s[p..][..4] + ['"'] == s[p..p + 5];
        assert OccursAt(s, "to=\"\"", p);
        Some(Some(target))
      else Some(Some(target))
    else ToAttrFrom(s, p + 1)
  }

  /** A `to` attribute quoted with `q` at `k`: `to=`, the quote, a target `t` without that
      quote, and the quote again. */
  predicate QuotedAt(s: string, k: nat, q: char, t: string) {
    && k + 5 + |t| <= |s|
    && s[k..k + 4] == "to=" + [q]
    && s[k + 4..k + 4 + |t|] == t
    && (forall i :: 0 <= i < |t| ==> t[i] != q)
    && s[k + 4 + |t|] == q
  }

  /** No `to` attribute, in either quoting, starts at `k`. */
  ghost predicate NoAttrAt(s: string, k: nat) {
    forall t :: !QuotedAt(s, k, '\'', t) && !QuotedAt(s, k, '"', t)
  }

  /** What `match[1] || match[2]` gives for a target quoted with `q`: an empty single-quoted
      target is `undefined`, an empty double-quoted one is the empty string. */
  function AttrTarget(q: char, t: string): Option<string> {
    if q == '\'' && t == [] then None else Some(t)
  }

  /** A quoted attribute at `k`, as the scan sees it. */
  lemma QuotedAtIndex(s: string, k: nat, q: char, t: string)
    requires QuotedAt(s, k, q, t)
    ensures s[k] == 't' && StartsWith(s[k..], "to=" + [q])
    ensures IndexOf(s, q, k + 4) == k + 4 + |t| && s[k + 4..IndexOf(s, q, k + 4)] == t
  {
    assert s[k..][..4] == s[k..k + 4];
    assert s[k] == s[k..k + 4][0];
    forall i | k + 4 <= i < k + 4 + |t|
      ensures s[i] != q
    {
      assert s[i] == t[i - k - 4];
    }
  }

  /** At `p` the scan reads a target exactly when an attribute is quoted there. */
  lemma AttrHere(s: string, p: nat)
    requires p < |s|
    ensures NoAttrAt(s, p) ==> ToAttrFrom(s, p) == ToAttrFrom(s, p + 1)
    ensures !NoAttrAt(s, p) ==> ToAttrFrom(s, p).Some?
  {
    if NoAttrAt(s, p) {
      if s[p] == 't' && StartsWith(s[p..], "to='") && IndexOf(s, '\'', p + 4) < |s| {
        QuotedFromScan(s, p, '\'');
        assert false;
      }
      if s[p] == 't' && StartsWith(s[p..], "to=\"") && IndexOf(s, '"', p + 4) < |s| {
        QuotedFromScan(s, p, '"');
        assert false;
      }
    } else {
      var t :| QuotedAt(s, p, '\'', t) || QuotedAt(s, p, '"', t);
      if QuotedAt(s, p, '\'', t) {
        QuotedAtIndex(s, p, '\'', t);
        assert "to=" + ['\''] == "to='";
      } else {
        QuotedAtIndex(s, p, '"', t);
        assert "to=" + ['"'] == "to=\"";
      }
    }
  }

  /** A target the scan reads at `p` is quoted there. */
  lemma QuotedFromScan(s: string, p: nat, q: char)
    requires p < |s| && StartsWith(s[p..], "to=" + [q]) && IndexOf(s, q, p + 4) < |s|
    ensures QuotedAt(s, p, q, s[p + 4..IndexOf(s, q, p + 4)])
  {
    var e := IndexOf(s, q, p + 4);
    assert p + 4 <= e < |s|;
    assert s[p..p + 4] == s[p..][..4];
    NoQuoteBefore(s, q, p + 4, e);
  }

  /** The slice up to the first quote holds no quote. */
  lemma NoQuoteBefore(s: string, q: char, from: nat, e: nat)
    requires from <= e <= |s| && forall k :: from <= k < e ==> s[k] != q
    ensures forall i :: 0 <= i < |s[from..e]| ==> s[from..e][i] != q
  {
  }

  /** The target read is that of the leftmost `to` attribute, in either quoting. */
  lemma {:induction false} ToAttrLeftmost(s: string, p: nat, k: nat, q: char, t: string)
    requires (q == '\'' || q == '"') && p <= k && QuotedAt(s, k, q, t)
    requires forall j :: p <= j < k ==> NoAttrAt(s, j)
    ensures ToAttrFrom(s, p) == Some(AttrTarget(q, t))
    decreases k - p
  {
    if p == k {
      QuotedAtIndex(s, k, q, t);
      if q == '"' {
        assert s[k..][3] == '"';
        assert "to=" + ['"'] == "to=\"";
      } else {
        assert "to=" + ['\''] == "to='";
      }
    } else {
      assert NoAttrAt(s, p);
      AttrHere(s, p);
      ToAttrLeftmost(s, p + 1, k, q, t);
    }
  }

  /** No target is read exactly when no `to` attribute starts at or after `p`. */
  lemma {:induction false} ToAttrNone(s: string, p: nat)
    ensures ToAttrFrom(s, p).None? <==> forall j :: p <= j ==> NoAttrAt(s, j)
    decreases |s| - p
  {
    if p >= |s| {
      forall j | p <= j
        ensures NoAttrAt(s, j)
      {
      }
    } else {
      AttrHere(s, p);
      ToAttrNone(s, p + 1);
      if forall j :: p + 1 <= j ==> NoAttrAt(s, j) {
        if NoAttrAt(s, p) {
          forall j | p <= j
            ensures NoAttrAt(s, j)
          {
            if j > p {
              assert p + 1 <= j;
            }
          }
        }
      }
    }
  }

  /** `part.replace(/<Link[^>]*>|<\/Link>/g, '')`: every opening tag, up to the first `>`
      after it, and every closing tag removed, left to right. */
  function RemoveLinkTags(s: string): (r: string)
    ensures |r| <= |s|
    decreases |s|
  {
    if s == [] then []
    else if s[0] != '<' then [s[0]] + RemoveLinkTags(s[1..])
    else if StartsWith(s, OpenTag) && IndexOf(s, '>', |OpenTag|) < |s| then
      RemoveLinkTags(s[IndexOf(s, '>', |OpenTag|) + 1..])
    else if StartsWith(s, CloseTag) then RemoveLinkTags(s[|CloseTag|..])
    else [s[0]] + RemoveLinkTags(s[1..])
  }

  // ----- segments -----

  /** What the formatter produces: plain text, an in-app link (whose target may be
      undefined), a web address and the text shown for it, or a line break. */
  datatype Segment = Text(text: string) | Link(to: Option<string>, content: string) | Url(href: string, shown: string) | Break

  /** The text a reader sees of one segment. */
  function Shown(segment: Segment): string {
    match segment
    case Text(t) => t
    case Link(_, content) => content
    case Url(_, text) => text
    case Break => "\n"
  }

  /** The text a reader sees. */
  function Render(segments: seq<Segment>): string
    decreases |segments|
  {
    if segments == [] then [] else Shown(segments[0]) + Render(segments[1..])
  }

  lemma RenderAppend(a: seq<Segment>, b: seq<Segment>)
    ensures Render(a + b) == Render(a) + Render(b)
    decreases |a|
  {
    if a != [] {
      assert (a + b)[0] == a[0] && (a + b)[1..] == a[1..] + b;
      RenderAppend(a[1..], b);
    } else {
      assert a + b == b;
    }
  }

  /** The message thrown when `match` finds no `to` attribute and `null[1]` is read. */
  const MissingTarget: string := "TypeError: Cannot read properties of null (reading '1')"

  /** One part of the link split: a part starting with `<Link` becomes a link; any other
      part stays text. */
  function FormatLinkPart(part: string): (r: Result<Segment, string>)
    ensures !StartsWith(part, OpenTag) ==> r == Success(Text(part))
    ensures r.Success? && r.value.Link? ==> StartsWith(part, OpenTag) && r.value.content == RemoveLinkTags(part)
    ensures r.Failure? <==> StartsWith(part, OpenTag) && ToAttrFrom(part, 0).None?
    ensures r.Failure? ==> r.error == MissingTarget
    ensures r.Success? ==> r.value.Text? || r.value.Link?
    ensures StartsWith(part, OpenTag) && ToAttrFrom(part, 0).Some? ==>
      r == Success(Link(ToAttrFrom(part, 0).value, RemoveLinkTags(part)))
  {
    if StartsWith(part, OpenTag) then
      match ToAttrFrom(part, 0)
      case None => Failure(MissingTarget)
      case Some(to) => Success(Link(to, RemoveLinkTags(part)))
    else Success(Text(part))
  }

  /** The parts formatted in order; the first failing part aborts the whole message. */
  function FormatLinkParts(parts: seq<string>): (r: Result<seq<Segment>, string>)
    ensures r.Success? <==> forall k :: 0 <= k < |parts| ==> FormatLinkPart(parts[k]).Success?
    ensures r.Success? ==> |r.value| == |parts|
    ensures r.Success? ==> forall k :: 0 <= k < |parts| ==> r.value[k] == FormatLinkPart(parts[k]).value
    ensures r.Failure? ==> r.error == MissingTarget
    decreases |parts|
  {
    if parts == [] then Success([])
    else
      match FormatLinkPart(parts[0])
      case Failure(e) => Failure(e)
      case Success(seg) =>
        match FormatLinkParts(parts[1..])
        case Failure(e) =>
          assert forall k :: 0 <= k < |parts[1..]| ==> parts[1..][k] == parts[k + 1];
          Failure(e)
        case Success(segs) =>
          assert forall k :: 1 <= k < |parts| ==> parts[k] == parts[1..][k - 1];
          Success([seg] + segs)
  }

  // ----- the plain path -----

  /** One piece of `text.split(urlRegex)`, as `urlRegex.test` classifies it. A capture group
      that took no part in a match gives an empty piece. */
  datatype Piece = Plain(text: string) | Address(text: string)

  /** The split of a text by the web-address pattern, which is not modelled itself. */
  type UrlSplitter = string -> seq<Piece>

  /** The text of all pieces, in order. */
  function PieceText(pieces: seq<Piece>): string
    decreases |pieces|
  {
    if pieces == [] then [] else pieces[0].text + PieceText(pieces[1..])
  }

  /** Each line after the first, preceded by a break. */
  function Breaks(lines: seq<string>): (r: seq<Segment>)
    ensures forall k :: 0 <= k < |r| ==> r[k].Break? || (r[k].Text? && r[k].text in lines)
    decreases |lines|
  {
    if lines == [] then []
    else
      var rest := Breaks(lines[1..]);
      assert forall l :: l in lines[1..] ==> l in lines;
      [Break, Text(lines[0])] + rest
  }

  /** The lines of a plain part, with a break before every line but the first. */
  function LineSegments(lines: seq<string>): (r: seq<Segment>)
    requires |lines| >= 1
    ensures forall k :: 0 <= k < |r| ==> r[k].Break? || (r[k].Text? && r[k].text in lines)
  {
    [Text(lines[0])] + Breaks(lines[1..])
  }

  /** One piece: empty pieces are dropped, addresses become links (a `www.` address gets the
      `https://` scheme), and plain text is split into lines. */
  function FormatPiece(piece: Piece): (r: seq<Segment>)
    ensures forall k :: 0 <= k < |r| ==> !r[k].Link?
    ensures forall k :: 0 <= k < |r| && r[k].Text? ==> '\n' !in r[k].text
    ensures piece.text == [] ==> r == []
    ensures piece.Address? && piece.text != [] ==> |r| == 1 && r[0].Url? && r[0].shown == piece.text
    ensures piece.Address? && piece.text != [] && StartsWith(piece.text, "www.") ==>
      r[0].href == "https://" + piece.text
    ensures piece.Address? && piece.text != [] && !StartsWith(piece.text, "www.") ==>
      r[0].href == piece.text
    ensures piece.Plain? ==> forall k :: 0 <= k < |r| ==> !r[k].Url?
  {
    if piece.text == [] then []
    else match piece
      case Address(t) => [Url(if StartsWith(t, "www.") then "https://" + t else t, t)]
      case Plain(t) => LineSegments(Split(t, '\n'))
  }

  function FormatPieces(pieces: seq<Piece>): (r: seq<Segment>)
    ensures forall k :: 0 <= k < |r| ==> !r[k].Link?
    ensures forall k :: 0 <= k < |r| && r[k].Text? ==> '\n' !in r[k].text
    decreases |pieces|
  {
    if pieces == [] then []
    else
      var first, rest := FormatPiece(pieces[0]), FormatPieces(pieces[1..]);
      UnlinkedAppend(first, rest);
      first + rest
  }

  /** Joining two runs of segments without links or line breaks in their texts gives another. */
  lemma UnlinkedAppend(a: seq<Segment>, b: seq<Segment>)
    requires forall k :: 0 <= k < |a| ==> !a[k].Link? && (a[k].Text? ==> '\n' !in a[k].text)
    requires forall k :: 0 <= k < |b| ==> !b[k].Link? && (b[k].Text? ==> '\n' !in b[k].text)
    ensures forall k :: 0 <= k < |a + b| ==> !(a + b)[k].Link?
    ensures forall k :: 0 <= k < |a + b| && (a + b)[k].Text? ==> '\n' !in (a + b)[k].text
  {
    assert forall k :: |a| <= k < |a + b| ==> (a + b)[k] == b[k - |a|];
  }

  /** `formatMessageWithLinks`: text holding `<Link` is split into text and link parts, and
      any other text into addresses and lines. */
  function FormatMessage(text: string, urlSplit: UrlSplitter): (r: Result<seq<Segment>, string>)
    ensures r.Failure? ==> Contains(text, OpenTag) && r.error == MissingTarget
    ensures !Contains(text, OpenTag) ==> r.Success? && forall k :: 0 <= k < |r.value| ==> !r.value[k].Link?
    ensures Contains(text, OpenTag) && r.Success? ==>
      forall k :: 0 <= k < |r.value| ==> r.value[k].Text? || r.value[k].Link?
  {
    if Contains(text, OpenTag) then FormatLinkParts(SplitLinks(text))
    else Success(FormatPieces(urlSplit(text)))
  }

  lemma RenderPair(x: Segment, y: Segment, rest: seq<Segment>)
    ensures Render([x, y] + rest) == Shown(x) + Shown(y) + Render(rest)
  {
    var tail := [y] + rest;
    assert ([x, y] + rest)[0] == x && ([x, y] + rest)[1..] == tail;
    assert Render([x, y] + rest) == Shown(x) + Render(tail);
    assert tail[0] == y && tail[1..] == rest;
    assert Render(tail) == Shown(y) + Render(rest);
  }

  /** Lines rendered with their breaks give back the lines joined by newlines. */
  lemma {:induction false} LinesRender(lines: seq<string>)
    requires |lines| >= 1
    ensures Render(LineSegments(lines)) == Join(lines, '\n')
    decreases |lines|
  {
    var rest := Breaks(lines[1..]);
    assert LineSegments(lines) == [Text(lines[0])] + rest;
    assert ([Text(lines[0])] + rest)[1..] == rest;
    if |lines| > 1 {
      LinesRender(lines[1..]);
      RenderPair(Break, Text(lines[1..][0]), Breaks(lines[1..][1..]));
    } else {
      assert rest == [];
    }
  }

  /** A plain piece renders as its own text. */
  lemma PieceRender(piece: Piece)
    ensures Render(FormatPiece(piece)) == piece.text
  {
    if piece.text != [] {
      match piece {
        case Address(t) =>
          assert Render([Url(if StartsWith(t, "www.") then "https://" + t else t, t)]) == t + Render([]);
        case Plain(t) =>
          LinesRender(Split(t, '\n'));
          JoinSplit(t, '\n');
      }
    }
  }

  /** The plain path loses no text: it renders as the pieces it was given. */
  lemma {:induction false} PiecesRender(pieces: seq<Piece>)
    ensures Render(FormatPieces(pieces)) == PieceText(pieces)
    decreases |pieces|
  {
    if pieces != [] {
      PieceRender(pieces[0]);
      PiecesRender(pieces[1..]);
      RenderAppend(FormatPiece(pieces[0]), FormatPieces(pieces[1..]));
    }
  }

  /** Text without `<Link` is never turned into an in-app link, never fails, and, when the
      address split covers it, is shown exactly as written. */
  lemma PlainMessage(text: string, urlSplit: UrlSplitter)
    requires !Contains(text, OpenTag)
    ensures FormatMessage(text, urlSplit).Success?
    ensures forall k :: 0 <= k < |FormatMessage(text, urlSplit).value| ==>
      !FormatMessage(text, urlSplit).value[k].Link?
    ensures PieceText(urlSplit(text)) == text ==> Render(FormatMessage(text, urlSplit).value) == text
  {
    PiecesRender(urlSplit(text));
  }

  // ----- a link element between plain text -----

  /** Text without `<`: no tag and no link can start in it. */
  predicate NoAngle(s: string) {
    forall k :: 0 <= k < |s| ==> s[k] != '<'
  }

  /** Text the lazy link pattern runs over: no `<` and no line terminator. */
  predicate Inert(s: string) {
    forall k :: 0 <= k < |s| ==> s[k] != '<' && !IsLineTerminator(s[k])
  }

  lemma {:induction false} LinkCloseSkip(s: string, j: nat, j': nat)
    requires j <= j' <= |s| && Inert(s[j..j'])
    ensures LinkCloseFrom(s, j) == LinkCloseFrom(s, j')
    decreases j' - j
  {
    if j < j' {
      assert s[j] == s[j..j'][0];
      assert s[j + 1..j'] == s[j..j'][1..];
      LinkCloseSkip(s, j + 1, j');
    }
  }

  lemma {:induction false} FirstLinkSkip(s: string, q: nat, q': nat)
    requires q <= q' <= |s| && NoAngle(s[q..q'])
    ensures FirstLinkFrom(s, q) == FirstLinkFrom(s, q')
    decreases q' - q
  {
    if q < q' {
      assert s[q] == s[q..q'][0];
      assert s[q + 1..q'] == s[q..q'][1..];
      FirstLinkSkip(s, q + 1, q');
    }
  }

  lemma {:induction false} ToAttrSkip(s: string, p: nat, p': nat)
    requires p <= p' <= |s|
    requires forall k :: p <= k < p' ==> s[k] != 't'
    ensures ToAttrFrom(s, p) == ToAttrFrom(s, p')
    decreases p' - p
  {
    if p < p' {
      ToAttrSkip(s, p + 1, p');
    }
  }

  lemma {:induction false} RemoveLinkTagsPrefix(x: string, y: string)
    requires NoAngle(x)
    ensures RemoveLinkTags(x + y) == x + RemoveLinkTags(y)
    decreases |x|
  {
    if x == [] {
      assert x + y == y;
    } else {
      assert (x + y)[0] == x[0] && (x + y)[1..] == x[1..] + y;
      assert NoAngle(x[1..]) by {
        forall k | 0 <= k < |x[1..]|
          ensures x[1..][k] != '<'
        {
          assert x[1..][k] == x[k + 1];
        }
      }
      RemoveLinkTagsPrefix(x[1..], y);
      assert x == [x[0]] + x[1..];
    }
  }

  /** Text without `<` holds no tag and is left alone. */
  lemma RemoveLinkTagsPlain(s: string)
    requires NoAngle(s)
    ensures RemoveLinkTags(s) == s
  {
    RemoveLinkTagsPrefix(s, []);
    assert s + [] == s;
  }

  /** The inside of a link element: everything between `<Link` and `</Link>`. */
  function LinkInside(to: string, caption: string): string {
    " to='" + to + "'>" + caption
  }

  lemma LinkElementParts(to: string, caption: string)
    ensures LinkElement(to, caption) == OpenTag + LinkInside(to, caption) + CloseTag
  {
  }

  lemma LinkInsideInert(to: string, caption: string)
    requires Inert(to) && Inert(caption)
    ensures Inert(LinkInside(to, caption))
  {
    var m := LinkInside(to, caption);
    forall k | 0 <= k < |m|
      ensures m[k] != '<' && !IsLineTerminator(m[k])
    {
      if k < 5 {
      } else if k < 5 + |to| {
        assert m[k] == to[k - 5];
      } else if k < 7 + |to| {
      } else {
        assert m[k] == caption[k - 7 - |to|];
      }
    }
  }

  /** A link target `to='…'` reads back whole: not empty, no quote, no `>`, nothing the
      link pattern stops at. */
  predicate CleanTarget(to: string) {
    Inert(to) && to != [] && forall k :: 0 <= k < |to| ==> to[k] != '\'' && to[k] != '>'
  }

  /** The conditions under which a link element between plain texts splits cleanly. */
  predicate CleanLink(pre: string, to: string, caption: string, post: string) {
    NoAngle(pre) && NoAngle(post) && CleanTarget(to) && Inert(caption)
  }

  /** A text with no `<` is a single part. */
  lemma SplitWithoutTags(s: string)
    requires NoAngle(s)
    ensures SplitLinks(s) == [s]
  {
    assert s[0..|s|] == s;
    FirstLinkSkip(s, 0, |s|);
  }

  lemma LinkCloseHere(s: string, j: nat)
    requires j + |CloseTag| <= |s| && s[j..j + |CloseTag|] == CloseTag
    ensures LinkCloseFrom(s, j) == Some(j + |CloseTag|)
  {
    assert s[j..][..|CloseTag|] == s[j..j + |CloseTag|];
  }

  /** The lazy pattern, started just inside the element, ends at the element's end. */
  lemma LinkCloseOfElement(s: string, i: nat, m: string)
    requires Inert(m)
    requires i + |m| + |CloseTag| <= |s| && s[i..i + |m|] == m && s[i + |m|..i + |m| + |CloseTag|] == CloseTag
    ensures LinkCloseFrom(s, i) == Some(i + |m| + |CloseTag|)
  {
    LinkCloseSkip(s, i, i + |m|);
    LinkCloseHere(s, i + |m|);
  }

  /** Where each of five pieces lies in their concatenation. */
  lemma FivePieces(a: string, b: string, c: string, d: string, e: string)
    ensures var s, i, j, k := a + b + c + d + e, |a| + |b|, |a| + |b| + |c|, |a| + |b| + |c| + |d|;
      && s[..|a|] == a && s[|a|..i] == b && s[i..j] == c && s[j..k] == d && s[k..] == e
  {
  }

  lemma FirstLinkHere(s: string, a: nat)
    requires a <= |s| && LinkMatchAt(s, a).Some?
    ensures FirstLinkFrom(s, a) == Some(Span(a, LinkMatchAt(s, a).value))
  {
  }

  lemma LinkMatchHere(s: string, a: nat, m: string)
    requires a + 5 + |m| + 7 <= |s| && Inert(m)
    requires s[a..a + 5] == OpenTag
    requires s[a + 5..a + 5 + |m|] == m
    requires s[a + 5 + |m|..a + 12 + |m|] == CloseTag
    ensures LinkMatchAt(s, a) == Some(a + 12 + |m|)
  {
    assert s[a..][..5] == s[a..a + 5];
    assert StartsWith(s[a..], OpenTag);
    var i := a + 5;
    assert |CloseTag| == 7;
    assert s[i..i + |m|] == m;
    assert s[i + |m|..i + |m| + |CloseTag|] == CloseTag;
    LinkCloseOfElement(s, i, m);
    assert LinkCloseFrom(s, i) == Some(a + 12 + |m|);
    assert LinkMatchAt(s, a) == LinkCloseFrom(s, i);
  }

  lemma Regroup(a: string, b: string, c: string, d: string, e: string)
    ensures a + (b + c + d) + e == a + b + c + d + e
  {
  }

  /** A link match found in a text whose only `<` before it opens the match. */
  lemma LinkMatchIn(s: string, a: nat, e: nat)
    requires a <= |s| && NoAngle(s[..a]) && LinkMatchAt(s, a) == Some(e)
    ensures FirstLinkFrom(s, 0) == Some(Span(a, e))
  {
    assert s[0..a] == s[..a];
    FirstLinkSkip(s, 0, a);
    FirstLinkHere(s, a);
  }

  /** The link pattern matches the element exactly. */
  lemma LinkMatchOfElement(pre: string, to: string, caption: string, post: string)
    requires CleanLink(pre, to, caption, post)
    ensures var s, e := pre + LinkElement(to, caption) + post, LinkElement(to, caption);
      FirstLinkFrom(s, 0) == Some(Span(|pre|, |pre| + |e|))
  {
    var m := LinkInside(to, caption);
    LinkElementParts(to, caption);
    LinkInsideInert(to, caption);
    var s := pre + OpenTag + m + CloseTag + post;
    FivePieces(pre, OpenTag, m, CloseTag, post);
    var a := |pre|;
    assert s[..a] == pre && s[a..a + 5] == OpenTag;
    assert s[a + 5..a + 5 + |m|] == m && s[a + 5 + |m|..a + 12 + |m|] == CloseTag;
    LinkMatchHere(s, a, m);
    LinkMatchIn(s, a, a + 12 + |m|);
    Regroup(pre, OpenTag, m, CloseTag, post);
  }

  /** `text.split` on a clean link element gives the text before, the element, and the text after. */
  lemma SplitLinkElement(pre: string, to: string, caption: string, post: string)
    requires CleanLink(pre, to, caption, post)
    ensures SplitLinks(pre + LinkElement(to, caption) + post) == [pre, LinkElement(to, caption), post]
  {
    var e := LinkElement(to, caption);
    var s := pre + e + post;
    LinkMatchOfElement(pre, to, caption, post);
    assert s[..|pre|] == pre && s[|pre|..|pre| + |e|] == e && s[|pre| + |e|..] == post;
    SplitWithoutTags(post);
  }

  /** A single-quoted `to` attribute at `p` yields its target. */
  lemma ToAttrAt(s: string, p: nat, to: string)
    requires p + 5 + |to| <= |s| && to != []
    requires s[p..p + 4] == "to='" && s[p + 4..p + 4 + |to|] == to && s[p + 4 + |to|..p + 5 + |to|] == "'"
    requires forall k :: 0 <= k < |to| ==> to[k] != '\''
    ensures ToAttrFrom(s, p) == Some(Some(to))
  {
    assert s[p..][..4] == s[p..p + 4];
    forall k | p + 4 <= k < p + 4 + |to|
      ensures s[k] != '\''
    {
      assert s[k] == s[p + 4..p + 4 + |to|][k - p - 4];
    }
    assert s[p + 4 + |to|] == s[p + 4 + |to|..p + 5 + |to|][0];
    assert IndexOf(s, '\'', p + 4) == p + 4 + |to|;
  }

  /** The element's target is read back from its `to` attribute. */
  lemma TargetOfElement(to: string, caption: string)
    requires CleanTarget(to)
    ensures ToAttrFrom(LinkElement(to, caption), 0) == Some(Some(to))
  {
    var rest := ">" + caption + CloseTag;
    var s := "<Link " + "to='" + to + "'" + rest;
    assert LinkElement(to, caption) == s;
    ElementAttrSkip(s, to, rest);
    ElementAttrAt(s, to, rest);
  }

  lemma ElementAttrSkip(s: string, to: string, rest: string)
    requires s == "<Link " + "to='" + to + "'" + rest
    ensures ToAttrFrom(s, 0) == ToAttrFrom(s, 6)
  {
    assert s[..6] == "<Link ";
    ToAttrSkip(s, 0, 6);
  }

  lemma ElementAttrAt(s: string, to: string, rest: string)
    requires s == "<Link " + "to='" + to + "'" + rest && CleanTarget(to)
    ensures ToAttrFrom(s, 6) == Some(Some(to))
  {
    FivePieces("<Link ", "to='", to, "'", rest);
    ToAttrAt(s, 6, to);
  }

  /** The element's caption is what remains once its tags are removed. */
  lemma CaptionOfElement(to: string, caption: string)
    requires CleanTarget(to) && Inert(caption)
    ensures RemoveLinkTags(LinkElement(to, caption)) == caption
  {
    var e := LinkElement(to, caption);
    var close := 10 + |to|;
    assert e == "<Link to='" + to + "'" + ">" + (caption + CloseTag);
    assert e[close + 1] == '>';
    forall k | 5 <= k < close + 1
      ensures e[k] != '>'
    {
      if 10 <= k < close {
        assert e[k] == to[k - 10];
      }
    }
    assert e[..5] == OpenTag;
    assert IndexOf(e, '>', 5) == close + 1;
    assert e[close + 2..] == caption + CloseTag;
    RemoveLinkTagsPrefix(caption, CloseTag);
    assert CloseTag[|CloseTag|..] == [];
  }

  /** The element alone formats as an in-app link with its own target and caption. */
  lemma ElementPartFormats(to: string, caption: string)
    requires CleanTarget(to) && Inert(caption)
    ensures FormatLinkPart(LinkElement(to, caption)) == Success(Link(Some(to), caption))
  {
    var e := LinkElement(to, caption);
    TargetOfElement(to, caption);
    CaptionOfElement(to, caption);
    assert e[..5] == OpenTag;
  }

  lemma ThreePartsFormat(pre: string, e: string, post: string, link: Segment)
    requires !StartsWith(pre, OpenTag) && !StartsWith(post, OpenTag)
    requires FormatLinkPart(e) == Success(link)
    ensures FormatLinkParts([pre, e, post]) == Success([Text(pre), link, Text(post)])
  {
    var parts := [pre, e, post];
    var want := [Text(pre), link, Text(post)];
    assert forall k :: 0 <= k < 3 ==> FormatLinkPart(parts[k]) == Success(want[k]);
    var r := FormatLinkParts(parts);
    assert r.Success? && |r.value| == 3;
    assert r.value[0] == want[0] && r.value[1] == want[1] && r.value[2] == want[2];
    assert r.value == want;
    assert r == Success(want);
  }

  lemma ElementContainsTag(pre: string, to: string, caption: string, post: string)
    ensures Contains(pre + LinkElement(to, caption) + post, OpenTag)
  {
    var m := LinkInside(to, caption) + CloseTag + post;
    LinkElementParts(to, caption);
    assert pre + LinkElement(to, caption) + post == pre + OpenTag + m;
    ContainsPiece(pre, OpenTag, m);
  }

  /** A clean link element between plain texts is shown as the text before, an in-app link
      with the element's target and caption, and the text after, whatever the address split. */
  lemma LinkElementFormats(pre: string, to: string, caption: string, post: string, urlSplit: UrlSplitter)
    requires CleanLink(pre, to, caption, post)
    ensures FormatMessage(pre + LinkElement(to, caption) + post, urlSplit)
      == Success([Text(pre), Link(Some(to), caption), Text(post)])
  {
    ElementContainsTag(pre, to, caption, post);
    SplitLinkElement(pre, to, caption, post);
    ElementPartFormats(to, caption);
    PrefixHead(pre, OpenTag);
    PrefixHead(post, OpenTag);
    ThreePartsFormat(pre, LinkElement(to, caption), post, Link(Some(to), caption));
  }

  // ----- a `<Link` without a target -----

  /** A user who types `<Link` gets no formatted message: the part has no `to` attribute
      and reading its target throws. */
  lemma BareLinkTagFails(urlSplit: UrlSplitter)
    ensures FormatMessage(OpenTag, urlSplit) == Failure(MissingTarget)
  {
    var s := OpenTag;
    ContainsPiece([], OpenTag, []);
    assert [] + OpenTag + [] == s;
    assert s[1..5] == "Link";
    FirstLinkSkip(s, 1, 5);
    assert SplitLinks(s) == [s];
    ToAttrSkip(s, 0, 5);
    assert FormatLinkParts([s]) == Failure(MissingTarget) by {
      assert [s][1..] == [];
    }
  }

  /** One part of the link split, with a part that names no target kept as text. */
  function FormatLinkPartSafe(part: string): (seg: Segment)
    ensures FormatLinkPart(part).Success? ==> seg == FormatLinkPart(part).value
    ensures seg.Text? || (seg.Link? && StartsWith(part, OpenTag))
  {
    match FormatLinkPart(part)
    case Success(seg) => seg
    case Failure(_) => Text(part)
  }

  function FormatLinkPartsSafe(parts: seq<string>): (segs: seq<Segment>)
    ensures |segs| == |parts|
    ensures forall k :: 0 <= k < |parts| ==> segs[k] == FormatLinkPartSafe(parts[k])
    decreases |parts|
  {
    if parts == [] then []
    else [FormatLinkPartSafe(parts[0])] + FormatLinkPartsSafe(parts[1..])
  }

  /** `formatMessageWithLinks` as it is evidently meant: never failing, and agreeing with
      the original wherever the original succeeds. */
  function FormatMessageSafe(text: string, urlSplit: UrlSplitter): (segs: seq<Segment>)
    ensures FormatMessage(text, urlSplit).Success? ==> segs == FormatMessage(text, urlSplit).value
  {
    if Contains(text, OpenTag) then FormatLinkPartsSafe(SplitLinks(text))
    else FormatPieces(urlSplit(text))
  }

  /** The corrected formatter shows the bare tag as the text it is. */
  lemma BareLinkTagShown(urlSplit: UrlSplitter)
    ensures FormatMessageSafe(OpenTag, urlSplit) == [Text(OpenTag)]
    ensures Render(FormatMessageSafe(OpenTag, urlSplit)) == OpenTag
  {
    BareLinkTagFails(urlSplit);
    var s := OpenTag;
    assert FormatLinkPart(s).Failure? by {
      assert [s][1..] == [];
    }
    assert FormatLinkPartsSafe([s]) == [Text(s)];
    assert Render([Text(s)]) == s + Render([]);
  }

  // ----- the typewriter -----

  /** `TypewriterText`'s state: the reply's code units, the units revealed so far, and the
      next index. `text[currentIndex]` reads one UTF-16 code unit, so a character outside
      the Basic Multilingual Plane takes two ticks. */
  datatype Typewriter = Typewriter(text: seq<CodeUnit>, shown: seq<CodeUnit>, index: nat)

  /** What the effect does after a render: schedule the next unit, call `onComplete`, or
      nothing (no callback was given). */
  datatype Reveal = ScheduleTick | CallComplete | Idle

  /** The revealed units are the reply's prefix up to the index. */
  predicate InStep(t: Typewriter) {
    t.index <= |t.text| && t.shown == t.text[..t.index]
  }

  /** The text handed to `formatMessageWithLinks`: the revealed units, as they show. */
  function Displayed(t: Typewriter): string {
    FromUtf16(t.shown)
  }

  /** A fresh typewriter shows nothing. */
  function Start(text: string): (t: Typewriter)
    ensures InStep(t) && t.shown == [] && t.text == Utf16(text) && Displayed(t) == []
  {
    Typewriter(Utf16(text), [], 0)
  }

  /** The effect's decision for the current index. */
  function NextReveal(t: Typewriter, hasOnComplete: bool): (r: Reveal)
    ensures r == ScheduleTick <==> t.index < |t.text|
    ensures r == CallComplete <==> t.index >= |t.text| && hasOnComplete
  {
    if t.index < |t.text| then ScheduleTick
    else if hasOnComplete then CallComplete
    else Idle
  }

  /** The timer fires: one more code unit of the reply is revealed. */
  function Tick(t: Typewriter): (r: Typewriter)
    requires t.index < |t.text|
    ensures r.text == t.text && r.index == t.index + 1
    ensures InStep(t) ==> InStep(r)
  {
    assert InStep(t) ==> t.text[..t.index] + [t.text[t.index]] == t.text[..t.index + 1];
    Typewriter(t.text, t.shown + [t.text[t.index]], t.index + 1)
  }

  /** The typewriter after `n` renders, each firing the timer while units remain. */
  function Ticks(t: Typewriter, n: nat): Typewriter
    decreases n
  {
    if n == 0 || t.index >= |t.text| then t else Ticks(Tick(t), n - 1)
  }

  /** After `n` ticks the first `min(n, length)` code units are shown, where the length is
      the reply's `length` in UTF-16 units, and the effect keeps scheduling exactly until
      the whole reply is out. */
  lemma {:induction false} TicksReveal(text: string, n: nat)
    ensures var t := Ticks(Start(text), n);
      && InStep(t) && t.text == Utf16(text)
      && t.index == (if n < |Utf16(text)| then n else |Utf16(text)|)
      && (NextReveal(t, false) == ScheduleTick <==> n < |Utf16(text)|)
  {
    TicksFrom(Start(text), n);
  }

  lemma {:induction false} TicksFrom(t: Typewriter, n: nat)
    requires InStep(t)
    ensures var r := Ticks(t, n);
      && InStep(r) && r.text == t.text
      && r.index == (if t.index + n < |t.text| then t.index + n else |t.text|)
    decreases n
  {
    if n > 0 && t.index < |t.text| {
      TicksFrom(Tick(t), n - 1);
    }
  }

  /** Once every code unit is revealed, what is shown is the reply itself. */
  lemma RevealComplete(text: string)
    ensures Ticks(Start(text), |Utf16(text)|).shown == Utf16(text)
    ensures Displayed(Ticks(Start(text), |Utf16(text)|)) == text
  {
    TicksReveal(text, |Utf16(text)|);
    assert Utf16(text)[..|Utf16(text)|] == Utf16(text);
    Utf16RoundTrip(text);
  }

  /** A reply made of one card emoji (U+1F4B3) takes two ticks, and after the first the
      text on screen is a lone high surrogate, which is no string's encoding and shows as
      the replacement character. */
  lemma AstralHalfShown()
    ensures var t := Ticks(Start("\U{1F4B3}"), 1);
      && t.shown == [0xD83D as CodeUnit]
      && NextReveal(t, false) == ScheduleTick
      && Displayed(t) == "\U{FFFD}"
      && forall s :: Utf16(s) != t.shown
  {
    var t := Ticks(Start("\U{1F4B3}"), 1);
    assert Utf16("\U{1F4B3}") == [0xD83D as CodeUnit, 0xDCB3 as CodeUnit];
    assert t.shown == [0xD83D as CodeUnit];
    forall s | Utf16(s) == t.shown
      ensures false
    {
      Utf16EndsWhole(s);
    }
  }
}

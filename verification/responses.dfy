/**
 * The response matcher `findResponse`: a total function from the user's text
 * to one reply, trying its rules in a fixed order and answering with the
 * first that applies.
 *
 * `Math.random()` becomes an argument of type `Random`, and the floating-point
 * loan formula becomes a `LoanCalculator` argument that yields the two
 * formatted amounts.
 */
module Responses {
  import opened Wrappers
  import opened JsString
  import opened KnowledgeBase

  /** A value `Math.random()` can return. */
  type Random = x: real | 0.0 <= x < 1.0

  /** The floating-point part of the loan calculator: amount, rate in percent and years
      to the formatted monthly and total payment. */
  type LoanCalculator = (nat, nat, nat) -> Figures

  /** `Math.floor(rand * n)`: the cell of the unit interval, cut into `n` equal cells,
      that `rand` falls in. */
  function RandomIndex(n: nat, rand: Random): (i: nat)
    requires n > 0
    ensures i < n
    ensures i as real <= rand * n as real < i as real + 1.0
  {
    var x := rand * n as real;
    ScaleBelow(rand, n as real);
    x.Floor
  }

  /** A fraction in `[0, 1)` of a positive `b` lies in `[0, b)`. */
  lemma ScaleBelow(a: real, b: real)
    requires 0.0 <= a < 1.0 && b > 0.0
    ensures 0.0 <= a * b < b
  {
    assert b - a * b == (1.0 - a) * b;
    assert 0.0 <= a * b by {
      if a > 0.0 {
        assert a * b > 0.0 * b;
      }
    }
    assert (1.0 - a) * b > 0.0 * b;
  }

  /** `getRandomResponse`: one entry of a non-empty reply list. */
  function RandomResponse(responses: seq<string>, rand: Random): (r: string)
    requires |responses| > 0
    ensures r in responses
  {
    responses[RandomIndex(|responses|, rand)]
  }

  // ----- numbers in a loan request -----

  /** `\d` in a JavaScript regular expression. */
  predicate IsDigit(c: char) {
    '0' <= c <= '9'
  }

  predicate AllDigits(s: string) {
    forall k :: 0 <= k < |s| ==> IsDigit(s[k])
  }

  predicate NoDigits(s: string) {
    forall k :: 0 <= k < |s| ==> !IsDigit(s[k])
  }

  /** The length of the longest all-digit prefix of `s`. */
  function LeadingDigits(s: string): (n: nat)
    ensures n <= |s|
    ensures AllDigits(s[..n])
    ensures n == |s| || !IsDigit(s[n])
    decreases |s|
  {
    if s != [] && IsDigit(s[0]) then 1 + LeadingDigits(s[1..]) else 0
  }

  /** `input.match(/\d+/g)`: the maximal runs of digits, from left to right
      (an input without digits gives no runs, where JavaScript gives `null`). */
  function DigitRuns(s: string): seq<string>
    decreases |s|
  {
    if s == [] then []
    else if !IsDigit(s[0]) then DigitRuns(s[1..])
    else
      var n := LeadingDigits(s);
      [s[..n]] + DigitRuns(s[n..])
  }

  /** The text between the digit runs of `s`: before the first, between each two, after the last. */
  function DigitGaps(s: string): (gaps: seq<string>)
    ensures |gaps| == |DigitRuns(s)| + 1
    decreases |s|
  {
    if s == [] then [[]]
    else if !IsDigit(s[0]) then
      var g := DigitGaps(s[1..]);
      [[s[0]] + g[0]] + g[1..]
    else
      var n := LeadingDigits(s);
      [[]] + DigitGaps(s[n..])
  }

  /** `gaps[0] + runs[0] + gaps[1] + … + runs[last] + gaps[last]` */
  function Weave(gaps: seq<string>, runs: seq<string>): string
    requires |gaps| == |runs| + 1
    decreases |runs|
  {
    if runs == [] then gaps[0] else gaps[0] + runs[0] + Weave(gaps[1..], runs[1..])
  }

  /** `runs` are the maximal digit runs of `s`, separated by `gaps`: the runs are non-empty
      and all digits, the gaps hold no digit, and the inner gaps are non-empty. */
  predicate IsRunDecomposition(s: string, runs: seq<string>, gaps: seq<string>) {
    && |gaps| == |runs| + 1
    && s == Weave(gaps, runs)
    && (forall k :: 0 <= k < |runs| ==> |runs[k]| > 0 && AllDigits(runs[k]))
    && (forall k :: 0 <= k < |gaps| ==> NoDigits(gaps[k]))
    && (forall k :: 0 < k < |runs| ==> |gaps[k]| > 0)
  }

  lemma {:induction false} DigitRunsAreMaximal(s: string)
    ensures IsRunDecomposition(s, DigitRuns(s), DigitGaps(s))
    decreases |s|
  {
    if s == [] {
    } else if !IsDigit(s[0]) {
      DigitRunsAreMaximal(s[1..]);
      MaximalAfterNonDigit(s);
    } else {
      DigitRunsAreMaximal(s[LeadingDigits(s)..]);
      MaximalAfterRun(s);
    }
  }

  /** A non-digit in front joins the first gap. */
  lemma MaximalAfterNonDigit(s: string)
    requires s != [] && !IsDigit(s[0])
    requires IsRunDecomposition(s[1..], DigitRuns(s[1..]), DigitGaps(s[1..]))
    ensures IsRunDecomposition(s, DigitRuns(s), DigitGaps(s))
  {
    var runs, gaps := DigitRuns(s), DigitGaps(s);
    var g := DigitGaps(s[1..]);
    assert runs == DigitRuns(s[1..]);
    assert gaps == [[s[0]] + g[0]] + g[1..];
    WeaveConsFirst(s[0], g, runs);
    assert s == [s[0]] + s[1..];
    forall k | 0 <= k < |gaps|
      ensures NoDigits(gaps[k])
    {
      if k == 0 {
        assert NoDigits(g[0]);
      } else {
        assert gaps[k] == g[k];
      }
    }
  }

  /** A leading run of digits becomes the first run, after an empty gap. */
  lemma MaximalAfterRun(s: string)
    requires s != [] && IsDigit(s[0])
    requires IsRunDecomposition(s[LeadingDigits(s)..], DigitRuns(s[LeadingDigits(s)..]),
                                DigitGaps(s[LeadingDigits(s)..]))
    ensures IsRunDecomposition(s, DigitRuns(s), DigitGaps(s))
  {
    var n := LeadingDigits(s);
    var rest := s[n..];
    assert DigitRuns(s) == [s[..n]] + DigitRuns(rest);
    assert DigitGaps(s) == [[]] + DigitGaps(rest);
    assert s == s[..n] + rest;
    RunCons(s[..n], rest, DigitRuns(rest), DigitGaps(rest));
  }

  /** A run of digits put in front of text that starts with a non-digit. */
  lemma RunCons(run: string, rest: string, runs: seq<string>, gaps: seq<string>)
    requires IsRunDecomposition(rest, runs, gaps)
    requires run != [] && AllDigits(run) && (rest == [] || !IsDigit(rest[0]))
    ensures IsRunDecomposition(run + rest, [run] + runs, [[]] + gaps)
  {
    var runs', gaps' := [run] + runs, [[]] + gaps;
    assert gaps'[1..] == gaps && runs'[1..] == runs;
    assert Weave(gaps', runs') == [] + run + Weave(gaps, runs);
    forall k | 0 < k < |runs'|
      ensures |gaps'[k]| > 0
    {
      assert gaps'[k] == gaps[k - 1];
    }
    forall k | 0 <= k < |runs'|
      ensures |runs'[k]| > 0 && AllDigits(runs'[k])
    {
      if k > 0 {
        assert runs'[k] == runs[k - 1];
      }
    }
    forall k | 0 <= k < |gaps'|
      ensures NoDigits(gaps'[k])
    {
      if k > 0 {
        assert gaps'[k] == gaps[k - 1];
      }
    }
  }

  /** Putting a character in front of the first gap puts it in front of the whole. */
  lemma {:induction false} WeaveConsFirst(c: char, g: seq<string>, runs: seq<string>)
    requires |g| == |runs| + 1
    ensures Weave([[c] + g[0]] + g[1..], runs) == [c] + Weave(g, runs)
  {
    var g' := [[c] + g[0]] + g[1..];
    assert g'[1..] == g[1..];
  }

  /** Text without digits has no digit runs. */
  lemma {:induction false} NoDigitRuns(s: string)
    requires forall c :: c in s ==> !IsDigit(c)
    ensures DigitRuns(s) == []
    decreases |s|
  {
    if s != [] {
      assert s[0] in s;
      assert forall c :: c in s[1..] ==> c in s;
      NoDigitRuns(s[1..]);
    }
  }

  /** A non-empty run of digits is its own single digit run. */
  lemma SingleDigitRun(s: string)
    requires s != [] && AllDigits(s)
    ensures DigitRuns(s) == [s]
  {
    LeadingDigitsAtLeast(s, |s|);
    assert s[..LeadingDigits(s)] == s;
  }

  /** The leading digits of `a + b` are those of `a` when `a` has a non-digit. */
  lemma {:induction false} LeadingDigitsAppend(a: string, b: string)
    requires LeadingDigits(a) < |a|
    ensures LeadingDigits(a + b) == LeadingDigits(a)
    decreases |a|
  {
    if IsDigit(a[0]) {
      assert (a + b)[1..] == a[1..] + b;
      LeadingDigitsAppend(a[1..], b);
    }
  }

  /** Digit runs do not merge across a boundary with a non-digit on one side. */
  lemma {:induction false} DigitRunsAppend(a: string, b: string)
    requires a == [] || b == [] || !IsDigit(a[|a| - 1]) || !IsDigit(b[0])
    ensures DigitRuns(a + b) == DigitRuns(a) + DigitRuns(b)
    decreases |a|
  {
    if a == [] {
      assert a + b == b;
    } else if b == [] {
      assert a + b == a;
    } else if !IsDigit(a[0]) {
      assert (a + b)[1..] == a[1..] + b;
      DigitRunsAppend(a[1..], b);
    } else if LeadingDigits(a) < |a| {
      var n := LeadingDigits(a);
      LeadingDigitsAppend(a, b);
      assert (a + b)[..n] == a[..n];
      assert (a + b)[n..] == a[n..] + b;
      DigitRunsAppend(a[n..], b);
    } else {
      DigitRunsAppendRun(a, b);
    }
  }

  /** A whole run of digits followed by text that starts with a non-digit. */
  lemma DigitRunsAppendRun(a: string, b: string)
    requires a != [] && b != [] && !IsDigit(b[0]) && IsDigit(a[0]) && LeadingDigits(a) == |a|
    ensures DigitRuns(a + b) == DigitRuns(a) + DigitRuns(b)
  {
    var m := LeadingDigits(a + b);
    assert AllDigits(a);
    assert m == |a| by {
      assert forall k :: 0 <= k < |a| ==> IsDigit((a + b)[k]);
      LeadingDigitsAtLeast(a + b, |a|);
      assert !IsDigit((a + b)[|a|]);
    }
    assert (a + b)[..m] == a;
    assert (a + b)[m..] == b;
    SingleDigitRun(a);
  }

  /** `LeadingDigits` counts at least the digits it is shown. */
  lemma {:induction false} LeadingDigitsAtLeast(s: string, m: nat)
    requires m <= |s| && forall k :: 0 <= k < m ==> IsDigit(s[k])
    ensures LeadingDigits(s) >= m
    decreases m
  {
    if m > 0 {
      assert forall k :: 0 <= k < m - 1 ==> IsDigit(s[1..][k]) by {
        forall k | 0 <= k < m - 1
          ensures IsDigit(s[1..][k])
        {
          assert s[1..][k] == s[k + 1];
        }
      }
      LeadingDigitsAtLeast(s[1..], m - 1);
    }
  }

  /** `Number(run)` for a run of decimal digits. */
  function Number(run: string): nat
    decreases |run|
  {
    if run == [] then 0
    else
      var d := run[|run| - 1] as int - '0' as int;
      10 * Number(run[..|run| - 1]) + (if 0 <= d < 10 then d else 0)
  }

  /** The decimal numeral of `n`, without leading zeros. */
  function Decimal(n: nat): (r: string)
    ensures r != [] && AllDigits(r)
    decreases n
  {
    var last := [('0' as int + n % 10) as char];
    if n < 10 then last else Decimal(n / 10) + last
  }

  /** `Number` reads a numeral back as the number it writes. */
  lemma {:induction false} NumberDecimal(n: nat)
    ensures Number(Decimal(n)) == n
    decreases n
  {
    var last := [('0' as int + n % 10) as char];
    if n >= 10 {
      NumberDecimal(n / 10);
      var r := Decimal(n / 10) + last;
      assert r[..|r| - 1] == Decimal(n / 10);
    }
  }

  /** A numeral in the text is a run of its own, so the loan rule reads it as its value. */
  lemma DecimalRun(n: nat)
    ensures DigitRuns(Decimal(n)) == [Decimal(n)]
    ensures Number(DigitRuns(Decimal(n))[0]) == n
  {
    SingleDigitRun(Decimal(n));
    NumberDecimal(n);
  }

  // ----- the rules -----

  /** `isLoanCalculation` */
  predicate IsLoanCalculation(text: string) {
    Contains(ToLower(text), "calculate") && Contains(ToLower(text), "loan")
  }

  /** Rule 1: the calculator's answer, or the prompt when fewer than three numbers are given. */
  function LoanAnswer(input: string, calculator: LoanCalculator): (r: string)
    ensures r == LoanPrompt <==> |DigitRuns(input)| < 3
    ensures |r| > 0
  {
    var numbers := DigitRuns(input);
    if |numbers| >= 3 then
      var f := calculator(Number(numbers[0]), Number(numbers[1]), Number(numbers[2]));
      TemplatesUnlikeFallback([], f);
      FallbackIsDistinct();
      LoanText(f)
    else LoanPrompt
  }

  predicate AboutAccounts(lower: string) {
    Contains(lower, "account") || Contains(lower, "banking")
  }

  predicate NamesAccountType(lower: string) {
    Contains(lower, "savings") || Contains(lower, "checking") || Contains(lower, "money market")
  }

  /** Rule 2: for account or banking questions, the answer about the first account type named. */
  function AccountAnswer(lower: string): (r: Option<string>)
    ensures r.Some? <==> AboutAccounts(lower) && NamesAccountType(lower)
    ensures r.Some? ==> r.value in {SavingsReply, CheckingReply, MoneyMarketReply}
  {
    if AboutAccounts(lower) then
      if Contains(lower, "savings") then Some(SavingsReply)
      else if Contains(lower, "checking") then Some(CheckingReply)
      else if Contains(lower, "money market") then Some(MoneyMarketReply)
      else None
    else None
  }

  /** Some keyword of category `c` occurs in `lower`. */
  predicate CategoryHit(lower: string, c: Category) {
    exists k :: k in Keywords(c) && Contains(lower, k)
  }

  /** `cats[i]` is the first category of `cats` with a keyword in `lower`. */
  predicate FirstHitAt(lower: string, cats: seq<Category>, i: int) {
    0 <= i < |cats| && CategoryHit(lower, cats[i]) && forall j :: 0 <= j < i ==> !CategoryHit(lower, cats[j])
  }

  /** The first category of `cats` with a keyword in `lower`. */
  function FirstCategory(lower: string, cats: seq<Category>): (r: Option<Category>)
    ensures r.None? <==> forall k :: 0 <= k < |cats| ==> !CategoryHit(lower, cats[k])
    ensures r.Some? ==> exists i :: FirstHitAt(lower, cats, i) && cats[i] == r.value
    decreases |cats|
  {
    if cats == [] then None
    else if CategoryHit(lower, cats[0]) then
      assert FirstHitAt(lower, cats, 0);
      Some(cats[0])
    else
      var r := FirstCategory(lower, cats[1..]);
      if r.Some? then
        var i :| FirstHitAt(lower, cats[1..], i) && cats[1..][i] == r.value;
        FirstHitShift(lower, cats, i);
        r
      else
        NoHitShift(lower, cats);
        r
  }

  /** A first hit in the tail, after a miss at the head, is a first hit one place later. */
  lemma FirstHitShift(lower: string, cats: seq<Category>, i: int)
    requires cats != [] && !CategoryHit(lower, cats[0]) && FirstHitAt(lower, cats[1..], i)
    ensures FirstHitAt(lower, cats, i + 1) && cats[i + 1] == cats[1..][i]
  {
    forall j | 0 <= j < i + 1
      ensures !CategoryHit(lower, cats[j])
    {
      if j > 0 {
        assert cats[j] == cats[1..][j - 1];
      }
    }
  }

  /** A miss at the head and everywhere in the tail is a miss everywhere. */
  lemma NoHitShift(lower: string, cats: seq<Category>)
    requires cats != [] && !CategoryHit(lower, cats[0])
    requires forall k :: 0 <= k < |cats[1..]| ==> !CategoryHit(lower, cats[1..][k])
    ensures forall k :: 0 <= k < |cats| ==> !CategoryHit(lower, cats[k])
  {
    forall k | 0 <= k < |cats|
      ensures !CategoryHit(lower, cats[k])
    {
      if k > 0 {
        assert cats[k] == cats[1..][k - 1];
      }
    }
  }

  /** The phrases rules 4 and 5 recognise at the start of the input. */
  const WhatPhrases: seq<string> := ["what is", "what are"]
  const HowPhrases: seq<string> := ["how to", "how do"]

  predicate StartsWithAny(s: string, phrases: seq<string>) {
    exists k :: 0 <= k < |phrases| && StartsWith(s, phrases[k])
  }

  /** The length of the first of `phrases` that `s` starts with, ignoring ASCII case. */
  function PhraseAt(s: string, phrases: seq<string>): Option<nat>
    decreases |phrases|
  {
    if phrases == [] then None
    else if StartsWith(ToLower(s), phrases[0]) then Some(|phrases[0]|)
    else PhraseAt(s, phrases[1..])
  }

  /** `s.replace(/what (is|are)/i, '')` and its `how (to|do)` sibling: the leftmost
      case-insensitive occurrence of one of `phrases` is removed. */
  function RemoveFirstPhrase(s: string, phrases: seq<string>): string
    decreases |s|
  {
    if s == [] then s
    else match PhraseAt(s, phrases)
      case Some(n) => if n <= |s| then s[n..] else s
      case None => [s[0]] + RemoveFirstPhrase(s[1..], phrases)
  }

  /** The input opens with one of the phrases of rules 4 and 5. */
  predicate AsksWhatOrHow(lower: string) {
    StartsWithAny(lower, WhatPhrases) || StartsWithAny(lower, HowPhrases)
  }

  /** Rules 4 to 6: the "what is" and "how to" templates, else the fallback. */
  function TemplateAnswer(input: string): (r: string)
    ensures r == Fallback <==> !AsksWhatOrHow(ToLower(input))
    ensures |r| > 0
  {
    var lower := ToLower(input);
    var what := Trim(RemoveFirstPhrase(input, WhatPhrases));
    var how := Trim(RemoveFirstPhrase(input, HowPhrases));
    FallbackIsDistinct();
    TemplatesUnlikeFallback(what, Figures([], []));
    TemplatesUnlikeFallback(how, Figures([], []));
    if StartsWithAny(lower, WhatPhrases) then WhatIsReply(what)
    else if StartsWithAny(lower, HowPhrases) then HowToReply(how)
    else Fallback
  }

  /** Rule 3, falling back to rules 4 to 6: a reply from the first category hit. */
  function CategoryAnswer(input: string, rand: Random): (r: string)
    ensures |r| > 0
  {
    match FirstCategory(ToLower(input), CategoryOrder)
    case Some(c) => RandomResponse(Replies(c), rand)
    case None => TemplateAnswer(input)
  }

  /** `findResponse`: every input gets a non-empty reply. */
  function FindResponse(input: string, rand: Random, calculator: LoanCalculator): (r: string)
    ensures |r| > 0
  {
    if IsLoanCalculation(input) then LoanAnswer(input, calculator)
    else match AccountAnswer(ToLower(input))
      case Some(a) => a
      case None => CategoryAnswer(input, rand)
  }
}

/**
 * Properties of the response matcher: the order in which its rules apply,
 * what each rule answers, and which inputs reach the fallback.
 */
module MatcherProperties {
  import opened Wrappers
  import opened JsString
  import opened KnowledgeBase
  import opened Responses

  /** A loan calculation is answered by rule 1 alone: by the calculator on the first three
      digit runs, or by the prompt when there are fewer; the random source is never used. */
  lemma LoanCalculationFirst(input: string, rand: Random, rand': Random, calculator: LoanCalculator)
    requires IsLoanCalculation(input)
    ensures var runs := DigitRuns(input);
      && (|runs| < 3 ==> FindResponse(input, rand, calculator) == LoanPrompt)
      && (|runs| >= 3 ==>
            FindResponse(input, rand, calculator)
            == LoanText(calculator(Number(runs[0]), Number(runs[1]), Number(runs[2]))))
    ensures FindResponse(input, rand, calculator) == FindResponse(input, rand', calculator)
  {
  }

  /** For account or banking questions the account types are tried in the order savings,
      checking, money market; naming none of them leaves the answer to the later rules. */
  lemma AccountTypePrecedence(input: string, rand: Random, calculator: LoanCalculator)
    requires !IsLoanCalculation(input) && AboutAccounts(ToLower(input))
    ensures var lower, r := ToLower(input), FindResponse(input, rand, calculator);
      && (Contains(lower, "savings") ==> r == SavingsReply)
      && (!Contains(lower, "savings") && Contains(lower, "checking") ==> r == CheckingReply)
      && ((!Contains(lower, "savings") && !Contains(lower, "checking") && Contains(lower, "money market"))
            ==> r == MoneyMarketReply)
      && (!NamesAccountType(lower) ==> r == CategoryAnswer(input, rand))
  {
  }

  /** Rule 3: when no earlier rule applies, the first category in `CategoryOrder` with a
      keyword in the input answers, with a member of its own reply list. */
  lemma {:induction false} FirstCategoryWins(input: string, rand: Random, calculator: LoanCalculator, i: nat)
    requires !IsLoanCalculation(input) && AccountAnswer(ToLower(input)).None?
    requires FirstHitAt(ToLower(input), CategoryOrder, i)
    ensures FindResponse(input, rand, calculator) == RandomResponse(Replies(CategoryOrder[i]), rand)
    ensures FindResponse(input, rand, calculator) in Replies(CategoryOrder[i])
  {
    var lower := ToLower(input);
    var r := FirstCategory(lower, CategoryOrder);
    var i' :| FirstHitAt(lower, CategoryOrder, i') && CategoryOrder[i'] == r.value;
    FirstHitUnique(lower, CategoryOrder, i, i');
  }

  lemma FirstHitUnique(lower: string, cats: seq<Category>, i: int, j: int)
    requires FirstHitAt(lower, cats, i) && FirstHitAt(lower, cats, j)
    ensures i == j
  {
  }

  /** The greeting test is a bare substring test: any input containing "hi" that no earlier
      rule claims gets a greeting, even one that starts with "what is". */
  lemma HiAnywhereGreets(input: string, rand: Random, calculator: LoanCalculator)
    requires !IsLoanCalculation(input) && AccountAnswer(ToLower(input)).None?
    requires forall k :: 0 <= k < 4 ==> !CategoryHit(ToLower(input), CategoryOrder[k])
    requires Contains(ToLower(input), "hi")
    ensures FindResponse(input, rand, calculator) in GreetingReplies
  {
    assert CategoryOrder[4] == Greetings && "hi" in Keywords(Greetings);
    assert FirstHitAt(ToLower(input), CategoryOrder, 4);
    FirstCategoryWins(input, rand, calculator, 4);
  }

  /** Removing the leading "what is" / "what are" phrase (any case) leaves the rest of the input. */
  lemma RemoveLeadingWhat(input: string)
    ensures StartsWith(ToLower(input), "what is") ==> RemoveFirstPhrase(input, WhatPhrases) == input[7..]
    ensures StartsWith(ToLower(input), "what are") ==> RemoveFirstPhrase(input, WhatPhrases) == input[8..]
  {
    if StartsWith(ToLower(input), "what are") {
      assert ToLower(input)[5] == 'a';
      assert !StartsWith(ToLower(input), "what is");
    }
  }

  /** Removing the leading "how to" / "how do" phrase (any case) leaves the rest of the input. */
  lemma RemoveLeadingHow(input: string)
    ensures StartsWith(ToLower(input), "how to") ==> RemoveFirstPhrase(input, HowPhrases) == input[6..]
    ensures StartsWith(ToLower(input), "how do") ==> RemoveFirstPhrase(input, HowPhrases) == input[6..]
  {
    if StartsWith(ToLower(input), "how do") {
      assert ToLower(input)[4] == 'd';
      assert !StartsWith(ToLower(input), "how to");
    }
  }

  /** With no earlier rule applying, the answer is the template rules' answer. */
  lemma {:induction false} ReachesTemplates(input: string, rand: Random, calculator: LoanCalculator)
    requires !IsLoanCalculation(input) && AccountAnswer(ToLower(input)).None?
    requires FirstCategory(ToLower(input), CategoryOrder).None?
    ensures FindResponse(input, rand, calculator) == TemplateAnswer(input)
  {
  }

  /** Rule 4: with no earlier rule applying, a leading "what is" / "what are" is answered
      by the explanation template around the trimmed rest of the input. */
  lemma WhatIsTemplate(input: string, rand: Random, calculator: LoanCalculator)
    requires !IsLoanCalculation(input) && AccountAnswer(ToLower(input)).None?
    requires FirstCategory(ToLower(input), CategoryOrder).None?
    ensures StartsWith(ToLower(input), "what is")
      ==> FindResponse(input, rand, calculator) == WhatIsReply(Trim(input[7..]))
    ensures StartsWith(ToLower(input), "what are")
      ==> FindResponse(input, rand, calculator) == WhatIsReply(Trim(input[8..]))
  {
    ReachesTemplates(input, rand, calculator);
    WhatIsAnswer(input);
  }

  lemma WhatIsAnswer(input: string)
    ensures StartsWith(ToLower(input), "what is") ==> TemplateAnswer(input) == WhatIsReply(Trim(input[7..]))
    ensures StartsWith(ToLower(input), "what are") ==> TemplateAnswer(input) == WhatIsReply(Trim(input[8..]))
  {
    RemoveLeadingWhat(input);
    if StartsWith(ToLower(input), "what is") {
      WhatPhraseAnswer(input, 0);
    } else if StartsWith(ToLower(input), "what are") {
      WhatPhraseAnswer(input, 1);
    }
  }

  lemma WhatPhraseAnswer(input: string, k: nat)
    requires k < |WhatPhrases| && StartsWith(ToLower(input), WhatPhrases[k])
    ensures TemplateAnswer(input) == WhatIsReply(Trim(RemoveFirstPhrase(input, WhatPhrases)))
  {
  }

  /** Rule 5: with rules 1 to 4 not applying, a leading "how to" / "how do" is answered by
      the guide template around the trimmed rest of the input. */
  lemma HowToTemplate(input: string, rand: Random, calculator: LoanCalculator)
    requires !IsLoanCalculation(input) && AccountAnswer(ToLower(input)).None?
    requires FirstCategory(ToLower(input), CategoryOrder).None?
    requires !StartsWithAny(ToLower(input), WhatPhrases)
    requires StartsWith(ToLower(input), "how to") || StartsWith(ToLower(input), "how do")
    ensures FindResponse(input, rand, calculator) == HowToReply(Trim(input[6..]))
  {
    ReachesTemplates(input, rand, calculator);
    HowToAnswer(input);
  }

  lemma HowToAnswer(input: string)
    requires !StartsWithAny(ToLower(input), WhatPhrases)
    requires StartsWith(ToLower(input), "how to") || StartsWith(ToLower(input), "how do")
    ensures TemplateAnswer(input) == HowToReply(Trim(input[6..]))
  {
    RemoveLeadingHow(input);
    if StartsWith(ToLower(input), "how to") {
      HowPhraseAnswer(input, 0);
    } else {
      HowPhraseAnswer(input, 1);
    }
  }

  lemma HowPhraseAnswer(input: string, k: nat)
    requires !StartsWithAny(ToLower(input), WhatPhrases)
    requires k < |HowPhrases| && StartsWith(ToLower(input), HowPhrases[k])
    ensures TemplateAnswer(input) == HowToReply(Trim(RemoveFirstPhrase(input, HowPhrases)))
  {
  }

  /** No rule of the matcher applies to the input. */
  predicate NoRuleApplies(input: string) {
    var lower := ToLower(input);
    && !IsLoanCalculation(input)
    && !(AboutAccounts(lower) && NamesAccountType(lower))
    && (forall c: Category :: !CategoryHit(lower, c))
    && !AsksWhatOrHow(lower)
  }

  /** Rules 3 to 6 fall back exactly when no category keyword occurs and the input
      asks neither "what" nor "how". */
  lemma CategoryAnswerFallback(input: string, rand: Random)
    ensures CategoryAnswer(input, rand) == Fallback
      <==> (forall c: Category :: !CategoryHit(ToLower(input), c)) && !AsksWhatOrHow(ToLower(input))
  {
    var lower := ToLower(input);
    var first := FirstCategory(lower, CategoryOrder);
    if first.Some? {
      var c := first.value;
      FallbackIsDistinct();
      assert UnlikeFallback(Replies(c)[RandomIndex(|Replies(c)|, rand)]);
      var i :| FirstHitAt(lower, CategoryOrder, i) && CategoryOrder[i] == c;
    } else {
      forall c: Category
        ensures !CategoryHit(lower, c)
      {
        assert CategoryOrder[Rank(c)] == c;
      }
    }
  }

  /** The fallback answers exactly the inputs no rule applies to. */
  lemma FallbackExactlyWhenNoRule(input: string, rand: Random, calculator: LoanCalculator)
    ensures FindResponse(input, rand, calculator) == Fallback <==> NoRuleApplies(input)
  {
    var lower := ToLower(input);
    FallbackIsDistinct();
    if IsLoanCalculation(input) {
      var runs := DigitRuns(input);
      if |runs| >= 3 {
        TemplatesUnlikeFallback([], calculator(Number(runs[0]), Number(runs[1]), Number(runs[2])));
      }
    } else if AccountAnswer(lower).None? {
      CategoryAnswerFallback(input, rand);
    }
  }

  /** No keyword that starts with a visible character occurs in white space. */
  lemma {:induction false} NothingVisibleInBlank(s: string, k: string)
    requires AllSpace(s) && |k| > 0 && !IsSpace(k[0])
    ensures !Contains(s, k) && !StartsWith(s, k)
  {
    ContainsIff(s, k);
    forall i | 0 <= i && i + |k| <= |s|
      ensures !OccursAt(s, k, i)
    {
      assert s[i..i + |k|][0] == s[i];
    }
    assert |s| >= |k| ==> s[..|k|][0] == s[0];
  }

  /** Empty and white-space-only input gets the fallback. */
  lemma BlankInputFallback(input: string, rand: Random, calculator: LoanCalculator)
    requires AllSpace(input)
    ensures FindResponse(input, rand, calculator) == Fallback
  {
    BlankMatchesNoRule(input);
    FallbackExactlyWhenNoRule(input, rand, calculator);
  }

  /** No rule applies to white space alone. */
  lemma BlankMatchesNoRule(input: string)
    requires AllSpace(input)
    ensures NoRuleApplies(input)
  {
    var lower := ToLower(input);
    assert AllSpace(lower);
    NothingVisibleInBlank(lower, "calculate");
    NothingVisibleInBlank(lower, "account");
    NothingVisibleInBlank(lower, "banking");
    forall c: Category, k | k in Keywords(c)
      ensures !Contains(lower, k)
    {
      NothingVisibleInBlank(lower, k);
    }
    forall k | 0 <= k < |WhatPhrases + HowPhrases|
      ensures !StartsWith(lower, (WhatPhrases + HowPhrases)[k])
    {
      NothingVisibleInBlank(lower, (WhatPhrases + HowPhrases)[k]);
    }
    assert !StartsWithAny(lower, WhatPhrases) by {
      forall k | 0 <= k < |WhatPhrases|
        ensures !StartsWith(lower, WhatPhrases[k])
      {
        assert WhatPhrases[k] == (WhatPhrases + HowPhrases)[k];
      }
    }
    assert !StartsWithAny(lower, HowPhrases) by {
      forall k | 0 <= k < |HowPhrases|
        ensures !StartsWith(lower, HowPhrases[k])
      {
        assert HowPhrases[k] == (WhatPhrases + HowPhrases)[|WhatPhrases| + k];
      }
    }
  }
}

/** Worked inputs for the response matcher, from the greeting, account and loan rules.
    Each fact about a literal input gets its own small lemma; the composing lemmas
    only combine those facts with the general properties of the matcher. */
module MatcherExamples {
  import opened JsString
  import opened KnowledgeBase
  import opened Responses
  import opened MatcherProperties

  /** No category before the greetings matches, and a greeting keyword does. */
  lemma GreetingIsFirstHit(lower: string)
    requires !CategoryHit(lower, Loans) && !CategoryHit(lower, Investments)
    requires !CategoryHit(lower, CreditCards) && !CategoryHit(lower, Security)
    requires CategoryHit(lower, Greetings)
    ensures FirstHitAt(lower, CategoryOrder, 4)
  {
  }

  /** An already lower-case input whose first matching category is the greetings gets a greeting. */
  lemma GreetingWins(s: string, rand: Random, calculator: LoanCalculator)
    requires ToLower(s) == s && !IsLoanCalculation(s) && AccountAnswer(s).None?
    requires FirstHitAt(s, CategoryOrder, 4)
    ensures FindResponse(s, rand, calculator) in Replies(Greetings)
  {
    FirstCategoryWins(s, rand, calculator, 4);
  }

  // "hello" and "what is this": neither has a letter that every keyword of an earlier rule needs

  lemma ShortGreetingIsLowerAndNoLoan(s: string)
    requires s == "hello" || s == "what is this"
    ensures ToLower(s) == s && !IsLoanCalculation(s)
  {
    ToLowerFixed(s);
    NotContainsMissingChar(s, "calculate", 'c');
  }

  lemma ShortGreetingNotAboutAccounts(s: string)
    requires s == "hello" || s == "what is this"
    ensures AccountAnswer(s).None?
  {
    NotContainsMissingChar(s, "account", 'c');
    NotContainsMissingChar(s, "banking", 'b');
  }

  lemma ShortGreetingNotLoans(s: string)
    requires s == "hello" || s == "what is this"
    ensures !CategoryHit(s, Loans)
  {
    NotContainsMissingChar(s, "loan", 'n');
    NotContainsMissingChar(s, "mortgage", 'm');
  }

  lemma ShortGreetingNotInvestments(s: string)
    requires s == "hello" || s == "what is this"
    ensures !CategoryHit(s, Investments)
  {
    NotContainsMissingChar(s, "invest", 'v');
    NotContainsMissingChar(s, "stock", 'c');
    NotContainsMissingChar(s, "bond", 'b');
  }

  lemma ShortGreetingNotCreditCards(s: string)
    requires s == "hello" || s == "what is this"
    ensures !CategoryHit(s, CreditCards)
  {
    NotContainsMissingChar(s, "credit card", 'c');
    NotContainsMissingChar(s, "credit score", 'c');
  }

  lemma ShortGreetingNotSecurity(s: string)
    requires s == "hello" || s == "what is this"
    ensures !CategoryHit(s, Security)
  {
    NotContainsMissingChar(s, "security", 'c');
    NotContainsMissingChar(s, "protect", 'p');
    NotContainsMissingChar(s, "fraud", 'f');
  }

  /** "hello" is answered with one of the three greetings. */
  lemma HelloGreets(s: string, rand: Random, calculator: LoanCalculator)
    requires s == "hello"
    ensures FindResponse(s, rand, calculator) in Replies(Greetings)
  {
    ShortGreetingIsLowerAndNoLoan(s);
    ShortGreetingNotAboutAccounts(s);
    ShortGreetingNotLoans(s);
    ShortGreetingNotInvestments(s);
    ShortGreetingNotCreditCards(s);
    ShortGreetingNotSecurity(s);
    assert Contains(s, "hello");
    GreetingIsFirstHit(s);
    GreetingWins(s, rand, calculator);
  }

  /** "this" contains "hi", so "what is this" gets a greeting instead of the "what is" template. */
  lemma WhatIsThisGreets(s: string, rand: Random, calculator: LoanCalculator)
    requires s == "what is this"
    ensures FindResponse(s, rand, calculator) in Replies(Greetings)
  {
    ShortGreetingIsLowerAndNoLoan(s);
    ShortGreetingNotAboutAccounts(s);
    ShortGreetingNotLoans(s);
    ShortGreetingNotInvestments(s);
    ShortGreetingNotCreditCards(s);
    ShortGreetingNotSecurity(s);
    assert s == "what is t" + "hi" + "s";
    ContainsPiece("what is t", "hi", "s");
    GreetingIsFirstHit(s);
    GreetingWins(s, rand, calculator);
  }

  // "open a savings account"

  /** The worked requests other than the greetings are already lower case. */
  lemma RequestIsLower(s: string)
    requires s == "open a savings account" || s == "calculate loan 10000 5 3" || s == "calculate my loan at 5.5"
    ensures ToLower(s) == s
  {
    ToLowerFixed(s);
  }

  lemma SavingsQuestionNoLoan(s: string)
    requires s == "open a savings account"
    ensures !Contains(s, "loan")
  {
    NotContainsMissingChar(s, "loan", 'l');
  }

  lemma SavingsQuestionNames(s: string)
    requires s == "open a savings account"
    ensures Contains(s, "savings") && Contains(s, "account")
  {
    assert s == "open a " + "savings" + " account";
    ContainsPiece("open a ", "savings", " account");
    assert s == "open a savings " + "account" + "";
    ContainsPiece("open a savings ", "account", "");
  }

  /** An already lower-case account question naming savings, without "loan", gets the savings answer. */
  lemma SavingsAnswerWins(s: string, rand: Random, calculator: LoanCalculator)
    requires ToLower(s) == s && !Contains(s, "loan")
    requires Contains(s, "savings") && Contains(s, "account")
    ensures FindResponse(s, rand, calculator) == SavingsReply
  {
    AccountTypePrecedence(s, rand, calculator);
  }

  /** "open a savings account" gets the fixed savings answer. */
  lemma SavingsQuestion(s: string, rand: Random, calculator: LoanCalculator)
    requires s == "open a savings account"
    ensures FindResponse(s, rand, calculator) == SavingsReply
  {
    RequestIsLower(s);
    SavingsQuestionNoLoan(s);
    SavingsQuestionNames(s);
    SavingsAnswerWins(s, rand, calculator);
  }

  /** A digit run between digit-free text and a tail that does not start with a digit. */
  lemma DigitRunAfterWords(w: string, x: string, tail: string)
    requires forall c :: c in w ==> !IsDigit(c)
    requires x != [] && AllDigits(x)
    requires tail == [] || !IsDigit(tail[0])
    ensures DigitRuns(w + x + tail) == [x] + DigitRuns(tail)
  {
    NoDigitRuns(w);
    SingleDigitRun(x);
    DigitRunsAppend(x, tail);
    if w != [] {
      assert w[|w| - 1] in w;
    }
    DigitRunsAppend(w, x + tail);
    assert w + x + tail == w + (x + tail);
  }

  /** A lower-case loan calculation request is answered from its digit runs. */
  lemma LoanRequestAnswer(s: string, rand: Random, calculator: LoanCalculator)
    requires ToLower(s) == s && Contains(s, "calculate") && Contains(s, "loan")
    ensures |DigitRuns(s)| < 3 ==> FindResponse(s, rand, calculator) == LoanPrompt
    ensures |DigitRuns(s)| >= 3 ==>
      FindResponse(s, rand, calculator)
      == LoanText(calculator(Number(DigitRuns(s)[0]), Number(DigitRuns(s)[1]), Number(DigitRuns(s)[2])))
  {
    LoanCalculationFirst(s, rand, rand, calculator);
  }

  // The loan requests below both start with "calculate" and name "loan".

  lemma LoanRequestsSayCalculate(s: string)
    requires s == "calculate loan 10000 5 3" || s == "calculate my loan at 5.5"
    ensures Contains(s, "calculate")
  {
    assert s == "" + "calculate" + s[9..];
    ContainsPiece("", "calculate", s[9..]);
  }

  lemma LoanRequestsSayLoan(s: string)
    requires s == "calculate loan 10000 5 3" || s == "calculate my loan at 5.5"
    ensures Contains(s, "loan")
  {
    if s == "calculate loan 10000 5 3" {
      assert s == "calculate " + "loan" + " 10000 5 3";
      ContainsPiece("calculate ", "loan", " 10000 5 3");
    } else {
      assert s == "calculate my " + "loan" + " at 5.5";
      ContainsPiece("calculate my ", "loan", " at 5.5");
    }
  }

  // "calculate loan 10000 5 3"

  lemma LoanRequestNumbers(s: string)
    requires s == "calculate loan 10000 5 3"
    ensures DigitRuns(s) == ["10000", "5", "3"]
  {
    assert s == "calculate loan " + "10000" + (" " + "5" + (" " + "3" + ""));
    assert DigitRuns("") == [];
    DigitRunAfterWords(" ", "3", "");
    DigitRunAfterWords(" ", "5", " " + "3" + "");
    DigitRunAfterWords("calculate loan ", "10000", " " + "5" + (" " + "3" + ""));
  }

  lemma LoanRequestValues()
    ensures Number("10000") == 10000 && Number("5") == 5 && Number("3") == 3
  {
    assert "10" == "1" + "0" && Number("1") == 1 && Number("10") == 10;
    assert "100" == "10" + "0" && Number("100") == 100;
    assert "1000" == "100" + "0" && Number("1000") == 1000;
    assert "10000" == "1000" + "0";
  }

  /** "calculate loan 10000 5 3" asks the calculator for 10000 at 5% over 3 years. */
  lemma LoanFigures(s: string, rand: Random, calculator: LoanCalculator)
    requires s == "calculate loan 10000 5 3"
    ensures FindResponse(s, rand, calculator) == LoanText(calculator(10000, 5, 3))
  {
    RequestIsLower(s);
    LoanRequestsSayCalculate(s);
    LoanRequestsSayLoan(s);
    LoanRequestNumbers(s);
    LoanRequestValues();
    LoanRequestAnswer(s, rand, calculator);
  }

  // "calculate my loan at 5.5"

  lemma DecimalRunsOfRate(s: string)
    requires s == "5.5"
    ensures DigitRuns(s) == ["5", "5"]
  {
    assert s == "" + "5" + ("." + "5" + "");
    assert DigitRuns("") == [];
    DigitRunAfterWords(".", "5", "");
    DigitRunAfterWords("", "5", "." + "5" + "");
  }

  lemma DecimalRequestNumbers(s: string)
    requires s == "calculate my loan at 5.5"
    ensures |DigitRuns(s)| == 2
  {
    assert s == "calculate my loan at " + "5" + ("." + "5" + "");
    assert DigitRuns("") == [];
    DigitRunAfterWords(".", "5", "");
    DigitRunAfterWords("calculate my loan at ", "5", "." + "5" + "");
  }

  /** A decimal rate is two digit runs, so "5.5" alone does not make three numbers. */
  lemma DecimalRateIsTwoNumbers(s: string, rand: Random, calculator: LoanCalculator)
    requires s == "calculate my loan at 5.5"
    ensures DigitRuns("5.5") == ["5", "5"]
    ensures FindResponse(s, rand, calculator) == LoanPrompt
  {
    DecimalRunsOfRate("5.5");
    RequestIsLower(s);
    LoanRequestsSayCalculate(s);
    LoanRequestsSayLoan(s);
    DecimalRequestNumbers(s);
    LoanRequestAnswer(s, rand, calculator);
  }
}

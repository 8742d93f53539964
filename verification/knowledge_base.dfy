/**
 * The static knowledge base of the banking assistant: the fixed account
 * answers, the reply lists of the keyword categories, and the fixed prompts
 * and templates of the response matcher.
 */
module KnowledgeBase {

  /** The in-app navigation markup the chat renderer turns into a link. */
  function LinkElement(to: string, caption: string): string {
    "<Link to='" + to + "'>" + caption + "</Link>"
  }

  /** The route of the account-opening form. */
  const OpenAccountRoute: string := "/open-account"

  const SavingsIntro: string :=
    "A savings account is a deposit " +
    "account that earns interest over " +
    "time. Would you like to open a " +
    "savings account? "
  const SavingsReply: string := SavingsIntro + LinkElement(OpenAccountRoute, "Click here") + "."

  const CheckingIntro: string :=
    "A checking account is designed for " +
    "frequent transactions. It does not " +
    "earn interest but offers overdraft " +
    "facilities. "
  const CheckingReply: string := CheckingIntro + LinkElement(OpenAccountRoute, "Open an account now") + "."

  const MoneyMarketIntro: string :=
    "A money market account offers " +
    "higher interest rates with some " +
    "transaction limits. "
  const MoneyMarketReply: string := MoneyMarketIntro + LinkElement(OpenAccountRoute, "Start your application") + "."

  const LoanReplies: seq<string> := [
    "Common types of loans:\n\n- Personal " +
      "Loans: For general purposes\n- Home " +
      "Loans/Mortgages: For buying " +
      "property\n- Auto Loans: For vehicle " +
      "purchases\n- Business Loans: For " +
      "business expenses\n- Student Loans: " +
      "For education expenses",
    "Loan application requirements " +
      "typically include:\n\n- Credit Score " +
      "Check\n- Income Verification\n- " +
      "Employment History\n- Collateral " +
      "(for secured loans)\n- " +
      "Debt-to-Income Ratio"
  ]

  const InvestmentReplies: seq<string> := [
    "Investment options include:\n\n- " +
      "Stocks: Company ownership shares\n- " +
      "Bonds: Government and corporate " +
      "debt\n- Mutual Funds: Professionally " +
      "managed portfolios\n- ETFs: " +
      "Exchange-traded funds\n- Retirement " +
      "Accounts (401k, IRA)",
    "Investment tips:\n\n- Diversify your " +
      "portfolio\n- Start early for " +
      "compound growth\n- Consider your " +
      "risk tolerance\n- Regular portfolio " +
      "rebalancing\n- Long-term investment " +
      "strategy"
  ]

  const CreditCardReplies: seq<string> := [
    "Credit card features:\n\n- Rewards " +
      "Programs\n- Cash Back Options\n- " +
      "Travel Benefits\n- Purchase " +
      "Protection\n- Zero Liability " +
      "Protection\n- Credit Building " +
      "Opportunities",
    "Credit card best practices:\n\n- Pay " +
      "full balance monthly\n- Keep " +
      "utilization below 30%\n- Monitor " +
      "statements regularly\n- Protect card " +
      "information\n- Review annual fees"
  ]

  const SecurityReplies: seq<string> := [
    "Banking security measures:\n\n- " +
      "Two-Factor Authentication\n- " +
      "Encryption\n- Fraud Monitoring\n- " +
      "Secure Mobile Banking\n- Regular " +
      "Security Updates",
    "Protect your account:\n\n- Use strong " +
      "passwords\n- Never share account " +
      "details\n- Monitor transactions " +
      "regularly\n- Enable account alerts\n- " +
      "Report suspicious activity " +
      "immediately"
  ]

  const GreetingReplies: seq<string> := [
    "Hello! I'm BoltAI, your banking " +
      "assistant. How can I help you today?",
    "Hi there! I'm here to help with " +
      "your banking and financial " +
      "questions.",
    "Welcome! I'm your AI banking " +
      "assistant. What would you like to " +
      "know about our services?"
  ]

  const CapabilityReplies: seq<string> := [
    "I can help you with:\n\n- Account " +
      "Information\n- Loan Details\n- " +
      "Investment Options\n- Credit Card " +
      "Services\n- Banking Security\n- " +
      "Financial Planning"
  ]

  /** Asked for when a loan calculation names fewer than three numbers. */
  const LoanPrompt: string :=
    "To calculate loan payments, please " +
    "provide: loan amount, interest " +
    "rate, and loan term in years."

  /** The answer to input that matches no rule. */
  const Fallback: string :=
    "I'm your BoltAI Banking Assistant. " +
    "I can help you with:\n\n- Bank " +
    "Accounts and Services\n- Loans and " +
    "Mortgages\n- Investment Options\n- " +
    "Credit Cards\n- Banking Security\n- " +
    "Financial Calculations\n\nPlease feel " +
    "free to ask any banking or " +
    "financial question!"

  /** The keyword categories, each answered from its own reply list. */
  datatype Category = Loans | Investments | CreditCards | Security | Greetings | Capabilities

  /** The order in which the matcher tries the categories. */
  const CategoryOrder: seq<Category> := [Loans, Investments, CreditCards, Security, Greetings, Capabilities]

  /** The position of each category in `CategoryOrder`: the order lists every category. */
  function Rank(c: Category): (i: nat)
    ensures i < |CategoryOrder| && CategoryOrder[i] == c
  {
    match c
    case Loans => 0
    case Investments => 1
    case CreditCards => 2
    case Security => 3
    case Greetings => 4
    case Capabilities => 5
  }

  /** The lower-case substrings that select a category. */
  function Keywords(c: Category): seq<string> {
    match c
    case Loans => ["loan", "mortgage"]
    case Investments => ["invest", "stock", "bond"]
    case CreditCards => ["credit card", "credit score"]
    case Security => ["security", "protect", "fraud"]
    case Greetings => ["hello", "hi", "hey"]
    case Capabilities => ["what can you do", "help me"]
  }

  function Replies(c: Category): (rs: seq<string>)
    ensures |rs| > 0
    ensures forall k :: 0 <= k < |rs| ==> |rs[k]| > 0
  {
    match c
    case Loans => LoanReplies
    case Investments => InvestmentReplies
    case CreditCards => CreditCardReplies
    case Security => SecurityReplies
    case Greetings => GreetingReplies
    case Capabilities => CapabilityReplies
  }

  /** The reply to "what is …" / "what are …", mentioning the topic three times. */
  function WhatIsReply(topic: string): string {
    "Let me explain about " + topic + " in banking:\n\n"
    + "I'll provide relevant information about " + topic + ". "
    + "Could you please specify what aspect of " + topic + " you'd like to learn about?"
  }

  /** The reply to "how to …" / "how do …". */
  function HowToReply(topic: string): string {
    "Here's a guide for " + topic + ":\n\n"
    + "1. I'll help you understand the process\n"
    + "2. We can break it down into steps\n"
    + "3. I'll provide specific banking-related information\n\n"
    + "Could you provide more details about your specific needs?"
  }

  /** The two amounts the loan calculator formats with two decimals. */
  datatype Figures = Figures(monthly: string, total: string)

  /** The loan calculator's output around its formatted monthly and total payment. */
  function LoanText(f: Figures): string {
    "Monthly Payment: $" + f.monthly + "\nTotal Payment: $" + f.total
  }

  /** `s` differs from the fallback within its first two characters. */
  predicate UnlikeFallback(s: string) {
    |s| >= 2 && (s[0] != 'I' || s[1] != '\'')
  }

  /** The fallback starts with "I'", and so does none of the other answers. */
  lemma FallbackIsDistinct()
    ensures !UnlikeFallback(Fallback)
    ensures forall c, k :: 0 <= k < |Replies(c)| ==> UnlikeFallback(Replies(c)[k])
    ensures UnlikeFallback(SavingsReply) && UnlikeFallback(CheckingReply)
    ensures UnlikeFallback(MoneyMarketReply) && UnlikeFallback(LoanPrompt)
  {
    RepliesUnlikeFallback();
    AccountRepliesUnlikeFallback();
  }

  lemma RepliesUnlikeFallback()
    ensures forall c, k :: 0 <= k < |Replies(c)| ==> UnlikeFallback(Replies(c)[k])
  {
    forall c: Category, k | 0 <= k < |Replies(c)|
      ensures UnlikeFallback(Replies(c)[k])
    {
      match c
      case Loans =>
      case Investments =>
      case CreditCards =>
      case Security =>
      case Greetings =>
      case Capabilities =>
    }
  }

  lemma AccountRepliesUnlikeFallback()
    ensures UnlikeFallback(SavingsReply) && UnlikeFallback(CheckingReply)
    ensures UnlikeFallback(MoneyMarketReply)
  {
  }

  lemma TemplatesUnlikeFallback(topic: string, f: Figures)
    ensures UnlikeFallback(LoanText(f))
    ensures UnlikeFallback(WhatIsReply(topic)) && UnlikeFallback(HowToReply(topic))
  {
  }
}

/**
 * The three account answers carry an in-app link to the account-opening form;
 * the message formatter, as written and as corrected, shows each as its
 * introduction, that link, and a full stop, and the page speaks each without
 * the markup.
 */
module AccountReplies {
  import opened Wrappers
  import opened KnowledgeBase
  import opened ChatMessage
  import Chat

  lemma NoAngleOf(s: string)
    requires '<' !in s
    ensures NoAngle(s)
  {
    forall k | 0 <= k < |s|
      ensures s[k] != '<'
    {
      assert s[k] in s;
    }
  }

  lemma SavingsIntroPlain()
    ensures NoAngle(SavingsIntro)
  {
    assert '<' !in SavingsIntro;
    NoAngleOf(SavingsIntro);
  }

  lemma CheckingIntroPlain()
    ensures NoAngle(CheckingIntro)
  {
    assert '<' !in CheckingIntro;
    NoAngleOf(CheckingIntro);
  }

  lemma MoneyMarketIntroPlain()
    ensures NoAngle(MoneyMarketIntro)
  {
    assert '<' !in MoneyMarketIntro;
    NoAngleOf(MoneyMarketIntro);
  }

  /** The route reads back whole from `to='…'`. */
  lemma RouteIsClean()
    ensures CleanTarget(OpenAccountRoute)
  {
    var s := OpenAccountRoute;
    forall k | 0 <= k < |s|
      ensures s[k] != '<' && !IsLineTerminator(s[k]) && s[k] != '\'' && s[k] != '>'
    {
    }
  }

  /** The savings answer shows as its introduction, a link to the form, and a full stop. */
  lemma SavingsReplyFormats(urlSplit: UrlSplitter)
    ensures FormatMessage(SavingsReply, urlSplit)
      == Success([Text(SavingsIntro), Link(Some(OpenAccountRoute), "Click here"), Text(".")])
    ensures FormatMessageSafe(SavingsReply, urlSplit)
      == [Text(SavingsIntro), Link(Some(OpenAccountRoute), "Click here"), Text(".")]
  {
    SavingsIntroPlain();
    RouteIsClean();
    LinkElementFormats(SavingsIntro, OpenAccountRoute, "Click here", ".", urlSplit);
  }

  /** The checking answer shows as its introduction, a link to the form, and a full stop. */
  lemma CheckingReplyFormats(urlSplit: UrlSplitter)
    ensures FormatMessage(CheckingReply, urlSplit)
      == Success([Text(CheckingIntro), Link(Some(OpenAccountRoute), "Open an account now"), Text(".")])
    ensures FormatMessageSafe(CheckingReply, urlSplit)
      == [Text(CheckingIntro), Link(Some(OpenAccountRoute), "Open an account now"), Text(".")]
  {
    CheckingIntroPlain();
    RouteIsClean();
    LinkElementFormats(CheckingIntro, OpenAccountRoute, "Open an account now", ".", urlSplit);
  }

  /** The money market answer shows as its introduction, a link to the form, and a full stop. */
  lemma MoneyMarketReplyFormats(urlSplit: UrlSplitter)
    ensures FormatMessage(MoneyMarketReply, urlSplit)
      == Success([Text(MoneyMarketIntro), Link(Some(OpenAccountRoute), "Start your application"), Text(".")])
    ensures FormatMessageSafe(MoneyMarketReply, urlSplit)
      == [Text(MoneyMarketIntro), Link(Some(OpenAccountRoute), "Start your application"), Text(".")]
  {
    MoneyMarketIntroPlain();
    RouteIsClean();
    LinkElementFormats(MoneyMarketIntro, OpenAccountRoute, "Start your application", ".", urlSplit);
  }

  /** The spoken form of an account answer: introduction, caption, full stop. */
  lemma AccountReplySpoken(intro: string, caption: string)
    requires NoAngle(intro) && NoAngle(caption)
    ensures Chat.StripTags(intro + LinkElement(OpenAccountRoute, caption) + ".") == intro + caption + "."
  {
    RouteIsClean();
    assert intro + LinkElement(OpenAccountRoute, caption) + "." == intro + (LinkElement(OpenAccountRoute, caption) + ".");
    Chat.StripTagsPrefix(intro, LinkElement(OpenAccountRoute, caption) + ".");
    Chat.StripLinkElement(OpenAccountRoute, caption, ".");
    Chat.StripTagsKeepsPlainText(".");
  }

  /** The page speaks the account answers without their link markup. */
  lemma AccountRepliesSpoken()
    ensures Chat.StripTags(SavingsReply) == SavingsIntro + "Click here" + "."
    ensures Chat.StripTags(CheckingReply) == CheckingIntro + "Open an account now" + "."
    ensures Chat.StripTags(MoneyMarketReply) == MoneyMarketIntro + "Start your application" + "."
  {
    SavingsIntroPlain();
    CheckingIntroPlain();
    MoneyMarketIntroPlain();
    AccountReplySpoken(SavingsIntro, "Click here");
    AccountReplySpoken(CheckingIntro, "Open an account now");
    AccountReplySpoken(MoneyMarketIntro, "Start your application");
  }
}

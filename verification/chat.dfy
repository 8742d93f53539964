/**
 * The chat page: the conversation list, the typing indicator, the replies still
 * waiting on their one-second timers, and the speech the page asks for. Timers
 * become explicit `Fire` events, the speech synthesizer becomes a list of effects,
 * and message ids and timestamps are left out.
 */
module Chat {
  import opened Wrappers
  import opened JsString
  import opened KnowledgeBase
  import opened Responses
  import ChatInput

  // ----- markup stripped before speaking -----

  /** No `<` in `s` is followed, anywhere later, by a `>`: `/<[^>]*>/` finds nothing. */
  predicate NoTag(s: string) {
    forall i, j :: 0 <= i < j < |s| && s[i] == '<' ==> s[j] != '>'
  }

  /** `text.replace(/<[^>]*>/g, '')`: from left to right, each `<` that has a `>` after it is
      dropped together with everything up to and including the first such `>`. */
  function StripTags(s: string): (r: string)
    ensures |r| <= |s|
    ensures forall c :: c in r ==> c in s
    ensures NoTag(r)
    decreases |s|
  {
    if s == [] then []
    else if s[0] == '<' && IndexOf(s, '>', 1) < |s| then StripTags(s[IndexOf(s, '>', 1) + 1..])
    else
      var rest := StripTags(s[1..]);
      assert s[0] == '<' ==> '>' !in s[1..] by {
        forall j | 0 <= j < |s[1..]|
          ensures s[0] == '<' ==> s[1..][j] != '>'
        {
          assert s[1..][j] == s[j + 1];
        }
      }
      forall i, j | 0 <= i < j < |[s[0]] + rest| && ([s[0]] + rest)[i] == '<'
        ensures ([s[0]] + rest)[j] != '>'
      {
        if i > 0 {
          assert ([s[0]] + rest)[i] == rest[i - 1];
          assert ([s[0]] + rest)[j] == rest[j - 1];
        } else {
          assert ([s[0]] + rest)[j] in rest;
        }
      }
      [s[0]] + rest
  }

  /** Text without markup is spoken as written. */
  lemma {:induction false} StripTagsKeepsPlainText(s: string)
    requires NoTag(s)
    ensures StripTags(s) == s
    decreases |s|
  {
    if s != [] {
      StripTagsKeepsPlainText(s[1..]);
    }
  }

  /** Stripping changes the text exactly when it holds markup. */
  lemma StripTagsFixedIff(s: string)
    ensures StripTags(s) == s <==> NoTag(s)
  {
    if NoTag(s) {
      StripTagsKeepsPlainText(s);
    }
  }

  /** Stripping twice is stripping once, and text without `<` is left alone. */
  lemma StripTagsIdempotent(s: string)
    ensures StripTags(StripTags(s)) == StripTags(s)
    ensures '<' !in s ==> StripTags(s) == s
  {
    StripTagsKeepsPlainText(StripTags(s));
    if '<' !in s {
      forall i | 0 <= i < |s|
        ensures s[i] != '<'
      {
        assert s[i] in s;
      }
      StripTagsKeepsPlainText(s);
    }
  }

  /** Text before the first `<` is spoken as written. */
  lemma {:induction false} StripTagsPrefix(x: string, y: string)
    requires forall k :: 0 <= k < |x| ==> x[k] != '<'
    ensures StripTags(x + y) == x + StripTags(y)
    decreases |x|
  {
    if x == [] {
      assert x + y == y;
    } else {
      assert (x + y)[0] == x[0] && (x + y)[1..] == x[1..] + y;
      StripTagsPrefix(x[1..], y);
    }
  }

  /** A tag, from `<` to its first `>`, is dropped whole. */
  lemma StripTagsDropsTag(tag: string, rest: string)
    requires |tag| >= 2 && tag[0] == '<' && tag[|tag| - 1] == '>'
    requires forall k :: 1 <= k < |tag| - 1 ==> tag[k] != '>'
    ensures StripTags(tag + rest) == StripTags(rest)
  {
    var s := tag + rest;
    assert forall k :: 1 <= k < |tag| ==> s[k] == tag[k];
    assert IndexOf(s, '>', 1) == |tag| - 1;
    assert s[|tag|..] == rest;
  }

  /** A link element is spoken as its caption. */
  lemma StripLinkElement(to: string, caption: string, post: string)
    requires forall k :: 0 <= k < |to| ==> to[k] != '>'
    requires forall k :: 0 <= k < |caption| ==> caption[k] != '<'
    ensures StripTags(LinkElement(to, caption) + post) == caption + StripTags(post)
  {
    var open := "<Link to='" + to + "'>";
    forall k | 1 <= k < |open| - 1
      ensures open[k] != '>'
    {
      if 10 <= k < 10 + |to| {
        assert open[k] == to[k - 10];
      }
    }
    assert LinkElement(to, caption) + post == open + (caption + ("</Link>" + post));
    StripTagsDropsTag(open, caption + ("</Link>" + post));
    StripTagsPrefix(caption, "</Link>" + post);
    StripTagsDropsTag("</Link>", post);
  }

  // ----- the voice chosen for speech -----

  /** A voice offered by the speech synthesizer. */
  datatype Voice = Voice(name: string, lang: string)

  /** The voices `loadVoices` looks for, the last test being any English voice. */
  predicate Preferred(v: Voice) {
    || Contains(v.name, "female") || Contains(v.name, "Samantha") || Contains(v.name, "Victoria")
    || Contains(v.name, "Karen") || (Contains(v.name, "Google") && Contains(v.name, "US English"))
    || StartsWith(v.lang, "en")
  }

  /** `loadVoices`: the first preferred voice's index, or 0 when there is none. */
  method ChooseVoice(voices: seq<Voice>) returns (index: nat)
    ensures index == 0 || index < |voices|
    ensures (exists k :: 0 <= k < |voices| && Preferred(voices[k])) ==>
      index < |voices| && Preferred(voices[index])
    ensures forall k :: 0 <= k < index ==> !Preferred(voices[k])
    ensures (forall k :: 0 <= k < |voices| ==> !Preferred(voices[k])) ==> index == 0
  {
    var i := 0;
    while i < |voices| && !Preferred(voices[i])
      invariant 0 <= i <= |voices|
      invariant forall k :: 0 <= k < i ==> !Preferred(voices[k])
    {
      i := i + 1;
    }
    index := if i < |voices| then i else 0;
  }

  // ----- the conversation -----

  datatype Sender = User | Bot

  datatype Message = Message(text: string, sender: Sender)

  /** A reply whose timer has been set: the question it answers and whether to speak it. */
  datatype PendingReply = PendingReply(question: string, speak: bool)

  datatype Page = Page(messages: seq<Message>, typing: bool, pending: seq<PendingReply>)

  /** What the page asks of the speech synthesizer. */
  datatype Effect = CancelSpeech | Speak(text: string)

  /** A transition's outcome: the new page and the speech effects, in order. */
  datatype Step = Step(page: Page, effects: seq<Effect>)

  /** The page as first mounted, after the stored history is removed. */
  const Initial: Page := Page([], false, [])

  /** `handleSendMessage`: any speech is cancelled, the user's message is appended, the
      typing indicator turns on, and a reply is scheduled. */
  function SendMessage(p: Page, text: string, speak: bool): (r: Step)
    ensures |r.page.messages| == |p.messages| + 1 && r.page.messages[..|p.messages|] == p.messages
    ensures r.page.messages[|p.messages|] == Message(text, User)
    ensures r.page.typing
    ensures |r.page.pending| == |p.pending| + 1 && r.page.pending[..|p.pending|] == p.pending
    ensures r.page.pending[|p.pending|] == PendingReply(text, speak)
    ensures r.effects == [CancelSpeech]
  {
    assert (p.messages + [Message(text, User)])[..|p.messages|] == p.messages;
    assert (p.pending + [PendingReply(text, speak)])[..|p.pending|] == p.pending;
    Step(Page(p.messages + [Message(text, User)], true, p.pending + [PendingReply(text, speak)]),
         [CancelSpeech])
  }

  /** The timer callback of the oldest pending reply: the indicator turns off, the reply
      is appended, and it is spoken without its markup when speech was asked for. */
  function ReplyFires(p: Page, rand: Random, calculator: LoanCalculator): (r: Step)
    requires p.pending != []
  {
    var reply := FindResponse(p.pending[0].question, rand, calculator);
    Step(Page(p.messages + [Message(reply, Bot)], false, p.pending[1..]),
         if p.pending[0].speak then [Speak(StripTags(reply))] else [])
  }

  /** `handleClearChat`: speech is cancelled and the conversation emptied; timers already
      set keep running. */
  function ClearChat(p: Page): (r: Step)
    ensures r.page.messages == [] && !r.page.typing
    ensures r.page.pending == p.pending
    ensures r.effects == [CancelSpeech]
  {
    Step(Page([], false, p.pending), [CancelSpeech])
  }

  /** Everything that can happen to the page. `Fire` is the oldest timer going off. */
  datatype Event = Send(text: string, speak: bool) | Fire(rand: Random) | Clear

  /** The page after an event; a `Fire` with no timer set cannot happen and changes nothing. */
  function Handle(p: Page, e: Event, calculator: LoanCalculator): (r: Step)
  {
    match e
    case Send(text, speak) => SendMessage(p, text, speak)
    case Fire(rand) => if p.pending == [] then Step(p, []) else ReplyFires(p, rand, calculator)
    case Clear => ClearChat(p)
  }

  /** The page after a sequence of events, with every effect in order. */
  function Run(p: Page, events: seq<Event>, calculator: LoanCalculator): (r: Step)
    decreases |events|
  {
    if events == [] then Step(p, [])
    else
      var first := Handle(p, events[0], calculator);
      var rest := Run(first.page, events[1..], calculator);
      Step(rest.page, first.effects + rest.effects)
  }

  /** The texts of the messages sent by `who`, in order. */
  function Said(msgs: seq<Message>, who: Sender): (r: seq<string>)
    ensures |r| <= |msgs|
    decreases |msgs|
  {
    if msgs == [] then []
    else
      var last := msgs[|msgs| - 1];
      Said(msgs[..|msgs| - 1], who) + (if last.sender == who then [last.text] else [])
  }

  lemma SaidAppend(msgs: seq<Message>, m: Message, who: Sender)
    ensures Said(msgs + [m], who) == Said(msgs, who) + (if m.sender == who then [m.text] else [])
  {
    assert (msgs + [m])[..|msgs|] == msgs;
  }

  /** `answer` is what the matcher says to `question` for some draw of the random source. */
  ghost predicate Answers(question: string, answer: string, calculator: LoanCalculator) {
    exists rand: Random :: FindResponse(question, rand, calculator) == answer
  }

  /** `Answers` for a fixed calculator, as a relation. */
  ghost function AnswerRelation(calculator: LoanCalculator): (string, string) -> bool {
    (question: string, answer: string) => Answers(question, answer, calculator)
  }

  /** The answered questions come first, in order, each with an answer `ok` accepts; the
      pending replies belong to the remaining questions, in order. */
  predicate Lined(asked: seq<string>, answered: seq<string>, pending: seq<PendingReply>,
                  ok: (string, string) -> bool) {
    && |answered| + |pending| == |asked|
    && (forall k :: 0 <= k < |pending| ==> pending[k].question == asked[|answered| + k])
    && (forall k :: 0 <= k < |answered| ==> ok(asked[k], answered[k]))
  }

  /** Each answered question has one of the matcher's answers. */
  ghost predicate Matched(asked: seq<string>, answered: seq<string>, pending: seq<PendingReply>,
                          calculator: LoanCalculator) {
    Lined(asked, answered, pending, AnswerRelation(calculator))
  }

  /** The conversation is in step: each bot message answers the user message of the same
      rank, the pending replies belong to the unanswered user messages in order, and the
      indicator only shows while a reply is pending. */
  ghost predicate Consistent(p: Page, calculator: LoanCalculator) {
    && (p.typing ==> p.pending != [])
    && Matched(Said(p.messages, User), Said(p.messages, Bot), p.pending, calculator)
  }

  /** A new question joins the end of the pending replies. */
  lemma LinedAsk(asked: seq<string>, answered: seq<string>, pending: seq<PendingReply>,
                 text: string, speak: bool, ok: (string, string) -> bool)
    requires Lined(asked, answered, pending, ok)
    ensures Lined(asked + [text], answered, pending + [PendingReply(text, speak)], ok)
  {
    var asked', pending' := asked + [text], pending + [PendingReply(text, speak)];
    forall k | 0 <= k < |pending'|
      ensures pending'[k].question == asked'[|answered| + k]
    {
      if k < |pending| {
        assert pending'[k] == pending[k];
        assert asked'[|answered| + k] == asked[|answered| + k];
      }
    }
    forall k | 0 <= k < |answered|
      ensures ok(asked'[k], answered[k])
    {
      assert asked'[k] == asked[k];
    }
  }

  /** An accepted answer to the oldest pending question moves it to the answered ones. */
  lemma LinedAnswer(asked: seq<string>, answered: seq<string>, pending: seq<PendingReply>,
                    reply: string, ok: (string, string) -> bool)
    requires Lined(asked, answered, pending, ok) && pending != []
    requires ok(pending[0].question, reply)
    ensures Lined(asked, answered + [reply], pending[1..], ok)
  {
    var answered' := answered + [reply];
    forall k | 0 <= k < |pending| - 1
      ensures pending[1..][k].question == asked[|answered'| + k]
    {
      assert pending[1..][k] == pending[k + 1];
    }
    forall k | 0 <= k < |answered'|
      ensures ok(asked[k], answered'[k])
    {
      if k < |answered| {
        assert answered'[k] == answered[k];
      }
    }
  }

  /** Sending adds the text to what the user has said, adds nothing to what the bot has
      said, and queues a reply to exactly that text; this holds on any page. */
  lemma SendAsks(p: Page, text: string, speak: bool)
    ensures var q := SendMessage(p, text, speak).page;
      && Said(q.messages, User) == Said(p.messages, User) + [text]
      && Said(q.messages, Bot) == Said(p.messages, Bot)
      && q.pending == p.pending + [PendingReply(text, speak)]
  {
    SaidAppend(p.messages, Message(text, User), User);
    SaidAppend(p.messages, Message(text, User), Bot);
  }

  /** On any page, a reply firing appends one bot message holding the matcher's answer to the
      oldest pending question, turns the indicator off, takes that question off the queue, and
      speaks, without markup, only when that question asked to. */
  lemma FireAppends(p: Page, rand: Random, calculator: LoanCalculator)
    requires p.pending != []
    ensures var r := ReplyFires(p, rand, calculator);
      && |r.page.messages| == |p.messages| + 1 && r.page.messages[..|p.messages|] == p.messages
      && r.page.messages[|p.messages|] == Message(FindResponse(p.pending[0].question, rand, calculator), Bot)
      && !r.page.typing && r.page.pending == p.pending[1..]
      && (p.pending[0].speak <==> r.effects != [])
      && (forall e :: e in r.effects ==> e.Speak? && NoTag(e.text))
  {
    var r := ReplyFires(p, rand, calculator);
    assert r.page.messages[..|p.messages|] == p.messages;
  }

  /** Sending appends one user message, leaves the earlier ones alone, and keeps the page in step. */
  lemma SendKeepsConsistent(p: Page, text: string, speak: bool, calculator: LoanCalculator)
    requires Consistent(p, calculator)
    ensures var q := SendMessage(p, text, speak).page;
      && Consistent(q, calculator) && q.typing
      && |q.messages| == |p.messages| + 1 && q.messages[..|p.messages|] == p.messages
      && q.messages[|p.messages|] == Message(text, User)
  {
    SendAsks(p, text, speak);
    LinedAsk(Said(p.messages, User), Said(p.messages, Bot), p.pending, text, speak, AnswerRelation(calculator));
  }

  /** A reply firing appends one bot message answering the oldest unanswered question and
      keeps the page in step. */
  lemma FireKeepsConsistent(p: Page, rand: Random, calculator: LoanCalculator)
    requires Consistent(p, calculator) && p.pending != []
    ensures var q := ReplyFires(p, rand, calculator).page;
      && Consistent(q, calculator) && !q.typing
      && |q.messages| == |p.messages| + 1 && q.messages[..|p.messages|] == p.messages
      && q.messages[|p.messages|].sender == Bot
      && Answers(p.pending[0].question, q.messages[|p.messages|].text, calculator)
  {
    var reply := FindResponse(p.pending[0].question, rand, calculator);
    assert Answers(p.pending[0].question, reply, calculator);
    AnswerKeepsConsistent(p, reply, calculator);
  }

  /** Appending an answer to the oldest pending question keeps the page in step. */
  lemma AnswerKeepsConsistent(p: Page, reply: string, calculator: LoanCalculator)
    requires Consistent(p, calculator) && p.pending != []
    requires Answers(p.pending[0].question, reply, calculator)
    ensures Consistent(Page(p.messages + [Message(reply, Bot)], false, p.pending[1..]), calculator)
  {
    SaidAppend(p.messages, Message(reply, Bot), User);
    SaidAppend(p.messages, Message(reply, Bot), Bot);
    LinedAnswer(Said(p.messages, User), Said(p.messages, Bot), p.pending, reply, AnswerRelation(calculator));
  }

  /** Clearing with no reply pending empties the page, which is then in step. */
  lemma ClearKeepsConsistent(p: Page, calculator: LoanCalculator)
    requires p.pending == []
    ensures Consistent(ClearChat(p).page, calculator)
    ensures ClearChat(p).page == Initial
  {
  }

  /** Events that keep replies attached to their questions: a clear only when no reply is pending. */
  predicate CalmClears(p: Page, events: seq<Event>, calculator: LoanCalculator)
    decreases |events|
  {
    events == [] ||
    ((events[0].Clear? ==> p.pending == []) &&
     CalmClears(Handle(p, events[0], calculator).page, events[1..], calculator))
  }

  /** From a consistent page, a run that never clears under a pending reply ends consistent:
      every bot message answers the user message of the same rank. */
  lemma {:induction false} RunKeepsConsistent(p: Page, events: seq<Event>, calculator: LoanCalculator)
    requires Consistent(p, calculator) && CalmClears(p, events, calculator)
    ensures Consistent(Run(p, events, calculator).page, calculator)
    decreases |events|
  {
    if events != [] {
      HandleKeepsConsistent(p, events[0], calculator);
      RunKeepsConsistent(Handle(p, events[0], calculator).page, events[1..], calculator);
    }
  }

  /** One event keeps the page in step, unless it is a clear with a reply pending. */
  lemma HandleKeepsConsistent(p: Page, e: Event, calculator: LoanCalculator)
    requires Consistent(p, calculator) && (e.Clear? ==> p.pending == [])
    ensures Consistent(Handle(p, e, calculator).page, calculator)
  {
    match e {
      case Send(text, speak) => SendKeepsConsistent(p, text, speak, calculator);
      case Fire(rand) =>
        if p.pending != [] {
          FireKeepsConsistent(p, rand, calculator);
        }
      case Clear => ClearKeepsConsistent(p, calculator);
    }
  }

  /** Clearing does not cancel a pending reply: when it fires, the emptied conversation
      holds that single bot message. */
  lemma ReplyOutlivesClear(p: Page, rand: Random, calculator: LoanCalculator)
    requires p.pending != []
    ensures var q := ReplyFires(ClearChat(p).page, rand, calculator).page;
      && q.messages == [Message(FindResponse(p.pending[0].question, rand, calculator), Bot)]
      && Said(q.messages, User) == [] && |Said(q.messages, Bot)| == 1
      && !Consistent(q, calculator)
  {
    var q := ReplyFires(ClearChat(p).page, rand, calculator).page;
    SaidAppend([], q.messages[0], User);
    SaidAppend([], q.messages[0], Bot);
    assert [] + [q.messages[0]] == q.messages;
  }

  /** `handleClearChat` as evidently meant: the reply timers are cleared too. */
  function ClearChatCancelling(p: Page): (r: Step)
    ensures r.page == Initial && r.effects == [CancelSpeech]
  {
    Step(Page([], false, []), [CancelSpeech])
  }

  /** The page with the corrected clear. */
  function HandleCancelling(p: Page, e: Event, calculator: LoanCalculator): (r: Step)
    ensures !e.Clear? ==> r == Handle(p, e, calculator)
    ensures e.Clear? ==> r.page == Initial
  {
    if e.Clear? then ClearChatCancelling(p) else Handle(p, e, calculator)
  }

  function RunCancelling(p: Page, events: seq<Event>, calculator: LoanCalculator): (r: Step)
    decreases |events|
  {
    if events == [] then Step(p, [])
    else
      var first := HandleCancelling(p, events[0], calculator);
      var rest := RunCancelling(first.page, events[1..], calculator);
      Step(rest.page, first.effects + rest.effects)
  }

  /** With the corrected clear, every sequence of events keeps the page in step. */
  lemma {:induction false} RunCancellingKeepsConsistent(p: Page, events: seq<Event>, calculator: LoanCalculator)
    requires Consistent(p, calculator)
    ensures Consistent(RunCancelling(p, events, calculator).page, calculator)
    decreases |events|
  {
    if events != [] {
      match events[0] {
        case Send(text, speak) => SendKeepsConsistent(p, text, speak, calculator);
        case Fire(rand) =>
          if p.pending != [] {
            FireKeepsConsistent(p, rand, calculator);
          }
        case Clear => InitialConsistent(calculator);
      }
      RunCancellingKeepsConsistent(HandleCancelling(p, events[0], calculator).page, events[1..], calculator);
    }
  }

  /** Speech is cancelled by sending and clearing, and asked for only when a reply fires
      whose question wanted speech; what is spoken is the reply without markup. */
  lemma SpeechOnlyForReplies(p: Page, e: Event, calculator: LoanCalculator)
    ensures e.Send? || e.Clear? ==> Handle(p, e, calculator).effects == [CancelSpeech]
    ensures forall k :: 0 <= k < |Handle(p, e, calculator).effects| && Handle(p, e, calculator).effects[k].Speak? ==>
      && e.Fire? && p.pending != [] && p.pending[0].speak
      && Handle(p, e, calculator).effects[k].text
         == StripTags(FindResponse(p.pending[0].question, e.rand, calculator))
      && NoTag(Handle(p, e, calculator).effects[k].text)
  {
  }

  /** A reply that wanted speech is spoken once, as the reply without its markup. */
  lemma SpokenReply(p: Page, rand: Random, calculator: LoanCalculator)
    requires p.pending != [] && p.pending[0].speak
    ensures ReplyFires(p, rand, calculator).effects
      == [Speak(StripTags(FindResponse(p.pending[0].question, rand, calculator)))]
  {
  }

  /** What the input box sends lands at the end of the conversation as the user's message,
      never blank and untrimmed, with the reply to be spoken as the speaker toggle said. */
  lemma SubmitReachesPage(b: ChatInput.InputBox, p: Page)
    requires ChatInput.Submit(b).sent.Some?
    ensures var o := ChatInput.Submit(b).sent.value;
      var q := SendMessage(p, o.text, o.speak).page;
      && q.messages[|q.messages| - 1] == Message(b.input, User)
      && !AllSpace(q.messages[|q.messages| - 1].text)
      && q.pending[|q.pending| - 1] == PendingReply(b.input, b.speechEnabled)
  {
  }

  /** The starting page is in step. */
  lemma InitialConsistent(calculator: LoanCalculator)
    ensures Consistent(Initial, calculator)
  {
  }
}

# BoltAI banking chat — a Dafny model

This project models the core of a small banking chat assistant written for the browser. The
user types a question, or dictates it through speech recognition. After a one-second "thinking"
delay, a rule-based matcher answers from a fixed knowledge base. The answer is revealed one
UTF-16 code unit at a time. Its `<Link …>` markup becomes in-app links, and when the loudspeaker
toggle is on it is read aloud without its markup.

The modules follow the program's files:

| module | file | models |
|---|---|---|
| `Wrappers` | `wrappers.dfy` | `Option` and `Result` |
| `JsString` | `js_string.dfy` | the string operations the program calls: `includes`, `startsWith`, `trim`, `toLowerCase` (ASCII) and `split` on one character; a `Join` that exists only to state that `split` loses nothing; and the UTF-16 code units that a string's `length` and indices count |
| `KnowledgeBase` | `knowledge_base.dfy` | the answer tables, the fixed prompts and templates, the keyword categories and their order |
| `Responses` | `responses.dfy` | `getRandomResponse`, `isLoanCalculation`, the digit-run extraction `match(/\d+/g)`, and `findResponse` rule by rule |
| `MatcherProperties` | `matcher_properties.dfy` | rule precedence, what each rule answers, and exactly which inputs reach the fallback |
| `MatcherExamples` | `matcher_examples.dfy` | concrete questions and their answers |
| `ChatInput` | `chat_input.dfy` | the input box: submit, Enter key, microphone and loudspeaker toggles, recognizer events |
| `Chat` | `chat.dfy` | the page: sending, the reply timer, clearing, the speech tag strip, and the voice choice |
| `ChatMessage` | `chat_message.dfy` | `formatMessageWithLinks` (link path and plain path) and the typewriter reveal |
| `AccountReplies` | `account_replies.dfy` | how the three account answers are shown and spoken |

Some things become parameters:

- `Math.random()` becomes a `Random` argument, a real in `[0, 1)`.
- The floating-point loan formula becomes a `LoanCalculator` argument. It maps amount, rate and
  years to the two formatted amounts.
- The URL split of the plain path becomes a `UrlSplitter` argument. It yields the pieces as the
  web-address pattern classifies them.
- Timers become events: `Fire` for the one-second reply timer, and `Tick` for the 30 ms
  typewriter timer.
- Speech synthesis becomes the effects `CancelSpeech` and `Speak(text)`.
- Speech recognition becomes the commands `StartRecognition`/`StopRecognition` and the events
  `Heard(transcript)`/`RecognizerStopped`.

## Model

| member | source | states |
|---|---|---|
| JsString.ToLower | project/src/data/responses.js:56-60 | `toLowerCase` keeps the length and lowers every character on its own |
| JsString.Trim | project/src/components/ChatInput.jsx:36 | `trim` gives the input with its leading and trailing white space cut off, so the result neither starts nor ends with white space |
| JsString.Split | project/src/components/ChatMessage.jsx:73 | `split('\n')` gives at least one part and no part holds a newline |
| JsString.TrimEmptyIff | project/src/components/ChatInput.jsx:36 | `input.trim()` is empty exactly when every character of the input is white space |
| JsString.JoinSplit | project/src/components/ChatMessage.jsx:73-78 | splitting a text at newlines and joining the lines with newlines gives the text back, so the line rendering loses nothing |
| JsString.CharUnits | project/src/components/ChatMessage.jsx:10-12 | a character is one code unit below U+10000, and above it a high surrogate followed by a low one |
| JsString.Utf16RoundTrip | project/src/components/ChatMessage.jsx:10-21 | decoding the code units of any text gives the text back |
| JsString.Utf16EndsWhole | project/src/components/ChatMessage.jsx:10-12 | the code units of a string never end in a high surrogate |
| KnowledgeBase.FallbackIsDistinct | project/src/data/responses.js:122-129 | the fallback text differs from every category reply, every account answer and the loan prompt, so a fallback answer identifies a question no rule applied to |
| KnowledgeBase.TemplatesUnlikeFallback | project/src/data/responses.js:106-120 | the calculator text and the "what is" / "how to" templates never coincide with the fallback, whatever the topic or amounts |
| Responses.RandomIndex | project/src/data/responses.js:52 | `Math.floor(Math.random() * n)` is a valid index below `n`: the cell of the unit interval, cut into `n` cells, that the draw falls in |
| Responses.RandomResponse | project/src/data/responses.js:51-53 | the chosen reply is one of the entries of the list |
| Responses.DigitRunsAreMaximal | project/src/data/responses.js:63 | the numbers `match(/\d+/g)` finds are the maximal digit runs: non-empty, all digits, separated by non-empty digit-free gaps, and together with the gaps they rebuild the input |
| Responses.DigitRunsAppend | project/src/data/responses.js:63 | digit runs never merge across a boundary where one side is a non-digit: the runs of a concatenation are the runs of its halves |
| Responses.NoDigitRuns | project/src/data/responses.js:63-64 | a text without digits yields no numbers, which is the `null` case the guard handles |
| Responses.SingleDigitRun | project/src/data/responses.js:63 | a non-empty all-digit text is exactly one number |
| Responses.NumberDecimal | project/src/data/responses.js:65 | `Number` reads the decimal numeral of any `n` back as `n` |
| Responses.DecimalRun | project/src/data/responses.js:63-65 | a numeral alone is one digit run, and that run is read as the number it writes |
| Responses.LoanAnswer | project/src/data/responses.js:62-68 | a loan calculation gets the prompt exactly when fewer than three numbers are given |
| Responses.AccountAnswer | project/src/data/responses.js:70-80 | the account rule answers exactly when the text is about accounts or banking and names an account type, and then only with one of the three account answers |
| Responses.FirstCategory | project/src/data/responses.js:82-104 | no category is chosen exactly when no keyword of any category occurs; otherwise the chosen one is the first in the rule order with a keyword present |
| Responses.TemplateAnswer | project/src/data/responses.js:106-129 | the last rules give the fallback exactly when the lower-cased input starts with none of "what is", "what are", "how to", "how do" |
| Responses.CategoryAnswer | project/src/data/responses.js:82-129 | the category and template rules always give a non-empty answer |
| Responses.FindResponse | project/src/data/responses.js:59-130 | every input, blank input included, gets a non-empty answer |
| MatcherProperties.LoanCalculationFirst | project/src/data/responses.js:62-68 | a loan calculation is answered by the first rule alone: the calculator on the first three numbers, or the prompt; the random draw never matters |
| MatcherProperties.AccountTypePrecedence | project/src/data/responses.js:70-80 | account questions try savings, then checking, then money market; naming none of them falls through to the later rules |
| MatcherProperties.FirstCategoryWins | project/src/data/responses.js:82-104 | when the first two rules do not apply, the answer is a random reply of the first category in rule order with a keyword present |
| MatcherProperties.FirstHitUnique | project/src/data/responses.js:82-104 | the first category hit is unique |
| MatcherProperties.HiAnywhereGreets | project/src/data/responses.js:98-100 | the greeting test is a bare substring test: any input containing "hi" that no earlier rule claims is answered with a greeting |
| MatcherProperties.RemoveLeadingWhat | project/src/data/responses.js:107 | when the input starts with "what is" or "what are" in any case, `replace(/what (is\|are)/i, '')` removes exactly that phrase |
| MatcherProperties.RemoveLeadingHow | project/src/data/responses.js:114 | when the input starts with "how to" or "how do" in any case, the replace removes exactly that phrase |
| MatcherProperties.ReachesTemplates | project/src/data/responses.js:59-111 | with no loan, account or category rule applying, the answer is the template rules' answer |
| MatcherProperties.WhatIsTemplate | project/src/data/responses.js:106-111 | a leading "what is" / "what are" is answered by the explanation template around the trimmed rest of the input |
| MatcherProperties.WhatIsAnswer | project/src/data/responses.js:106-111 | the template rules answer a leading "what is" / "what are" with the explanation around the rest of the input |
| MatcherProperties.HowToTemplate | project/src/data/responses.js:113-120 | a leading "how to" / "how do" is answered by the guide template around the trimmed rest of the input |
| MatcherProperties.HowToAnswer | project/src/data/responses.js:113-120 | the template rules answer a leading "how to" / "how do" with the guide around the rest of the input |
| MatcherProperties.CategoryAnswerFallback | project/src/data/responses.js:82-129 | the category and template rules fall back exactly when no keyword occurs and the input asks neither "what" nor "how" |
| MatcherProperties.FallbackExactlyWhenNoRule | project/src/data/responses.js:59-130 | the fallback is the answer if and only if no rule applies to the input |
| MatcherProperties.NothingVisibleInBlank | project/src/data/responses.js:60-120 | no keyword or phrase that starts with a visible character occurs in white space |
| MatcherProperties.BlankMatchesNoRule | project/src/data/responses.js:59-130 | no rule applies to white space alone |
| MatcherProperties.BlankInputFallback | project/src/data/responses.js:122-129 | empty and white-space-only input gets the fallback |
| MatcherExamples.HelloGreets | project/src/data/responses.js:98-100 | "hello" is answered with a greeting |
| MatcherExamples.WhatIsThisGreets | project/src/data/responses.js:98-111 | "what is this" is answered with a greeting, not the explanation template, because "this" contains "hi" |
| MatcherExamples.SavingsQuestion | project/src/data/responses.js:70-73 | "open a savings account" gets the savings answer |
| MatcherExamples.LoanFigures | project/src/data/responses.js:62-65 | "calculate loan 10000 5 3" asks the calculator for amount 10000, rate 5 and 3 years |
| MatcherExamples.DecimalRateIsTwoNumbers | project/src/data/responses.js:63-67 | a decimal rate counts as two numbers, so "calculate my loan at 5.5" gets the prompt |
| ChatInput.Initial | project/src/components/ChatInput.jsx:5-7 | the box starts empty, not listening, with speech on |
| ChatInput.Submit | project/src/components/ChatInput.jsx:35-40 | a message is sent exactly when the input is not blank; it is the untrimmed input with the speaker setting, and the field is emptied; a blank submit changes nothing |
| ChatInput.KeyPress | project/src/components/ChatInput.jsx:42-46 | only the Enter key submits; any other key changes nothing |
| ChatInput.ToggleListening | project/src/components/ChatInput.jsx:48-58 | without a recognizer nothing happens; otherwise listening flips, stopping issues a stop, and starting issues a start and empties the field |
| ChatInput.ToggleSpeech | project/src/components/ChatInput.jsx:60-62 | only the speaker setting flips |
| ChatInput.Handle | project/src/components/ChatInput.jsx:17-29 | only the send button and the keyboard can send a message; typing, the toggles and the recognizer's events never do, and no event changes whether a recognizer exists |
| ChatInput.HandleKeepsValid | project/src/components/ChatInput.jsx:48-49 | a box without a recognizer never starts listening |
| ChatInput.RunSendsOnlyVisibleText | project/src/components/ChatInput.jsx:35-40 | over any sequence of events, no blank message is ever sent |
| ChatInput.SubmitTwiceSendsOnce | project/src/components/ChatInput.jsx:35-40 | a second submit straight after a successful one sends nothing |
| ChatInput.BlankSubmitChangesNothing | project/src/components/ChatInput.jsx:35-46 | white-space input, submitted by button or Enter, leaves the box exactly as it was |
| ChatInput.ToggleSpeechInvolution | project/src/components/ChatInput.jsx:60-62 | toggling speech twice restores the box |
| ChatInput.ToggleListeningTwice | project/src/components/ChatInput.jsx:48-58 | toggling the microphone twice restores the listening flag; starting to listen loses the typed input |
| Chat.StripTags | project/src/pages/Chat.jsx:44 | the spoken text is no longer than the reply, uses only its characters, and holds no tag |
| Chat.StripTagsKeepsPlainText | project/src/pages/Chat.jsx:44 | text without markup is spoken as written |
| Chat.StripTagsFixedIff | project/src/pages/Chat.jsx:44 | stripping changes the text exactly when it holds markup |
| Chat.StripTagsIdempotent | project/src/pages/Chat.jsx:44 | stripping twice is stripping once, and text without `<` is left alone |
| Chat.StripTagsPrefix | project/src/pages/Chat.jsx:44 | text before the first `<` is spoken as written |
| Chat.StripTagsDropsTag | project/src/pages/Chat.jsx:44 | a tag, from `<` to its first `>`, is dropped whole |
| Chat.StripLinkElement | project/src/pages/Chat.jsx:44 | a link element is spoken as its caption |
| Chat.ChooseVoice | project/src/pages/Chat.jsx:19-30 | the chosen voice is the first preferred voice when there is one, otherwise index 0 |
| Chat.SendMessage | project/src/pages/Chat.jsx:61-72 | sending cancels speech, appends the user's message after the earlier ones, turns the indicator on, and queues one reply to that text with its speak flag |
| Chat.SendAsks | project/src/pages/Chat.jsx:61-72 | on any page, sending adds the text to what the user has said, adds nothing to what the bot has said, and queues a reply to exactly that text |
| Chat.FireAppends | project/src/pages/Chat.jsx:75-90 | on any page, a firing timer appends, after the earlier messages, one bot message holding `findResponse` of the oldest pending question, turns the indicator off and takes that question off the queue; it speaks, without markup, exactly when that question asked for speech |
| Chat.ClearChat | project/src/pages/Chat.jsx:93-98 | clearing cancels speech, empties the conversation and turns the indicator off, but leaves the pending replies as they are |
| Chat.SendKeepsConsistent | project/src/pages/Chat.jsx:61-72 | sending appends exactly one user message, keeps the earlier ones, shows the indicator, and keeps every bot answer paired with its question |
| Chat.FireKeepsConsistent | project/src/pages/Chat.jsx:75-90 | a firing timer appends the matcher's answer to the oldest unanswered question and keeps the pairing |
| Chat.ClearKeepsConsistent | project/src/pages/Chat.jsx:93-98 | clearing with no reply pending gives back the starting page |
| Chat.RunKeepsConsistent | project/src/pages/Chat.jsx:61-98 | any run that never clears while a reply is pending keeps each bot message answering the user message of the same rank |
| Chat.HandleKeepsConsistent | project/src/pages/Chat.jsx:61-98 | one event keeps every bot message paired with its question, unless it is a clear with a reply pending |
| Chat.ReplyOutlivesClear | project/src/pages/Chat.jsx:75-98 | clearing does not stop a pending reply: when it fires, the emptied chat holds one bot answer and no question |
| Chat.ClearChatCancelling | project/src/pages/Chat.jsx:93-98 | the corrected clear cancels speech and returns the starting page, with no reply pending |
| Chat.HandleCancelling | project/src/pages/Chat.jsx:93-98 | the corrected page differs from the original only in clearing |
| Chat.RunCancellingKeepsConsistent | project/src/pages/Chat.jsx:61-98 | with the corrected clear, every sequence of events keeps each answer paired with its question |
| Chat.SpeechOnlyForReplies | project/src/pages/Chat.jsx:61-98 | sending and clearing cancel speech; speech is asked for only when a reply fires whose question wanted it, and carries no markup |
| Chat.SpokenReply | project/src/pages/Chat.jsx:87-89 | a reply that wanted speech is spoken once, as the reply without its markup |
| Chat.SubmitReachesPage | project/src/components/ChatInput.jsx:35-37 | what the box sends lands at the end of the conversation as a non-blank user message, with its reply pending as the speaker setting said |
| Chat.InitialConsistent | project/src/pages/Chat.jsx:14-16 | the starting page is in step |
| ChatMessage.LinkCloseFrom | project/src/components/ChatMessage.jsx:26 | the lazy `.*?<\/Link>` ends inside the text, after a whole closing tag |
| ChatMessage.LinkCloseFound | project/src/components/ChatMessage.jsx:26 | the lazy match stops at the first `</Link>`, crossing no line terminator |
| ChatMessage.LinkCloseMissing | project/src/components/ChatMessage.jsx:26 | the lazy match fails only when a line terminator or the end of the text comes before every `</Link>` |
| ChatMessage.LinkMatchAt | project/src/components/ChatMessage.jsx:26 | a match of the link pattern starts with `<Link` and holds at least the two tags |
| ChatMessage.FirstLinkFrom | project/src/components/ChatMessage.jsx:26 | the match found is a real match of the link pattern |
| ChatMessage.FirstLinkLeftmost | project/src/components/ChatMessage.jsx:26 | the match found is the leftmost one, and when none is found there is none |
| ChatMessage.SplitLinks | project/src/components/ChatMessage.jsx:26 | `split` with the capturing link pattern alternates text and matches, every match starts with `<Link`, and the parts concatenate back to the text |
| ChatMessage.SplitLinksShape | project/src/components/ChatMessage.jsx:26 | `split` cuts exactly at the matches: every odd part is one whole match of the link pattern, and no match of the pattern in the whole text starts at a position inside a text part |
| ChatMessage.SplitShapeUnique | project/src/components/ChatMessage.jsx:26 | the split is the only way to cut the text into alternating text parts and matches that rebuild it, with every odd part a whole match and no match starting inside a text part |
| ChatMessage.ToAttrFrom | project/src/components/ChatMessage.jsx:29 | an empty target is only ever read from a double-quoted `to=""` |
| ChatMessage.ToAttrLeftmost | project/src/components/ChatMessage.jsx:29 | the target read is that of the leftmost `to='…'` or `to="…"` attribute; an empty single-quoted one gives `undefined` and an empty double-quoted one gives the empty string |
| ChatMessage.ToAttrNone | project/src/components/ChatMessage.jsx:29 | no target is read exactly when no quoted `to` attribute occurs, which is when `match` returns `null` |
| ChatMessage.FormatLinkPart | project/src/components/ChatMessage.jsx:28-41 | a part not starting with `<Link` stays text; a `<Link` part with a `to` attribute becomes a link to the target that attribute holds, showing the part without its tags; formatting fails, with the `TypeError` of reading `null[1]`, exactly when a `<Link` part has no `to` attribute |
| ChatMessage.FormatLinkParts | project/src/components/ChatMessage.jsx:27-42 | the parts succeed together or the message fails; on success each part maps to its own segment, in order |
| ChatMessage.RenderAppend | project/src/components/ChatMessage.jsx:27-42 | the shown text of a concatenation is the concatenation of the shown texts |
| ChatMessage.FormatPiece | project/src/components/ChatMessage.jsx:48-78 | empty pieces vanish; an address becomes one web link that shows the address, whose target is the address with `https://` in front when it starts with `www.` and the address itself otherwise; plain text becomes no link and no text segment holds a newline |
| ChatMessage.FormatPieces | project/src/components/ChatMessage.jsx:48-79 | the same, for all pieces of the address split |
| ChatMessage.LinesRender | project/src/components/ChatMessage.jsx:73-78 | lines rendered with their breaks show the lines joined by newlines |
| ChatMessage.PieceRender | project/src/components/ChatMessage.jsx:49-78 | a piece shows as its own text: empty pieces vanish, and addresses show as written even when `https://` is added to the target |
| ChatMessage.PiecesRender | project/src/components/ChatMessage.jsx:45-79 | the plain path loses no text: it shows the pieces it was given |
| ChatMessage.PlainMessage | project/src/components/ChatMessage.jsx:24-79 | text without `<Link` never fails, never becomes an in-app link, and shows exactly as written when the address split covers it |
| ChatMessage.FormatMessage | project/src/components/ChatMessage.jsx:24-80 | only text holding `<Link` can fail, and only with the `TypeError` of a missing target; text without `<Link` never becomes an in-app link; text with it becomes only text and in-app links |
| ChatMessage.SplitWithoutTags | project/src/components/ChatMessage.jsx:26 | a text without `<` is a single part |
| ChatMessage.SplitLinkElement | project/src/components/ChatMessage.jsx:26 | a clean link element between plain texts splits into the text before, the element, and the text after |
| ChatMessage.TargetOfElement | project/src/components/ChatMessage.jsx:29 | the element's target is read back from its `to` attribute |
| ChatMessage.CaptionOfElement | project/src/components/ChatMessage.jsx:30 | removing the tags of an element leaves its caption |
| ChatMessage.ElementPartFormats | project/src/components/ChatMessage.jsx:28-39 | the element formats as an in-app link with its own target and caption |
| ChatMessage.LinkElementFormats | project/src/components/ChatMessage.jsx:24-43 | a clean link element between plain texts shows as the text before, a link with the element's target and caption, and the text after, whatever the address split |
| ChatMessage.BareLinkTagFails | project/src/components/ChatMessage.jsx:28-29 | a message that is just `<Link` cannot be formatted: reading its missing target throws |
| ChatMessage.FormatLinkPartSafe | project/src/components/ChatMessage.jsx:28-41 | the corrected part formatter agrees with the original where that succeeds, and makes links only from `<Link` parts |
| ChatMessage.FormatLinkPartsSafe | project/src/components/ChatMessage.jsx:27-42 | the corrected formatter maps each part to its own segment, in order |
| ChatMessage.FormatMessageSafe | project/src/components/ChatMessage.jsx:24-79 | the corrected formatter never fails and agrees with the original wherever the original succeeds |
| ChatMessage.BareLinkTagShown | project/src/components/ChatMessage.jsx:28-29 | the corrected formatter shows a bare `<Link` as the text it is |
| ChatMessage.Start | project/src/components/ChatMessage.jsx:6-7 | a fresh typewriter holds the reply's code units and shows nothing |
| ChatMessage.NextReveal | project/src/components/ChatMessage.jsx:9-19 | the effect schedules a tick exactly while code units remain, and calls `onComplete` exactly when all are out and a callback was given |
| ChatMessage.Tick | project/src/components/ChatMessage.jsx:11-13 | one tick reveals the next code unit, keeping the shown units a prefix of the reply's |
| ChatMessage.TicksReveal | project/src/components/ChatMessage.jsx:9-19 | after `n` ticks the first `min(n, length)` code units are shown, where the length is the reply's `length` in UTF-16 units, and scheduling stops exactly when the whole reply is out |
| ChatMessage.RevealComplete | project/src/components/ChatMessage.jsx:9-21 | once every code unit is out, the text shown is the reply itself |
| ChatMessage.AstralHalfShown | project/src/components/ChatMessage.jsx:10-21 | a reply of one card emoji (U+1F4B3) takes two ticks; after the first, the formatter is handed a lone high surrogate, which is no string's encoding and shows as U+FFFD |
| AccountReplies.SavingsReplyFormats | project/src/data/responses.js:6 | the savings answer shows as its introduction, a link to `/open-account` captioned "Click here", and a full stop |
| AccountReplies.CheckingReplyFormats | project/src/data/responses.js:7 | the checking answer shows as its introduction, a link to `/open-account` captioned "Open an account now", and a full stop |
| AccountReplies.MoneyMarketReplyFormats | project/src/data/responses.js:8 | the money market answer shows as its introduction, a link to `/open-account` captioned "Start your application", and a full stop |
| AccountReplies.AccountRepliesSpoken | project/src/pages/Chat.jsx:44 | each account answer is spoken as its introduction, the link caption, and a full stop |

## Left out

- The loan formula (project/src/data/responses.js:38-47) is floating-point arithmetic with `toFixed(2)`. It is a `LoanCalculator` parameter. Its `catch` branch is not modelled: the arithmetic never throws.
- `Math.random()` is a `Random` parameter, and no distribution is modelled.
- `toLowerCase` lowers ASCII letters only. Other Unicode case mappings are not modelled. `trim` uses the full ECMAScript white-space and line-terminator set.
- `Number(run)` is exact. JavaScript rounds digit runs longer than about 15 digits to the nearest double.
- The web-address pattern of the plain path is an oracle (`UrlSplitter`). This includes the statefulness of `test` on a global pattern: the classification of each piece is taken as given.
- React rendering, keys, CSS classes, icons, scrolling and the typing-indicator bubble are not modelled. Messages are text and segments.
- Message ids and timestamps from `Date.now()` are not modelled.
- `localStorage.removeItem` has no observable effect in the model: nothing else reads the store.
- Speech synthesis beyond cancel and speak is not modelled: utterance rate, pitch and volume, and the voice assignment inside `speakMessage`. Neither is the `onvoiceschanged` registration. Only the choice of voice index is modelled (`Chat.ChooseVoice`).
- Speech recognition settings (`continuous`, `interimResults`, `lang`) are not modelled. Only the first alternative of the first result arrives, as `Heard(transcript)`.
- Timer cancellation on unmount is not modelled. Neither is the typewriter restarting when its `text` prop changes: each bot message gets its own typewriter from `Start`.
- A `Fire` event with no pending reply cannot happen in the program. The model gives it no effect.
- Chat.ReplyFires, Chat.Handle and Chat.Run carry no `ensures` of their own. Chat.FireAppends states what a firing reply does on any page; the other Chat lemmas state the rest.
- A lone surrogate is shown as U+FFFD (`JsString.FromUtf16`), as browsers draw it. How a browser draws text is otherwise not modelled.
- Responses.IsLoanCalculation carries no `ensures`: it is the predicate itself. Its use as the first rule is stated by MatcherProperties.LoanCalculationFirst.
- Responses.DigitRuns carries no `ensures`. What it yields is stated by Responses.DigitRunsAreMaximal, Responses.DigitRunsAppend, Responses.NoDigitRuns and Responses.SingleDigitRun.
- Responses.Number carries no `ensures`. Responses.NumberDecimal states that it reads back every decimal numeral, and Responses.DecimalRun states the same for a numeral found as a digit run.
- Responses.RemoveFirstPhrase carries no `ensures`. MatcherProperties.RemoveLeadingWhat and MatcherProperties.RemoveLeadingHow state what it removes when the input starts with the phrase, which is the only case the templates reach. Removal of a phrase later in the input is not stated.
- ChatMessage.Ticks carries no `ensures`. ChatMessage.TicksReveal states what `n` ticks show and when scheduling stops.
- ChatMessage.RemoveLinkTags states only that the result is no longer than its input. Its effect on link elements is stated by ChatMessage.CaptionOfElement.
- Responses.FindResponse states only that the answer is non-empty. Its rule-by-rule behaviour is stated by the MatcherProperties lemmas.
- project/src/App.tsx and project/src/pages/OpenAccount.tsx (routing and the account form) are not part of this model.

## Findings

| source | as written | input that shows it | evidently intended | confidence | as-written member | corrected member |
|---|---|---|---|---|---|---|
| project/src/components/ChatMessage.jsx:28-29 | every part starting with `<Link` is assumed to carry a `to` attribute; when it does not, `match` returns `null` and reading `[1]` throws while the message renders | the user sends `<Link` (the user's own messages go through the formatter) | a part without a target is shown as plain text | not executed | ChatMessage.BareLinkTagFails | ChatMessage.FormatMessageSafe |
| project/src/pages/Chat.jsx:93-98 | clearing empties the conversation but does not clear the pending one-second reply timers | send "hello", then clear within one second: the greeting appears alone in the emptied chat, answering no visible question | clearing also drops the replies still pending | not executed | Chat.ReplyOutlivesClear | Chat.RunCancellingKeepsConsistent |

# Chat widget of the AI creative hub, in Dafny

This project models the scripted assistant of the portfolio site: the
`AIChatbot` React component in `src/components/AIChatbot.tsx`. It has two
parts.

- **The responder** (`responder.dfy`, module `Responder`). It lower-cases the
  text the visitor sent, then runs a fixed chain of substring tests and picks
  one of five canned replies: introduction, projects, contact, hello, or the
  default. The greeting table and the quick-reply table live here too.
  `Classify` picks the category of the reply and `Respond` gives its text.
  The lemmas show:
  - the chain's priority order (first match wins);
  - that the default reply is chosen exactly when none of the thirteen
    keywords occurs;
  - that case and surrounding white space do not matter;
  - which category each quick reply lands in.
  Sample utterances are in `samples.dfy` (module `ResponderSamples`).
- **The session** (`session.dfy`, module `Session`). The class `ChatWidget`
  holds the component's state fields: `isOpen`, `messages`, `input`,
  `isTyping` and `hasGreeted`. Its methods are the events that change them:
  - the chat button;
  - typing in the input box;
  - submitting the form;
  - pressing a quick reply;
  - the two timers firing.

  Each timer is an explicit event. Starting one queues what it will deliver
  (`pendingGreetings`, `pendingReplies`); `DeliverGreeting` and
  `DeliverReply` are the timers firing, oldest first. The invariant `Valid`
  says that the greeting heads the log and is followed by questions, each
  answered by the reply the responder picks for it. The widget keeps this
  invariant once the greeting timer is cancelled on close
  (`ToggleCancelling`). The toggle as written does not keep it: see
  Findings.

`text.dfy` (module `Text`) restates the JavaScript string operations the
component uses:
- `trim`, with the ECMAScript white-space and line-terminator set;
- `toLowerCase`, for ASCII letters;
- `includes`, as a left-to-right scan, characterised by occurrence at an
  offset.

`seqs.dfy` (module `Seqs`) holds small facts about sequence concatenation.

The value `Math.random()` returns is a parameter `u` in [0, 1) of the
toggle. Message ids (`Date.now()`) are not modelled.

The log is not append-only as written. The greeting timer replaces the
whole log (line 37), and a second greeting timer can be running when the
first fires. The model follows the code here.

## Model

| member | source | states |
|---|---|---|
| Text.LowerChar | src/components/AIChatbot.tsx:61 | lower-casing yields no upper-case ASCII letter; upper-case letters move down by 32, every other character is kept |
| Text.Lower | src/components/AIChatbot.tsx:61 | `toLowerCase` keeps the length and lowers each character in place |
| Text.LowerIdempotent | src/components/AIChatbot.tsx:61 | lower-casing twice is lower-casing once |
| Text.LowerAbsent | src/components/AIChatbot.tsx:61 | a lower-case letter absent from the text in both cases is absent from the lower-cased text |
| Text.TrimStart | src/components/AIChatbot.tsx:45 | the result is a suffix, everything dropped is white space, and it does not start with white space |
| Text.TrimEnd | src/components/AIChatbot.tsx:45 | the result is a prefix, everything dropped is white space, and it does not end with white space |
| Text.Trim | src/components/AIChatbot.tsx:45 | `trim` is empty exactly when the text is all white space, otherwise it starts and ends with a non-space character |
| Text.TrimWindow | src/components/AIChatbot.tsx:49 | the trimmed text is a window of the text with only white space outside it |
| Text.TrimIdempotent | src/components/AIChatbot.tsx:45-49 | trimming twice is trimming once |
| Text.Contains | src/components/AIChatbot.tsx:62-69 | `includes` always finds the empty pattern and never finds one longer than the text; `ContainsIff` characterises it fully |
| Text.ContainsIff | src/components/AIChatbot.tsx:62-69 | the `includes` scan succeeds exactly when the pattern occurs at some offset |
| Text.MissingChar | src/components/AIChatbot.tsx:62-69 | a pattern holding a character the text lacks is not included |
| Text.ContainsWindow | src/components/AIChatbot.tsx:62-69 | a pattern with non-space ends is included in a text exactly when it is included in any window outside which there is only white space |
| Text.ContainsTrim | src/components/AIChatbot.tsx:49-69 | trimming never changes whether such a pattern is included |
| Text.LowerSlice | src/components/AIChatbot.tsx:61 | lower-casing commutes with slicing |
| Text.LowerTrimWindow | src/components/AIChatbot.tsx:49-61 | the lower-cased trimmed text is a window of the lower-cased text with only white space outside it |
| Responder.Rank | src/components/AIChatbot.tsx:62-69 | chain positions lie in 0..4, and 4 is the default reply alone |
| Responder.GreetingIndex | src/components/AIChatbot.tsx:34 | every draw in [0, 1) picks an index of the greeting table, namely the floor of three times the draw |
| Responder.MatchesAny | src/components/AIChatbot.tsx:62-69 | one `||` chain of `includes` tests succeeds exactly when some keyword of the group is included |
| Responder.MatchesAnyHit | src/components/AIChatbot.tsx:61-69 | a group's test succeeds exactly when one of its keywords occurs at some offset of the lower-cased text |
| Responder.Reply | src/components/AIChatbot.tsx:59-69 | the five reply texts, exactly as written; no contract (see "Responder.Reply" under Left out) |
| Responder.Classify | src/components/AIChatbot.tsx:59-70 | the response selection: the chosen category is hit (unless it is the default), and it comes no later in the chain than any hit category, so it is the first hit |
| Responder.Respond | src/components/AIChatbot.tsx:59-70 | every text gets one of the five reply texts |
| Responder.IntroDominates | src/components/AIChatbot.tsx:62-63 | an introduction keyword gives the introduction reply whatever other keywords are present |
| Responder.FallbackIffNoKeyword | src/components/AIChatbot.tsx:59-70 | the default reply is chosen exactly when none of the thirteen keywords is included in the lower-cased text |
| Responder.MatchesAnyConcat | src/components/AIChatbot.tsx:62-69 | testing two keyword groups one after the other is testing their concatenation |
| Responder.CaseInsensitive | src/components/AIChatbot.tsx:61 | lower-casing the text first never changes the reply (ASCII case, see Left out) |
| Responder.KeywordsUntrimmable | src/components/AIChatbot.tsx:62-69 | every keyword is non-empty and starts and ends with a non-space character |
| Responder.MatchesAnyWindow | src/components/AIChatbot.tsx:62-69 | a group's test gives the same answer on a window with only white space outside it |
| Responder.TrimInsensitive | src/components/AIChatbot.tsx:49-61 | the reply chosen for the raw text equals the one for its trimmed form, which is what the log shows |
| Responder.GroupTrim | src/components/AIChatbot.tsx:49-69 | each keyword group gives the same answer on the trimmed and the raw text |
| Responder.LetterAbsent | src/components/AIChatbot.tsx:61-69 | a keyword with a letter the text lacks in both cases is not included in the lower-cased text |
| Responder.LetterPresent | src/components/AIChatbot.tsx:61-69 | a lower-case keyword written in the text is included in the lower-cased text |
| Responder.NoneMatches | src/components/AIChatbot.tsx:62-69 | a group whose keywords each lack a letter of the text never matches |
| Responder.ProjectsByLetters | src/components/AIChatbot.tsx:62-65 | a text with "project" and without a, l (either case) gets the projects reply |
| Responder.ContactByLetters | src/components/AIChatbot.tsx:62-67 | a text with "touch" and without a, l, p, w (either case) gets the contact reply |
| Responder.QuickReplyIntro | src/components/AIChatbot.tsx:13-17 | "Tell me about Alex" gets the introduction reply |
| Responder.QuickReplyProjects | src/components/AIChatbot.tsx:13-17 | "View projects" gets the projects reply |
| Responder.QuickReplyContact | src/components/AIChatbot.tsx:13-17 | "Get in touch" gets the contact reply |
| ResponderSamples.NoIntroOrProjectLetters | src/components/AIChatbot.tsx:62-65 | without a, t, p, w no introduction or projects keyword can match |
| ResponderSamples.NoContactOrHelloLetters | src/components/AIChatbot.tsx:66-69 | without c, r, t, h no contact or hello keyword can match |
| ResponderSamples.FallbackWhenLacking | src/components/AIChatbot.tsx:59-70 | a text lacking a, t, p, w, c, r, h gets the default reply |
| ResponderSamples.HelloWhenLacking | src/components/AIChatbot.tsx:62-69 | a text with "hi" and without a, e, p, w, c, r, u gets the hello reply |
| ResponderSamples.HeyWhenLacking | src/components/AIChatbot.tsx:62-69 | a text with "hey" and without a, t, p, w, c, r gets the hello reply |
| ResponderSamples.IsThisOnLetters | src/components/AIChatbot.tsx:68 | "Is this on?" holds "hi" and none of the letters that would let an earlier keyword in |
| ResponderSamples.SubstringNotWord | src/components/AIChatbot.tsx:68 | "Is this on?" gets the hello reply: keywords are substrings, not words |
| ResponderSamples.NoKeywordFallback | src/components/AIChatbot.tsx:59 | "xyzzy" gets the default reply |
| ResponderSamples.MixedKeywordsIntro | src/components/AIChatbot.tsx:62-63 | "hi, tell me about projects" gets the introduction reply despite its other keywords |
| ResponderSamples.HeyHello | src/components/AIChatbot.tsx:68 | "hey" gets the hello reply |
| ResponderSamples.AskAboutAlexIntro | src/components/AIChatbot.tsx:62-63 | "hi, tell me about Alex" gets the introduction reply, not the hello reply |
| Session.ConversationSnoc | src/components/AIChatbot.tsx:53-78 | a question followed by its answer extends a conversation |
| Session.AskOpensDialogue | src/components/AIChatbot.tsx:45-55 | sending non-blank text to an idle log leaves it waiting on that text, with the trimmed text logged |
| Session.AnswerClosesDialogue | src/components/AIChatbot.tsx:58-79 | the reply to the awaited text completes the conversation, because the reply for the raw text equals the reply for the logged trimmed text |
| Session.ChatWidget.constructor | src/components/AIChatbot.tsx:26-30 | the widget starts closed, with an empty log and input, not typing and not greeted, and satisfies the invariant |
| Session.ChatWidget.EditInput | src/components/AIChatbot.tsx:224 | typing sets the input box while the window is open (line 128) and changes nothing else |
| Session.ChatWidget.Toggle | src/components/AIChatbot.tsx:32-42 | the button (line 100) flips `isOpen`; opening an ungreeted widget shows the typing indicator and starts a further greeting timer with the drawn greeting; nothing else changes |
| Session.ChatWidget.ToggleCancelling | src/components/AIChatbot.tsx:32-42 | the same with the pending greeting cancelled on every flip; keeps the invariant |
| Session.ChatWidget.DeliverGreeting | src/components/AIChatbot.tsx:36-40 | the oldest greeting timer replaces the log with its greeting, hides the typing indicator and sets `hasGreeted`; under the invariant the log was empty |
| Session.ChatWidget.Send | src/components/AIChatbot.tsx:44-58 | blank text changes nothing; other text appends the trimmed user message, clears the input, shows the typing indicator and starts a reply timer for the raw text |
| Session.ChatWidget.Submit | src/components/AIChatbot.tsx:216-233 | the form (line 216) sends the input only while open and not typing (button guard, line 233); keeps the invariant |
| Session.ChatWidget.QuickReply | src/components/AIChatbot.tsx:83-85 | a quick reply is sent (line 84) only while open (line 128), with the greeting alone in the log and no typing; keeps the invariant |
| Session.ChatWidget.DeliverReply | src/components/AIChatbot.tsx:58-80 | the oldest reply timer appends the responder's reply for its text and hides the typing indicator; keeps the invariant |
| Session.QuickRepliesNotBlank | src/components/AIChatbot.tsx:13-17 | every quick reply is non-blank and already trimmed, so it is always sent as written |
| Session.AlreadyTrimmed | src/components/AIChatbot.tsx:49 | text with non-space ends is left unchanged by `trim` |
| Session.ReopenBeforeGreeting | src/components/AIChatbot.tsx:32-42 | with the toggle as written, open, close and reopen leave two greeting timers running |
| Session.ReopenBeforeGreetingCancelling | src/components/AIChatbot.tsx:32-42 | with the cancelling toggle, the same clicks leave one greeting timer and the invariant |
| Session.GreetAndAsk | src/components/AIChatbot.tsx:36-40 | the greeting arrives, then a quick reply is logged and a reply timer for it starts |
| Session.LostMessageScenario | src/components/AIChatbot.tsx:32-42 | as written, a second greeting wipes the visitor's question, leaving a greeting and an answer to nothing in the log |
| Session.CancelledGreetingScenario | src/components/AIChatbot.tsx:32-42 | with cancellation, the log holds the greeting, the question and its answer |

## Left out

- Rendering, animation, icons and styling of the component, as well as `Header`, `Hero`, `About`, `Projects` and `Footer`. These are presentation and static data with no behaviour to state.
- Message ids (`Date.now()`) are not modelled. A `Message` is its text and its `isBot` flag.
- Timer delays and wall-clock time are not modelled. Timers of one kind fire in the order they were started; the two kinds may interleave freely.
- The uniformity of `Math.random()` is not modelled. The draw is a parameter in [0, 1).
- `toLowerCase` is modelled for ASCII letters only. Other characters, including accented capitals, are left as they are. Some non-ASCII capitals lower to ASCII letters in JavaScript, and there the reply differs. "WOR" followed by the Kelvin sign (U+212A) lowers to "work" and gets the projects reply in the component, but the default reply in the model. "H" followed by U+0130 lowers to "hi" plus a combining dot and gets the hello reply in the component, but the default reply in the model.
- Responder.CaseInsensitive: covers ASCII case only, since `Lower` is the ASCII lower-casing above.
- Responder.Reply: the five reply texts are kept as constants, and no lemma proves them pairwise distinct. The responder lemmas are stated on `Classify`, the chosen category; `Respond` is `Reply` of it, so each category lemma fixes the reply text too.
- The UI guards (the window is shown only while open, the send button is disabled, the quick replies are shown only under the greeting) are modelled as conditions under which `Submit` and `QuickReply` do nothing. Browser event dispatch is not modelled.

## Findings

| source | as written | input that shows it | evidently intended | confidence | as-written member | corrected member |
|---|---|---|---|---|---|---|
| src/components/AIChatbot.tsx:32-42 | the greeting effect starts a timer on each opening of an ungreeted widget and never cancels it; a firing timer replaces the whole log | open, close and reopen the widget within one second; the first greeting arrives; press a quick reply; the second greeting timer fires and replaces the log, so the question is lost and the answer follows a greeting | an effect cleanup cancels the pending greeting, so only one greeting is ever delivered and later messages survive | not executed | Session.LostMessageScenario | Session.CancelledGreetingScenario |

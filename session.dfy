/**
 * The chat widget's session state and the events that change it.
 *
 * The two timers of the widget are explicit events here: starting a timer
 * queues what it will deliver (`pendingGreetings`, `pendingReplies`), and
 * `DeliverGreeting` / `DeliverReply` are the timers firing, oldest first.
 * Timers of the same kind share one delay, so they fire in the order they
 * were started; the two kinds may interleave in any order.
 */
module Session {
  import opened Text
  import opened Responder
  import opened Seqs

  /** One entry of the conversation log (the source's numeric `id` is left out). */
  datatype Message = Message(text: string, isBot: bool)

  /** A log of user questions each directly followed by the bot's answer to
      it, read from its latest exchange back. */
  predicate Conversation(ms: seq<Message>)
    decreases |ms|
  {
    ms == [] ||
    (|ms| >= 2 && Conversation(ms[..|ms| - 2]) &&
     !ms[|ms| - 2].isBot && ms[|ms| - 1] == Message(Respond(ms[|ms| - 2].text), true))
  }

  /** One more answered question keeps a conversation a conversation. */
  lemma ConversationSnoc(conv: seq<Message>, question: string)
    requires Conversation(conv)
    ensures Conversation(conv + [Message(question, false), Message(Respond(question), true)])
  {
    PrefixOfAppend(conv, [Message(question, false), Message(Respond(question), true)]);
  }

  /** Sending a text that is not blank to an idle dialogue leaves it waiting
      on that text, with its trimmed form logged as the question. */
  lemma AskOpensDialogue(rest: seq<Message>, text: string)
    requires Dialogue(rest, [], false)
    requires Trim(text) != []
    ensures Dialogue(rest + [Message(Trim(text), false)], [text], true)
  {
    PrefixOfAppend(rest, [Message(Trim(text), false)]);
  }

  /** The answer to the question a dialogue is waiting on completes it: the
      reply chosen for the raw text is the one chosen for its trimmed form,
      which is what the log shows as the question. */
  lemma AnswerClosesDialogue(rest: seq<Message>, question: string)
    requires Dialogue(rest, [question], true)
    ensures Dialogue(rest + [Message(Respond(question), true)], [], false)
  {
    var conv := rest[..|rest| - 1];
    var asked := Trim(question);
    TrimInsensitive(question);
    SplitLast(rest);
    ConversationSnoc(conv, asked);
    AppendTwo(conv, Message(asked, false), Message(Respond(question), true));
  }

  /** What the log holds after the greeting while the widget is idle
      (`pending == []`) or waiting on the answer to its last message. */
  ghost predicate Dialogue(rest: seq<Message>, pending: seq<string>, typing: bool) {
    (pending == [] && !typing && Conversation(rest)) ||
    (|pending| == 1 && typing && Trim(pending[0]) != [] &&
     |rest| >= 1 && rest[|rest| - 1] == Message(Trim(pending[0]), false) &&
     Conversation(rest[..|rest| - 1]))
  }

  class ChatWidget {
    var isOpen: bool
    var messages: seq<Message>
    var input: string
    var isTyping: bool
    var hasGreeted: bool
    /** Greeting timers started and not yet fired, with the greeting each was drawn. */
    var pendingGreetings: seq<string>
    /** Reply timers started and not yet fired, with the raw text each will answer. */
    var pendingReplies: seq<string>

    /** The state of a widget whose greeting timer is cancelled when the
        widget is closed: before the greeting the log is empty and nothing
        can be sent; afterwards the greeting heads the log, followed by
        questions each answered in turn, and no greeting is pending. */
    ghost predicate Valid()
      reads this
    {
      (!hasGreeted ==>
        messages == [] && pendingReplies == [] && |pendingGreetings| <= 1 &&
        (isOpen ==> isTyping) && (pendingGreetings != [] ==> isOpen && pendingGreetings[0] in Greetings)) &&
      (hasGreeted ==>
        pendingGreetings == [] && |messages| >= 1 &&
        messages[0].isBot && messages[0].text in Greetings &&
        Dialogue(messages[1..], pendingReplies, isTyping))
    }

    /** The widget as first rendered: closed, empty, not greeted. */
    constructor ()
      ensures !isOpen && messages == [] && input == [] && !isTyping && !hasGreeted
      ensures pendingGreetings == [] && pendingReplies == []
      ensures Valid()
    {
      isOpen, messages, input, isTyping, hasGreeted := false, [], [], false, false;
      pendingGreetings, pendingReplies := [], [];
    }

    /** Typing in the input box, which is there only while the window is open. */
    method EditInput(text: string)
      modifies this
      ensures input == if old(isOpen) then text else old(input)
      ensures isOpen == old(isOpen) && messages == old(messages) && isTyping == old(isTyping)
      ensures hasGreeted == old(hasGreeted) && pendingGreetings == old(pendingGreetings)
      ensures pendingReplies == old(pendingReplies)
      ensures old(Valid()) ==> Valid()
    {
      if isOpen {
        input := text;
      }
    }

    /** The chat button as written: flips `isOpen`, and the greeting effect,
        which runs after every change of `isOpen`, starts a greeting timer
        with a freshly drawn greeting when the widget is now open and not
        yet greeted. A timer already running is not cancelled. `u` is the
        value `Math.random()` returns. */
    method Toggle(u: real)
      requires 0.0 <= u < 1.0
      modifies this
      ensures isOpen == !old(isOpen)
      ensures pendingGreetings ==
        if isOpen && !hasGreeted then old(pendingGreetings) + [Greetings[GreetingIndex(u)]]
        else old(pendingGreetings)
      ensures isTyping == (if isOpen && !hasGreeted then true else old(isTyping))
      ensures messages == old(messages) && input == old(input) && hasGreeted == old(hasGreeted)
      ensures pendingReplies == old(pendingReplies)
    {
      isOpen := !isOpen;
      if isOpen && !hasGreeted {
        isTyping := true;
        pendingGreetings := pendingGreetings + [Greetings[GreetingIndex(u)]];
      }
    }

    /** The chat button with the greeting effect cancelling its timer when
        `isOpen` changes again before it fires: the pending greeting is
        dropped, and a new one started if the widget is now open and not
        yet greeted. This keeps `Valid`. */
    method ToggleCancelling(u: real)
      requires 0.0 <= u < 1.0
      modifies this
      ensures isOpen == !old(isOpen)
      ensures pendingGreetings == if isOpen && !hasGreeted then [Greetings[GreetingIndex(u)]] else []
      ensures isTyping == (if isOpen && !hasGreeted then true else old(isTyping))
      ensures messages == old(messages) && input == old(input) && hasGreeted == old(hasGreeted)
      ensures pendingReplies == old(pendingReplies)
      ensures old(Valid()) ==> Valid()
    {
      isOpen := !isOpen;
      pendingGreetings := [];
      if isOpen && !hasGreeted {
        isTyping := true;
        pendingGreetings := [Greetings[GreetingIndex(u)]];
      }
    }

    /** The oldest greeting timer fires: the greeting REPLACES the log. */
    method DeliverGreeting()
      requires pendingGreetings != []
      modifies this
      ensures messages == [Message(old(pendingGreetings[0]), true)]
      ensures !isTyping && hasGreeted
      ensures pendingGreetings == old(pendingGreetings[1..])
      ensures isOpen == old(isOpen) && input == old(input) && pendingReplies == old(pendingReplies)
      ensures old(Valid()) ==> Valid() && old(messages) == []
    {
      messages := [Message(pendingGreetings[0], true)];
      isTyping := false;
      hasGreeted := true;
      pendingGreetings := pendingGreetings[1..];
    }

    /** `handleSend(text)`: text that trims to nothing is ignored; otherwise
        the trimmed text is logged as the user's, the input box cleared, the
        typing indicator shown and a reply timer started for the raw text. */
    method Send(text: string)
      modifies this
      ensures if Trim(text) == [] then
          messages == old(messages) && input == old(input) && isTyping == old(isTyping) &&
          pendingReplies == old(pendingReplies)
        else
          messages == old(messages) + [Message(Trim(text), false)] && input == [] && isTyping &&
          pendingReplies == old(pendingReplies) + [text]
      ensures isOpen == old(isOpen) && hasGreeted == old(hasGreeted)
      ensures pendingGreetings == old(pendingGreetings)
    {
      var trimmed := Trim(text);
      if trimmed != [] {
        messages := messages + [Message(trimmed, false)];
        input := [];
        isTyping := true;
        pendingReplies := pendingReplies + [text];
      }
    }

    /** Submitting the form: `handleSend(input)`, possible only while the
        window is open and the send button enabled (input not blank, no
        reply being typed). */
    method Submit()
      modifies this
      ensures if isOpen && !old(isTyping) && Trim(old(input)) != [] then
          messages == old(messages) + [Message(Trim(old(input)), false)] && input == [] && isTyping &&
          pendingReplies == old(pendingReplies) + [old(input)]
        else
          messages == old(messages) && input == old(input) && isTyping == old(isTyping) &&
          pendingReplies == old(pendingReplies)
      ensures isOpen == old(isOpen) && hasGreeted == old(hasGreeted)
      ensures pendingGreetings == old(pendingGreetings)
      ensures old(Valid()) ==> Valid()
    {
      if isOpen && !isTyping {
        ghost var before := messages;
        Send(input);
        if Trim(old(input)) != [] && old(Valid()) {
          TailOfAppend(before, [Message(Trim(old(input)), false)]);
          AppendToEmpty(old(input));
          AskOpensDialogue(before[1..], old(input));
        }
      }
    }

    /** Pressing quick reply `k`: `handleSend(QuickReplies[k])`; the buttons
        are shown only while the window is open, the log holds the greeting
        alone and no reply is being typed. */
    method QuickReply(k: nat)
      requires k < |QuickReplies|
      modifies this
      ensures if isOpen && |old(messages)| == 1 && !old(isTyping) then
          messages == old(messages) + [Message(Trim(QuickReplies[k]), false)] && input == [] && isTyping &&
          pendingReplies == old(pendingReplies) + [QuickReplies[k]]
        else
          messages == old(messages) && input == old(input) && isTyping == old(isTyping) &&
          pendingReplies == old(pendingReplies)
      ensures isOpen == old(isOpen) && hasGreeted == old(hasGreeted)
      ensures pendingGreetings == old(pendingGreetings)
      ensures old(Valid()) ==> Valid()
    {
      QuickRepliesNotBlank(k);
      if isOpen && |messages| == 1 && !isTyping {
        ghost var before := messages;
        Send(QuickReplies[k]);
        if old(Valid()) {
          TailOfAppend(before, [Message(Trim(QuickReplies[k]), false)]);
          AppendToEmpty(QuickReplies[k]);
          AskOpensDialogue(before[1..], QuickReplies[k]);
        }
      }
    }

    /** The oldest reply timer fires: the reply chosen for its text is
        appended and the typing indicator hidden. */
    method DeliverReply()
      requires pendingReplies != []
      modifies this
      ensures messages == old(messages) + [Message(Respond(old(pendingReplies[0])), true)]
      ensures !isTyping && pendingReplies == old(pendingReplies[1..])
      ensures isOpen == old(isOpen) && input == old(input) && hasGreeted == old(hasGreeted)
      ensures pendingGreetings == old(pendingGreetings)
      ensures old(Valid()) ==> Valid()
    {
      ghost var before := messages;
      ghost var question := pendingReplies[0];
      messages := messages + [Message(Respond(pendingReplies[0]), true)];
      isTyping := false;
      pendingReplies := pendingReplies[1..];
      if old(Valid()) {
        assert old(hasGreeted) && |before| >= 1;
        assert Dialogue(before[1..], old(pendingReplies), true);
        Singleton(old(pendingReplies));
        assert Dialogue(before[1..], [question], true);
        AnswerClosesDialogue(before[1..], question);
        TailOfAppend(before, [Message(Respond(question), true)]);
        assert Dialogue(messages[1..], pendingReplies, isTyping);
      }
    }
  }

  /** None of the quick replies is blank, and each is already trimmed. */
  lemma QuickRepliesNotBlank(k: nat)
    requires k < |QuickReplies|
    ensures Trim(QuickReplies[k]) == QuickReplies[k] != []
  {
    AlreadyTrimmed(QuickReplies[k]);
  }

  /** Text that begins and ends with a character that is not white space
      is left as it is by `trim`. */
  lemma AlreadyTrimmed(q: string)
    requires q != [] && !IsSpace(q[0]) && !IsSpace(q[|q| - 1])
    ensures Trim(q) == q
  {
    assert TrimStart(q) == q;
    assert TrimEnd(q) == q;
  }

  /** Open the widget, close it and open it again before the first greeting
      timer fires, with the toggle as written: both greeting timers are
      still running, the second one with the last greeting of the table. */
  method ReopenBeforeGreeting() returns (w: ChatWidget)
    ensures fresh(w)
    ensures w.isOpen && w.isTyping && !w.hasGreeted && w.messages == [] && w.pendingReplies == []
    ensures |w.pendingGreetings| == 2 && w.pendingGreetings[1] == Greetings[2]
  {
    w := new ChatWidget();
    w.Toggle(0.0);
    w.Toggle(0.0);
    w.Toggle(0.9);
  }

  /** The same three clicks with the cancelling toggle: only the timer
      started by the last click is running. */
  method ReopenBeforeGreetingCancelling() returns (w: ChatWidget)
    ensures fresh(w)
    ensures w.isOpen && w.isTyping && !w.hasGreeted && w.messages == [] && w.pendingReplies == []
    ensures w.pendingGreetings == [Greetings[2]]
    ensures w.Valid()
  {
    w := new ChatWidget();
    w.ToggleCancelling(0.0);
    w.ToggleCancelling(0.0);
    w.ToggleCancelling(0.9);
  }

  /** The oldest greeting arrives, then quick reply `k` is pressed: the log
      holds that greeting and the question, and a reply timer for the
      question is running. */
  method GreetAndAsk(w: ChatWidget, k: nat)
    requires k < |QuickReplies|
    requires w.isOpen && w.pendingGreetings != [] && w.pendingReplies == []
    modifies w
    ensures |w.messages| == 2 && w.messages[0] == Message(old(w.pendingGreetings[0]), true)
    ensures w.messages[1] == Message(QuickReplies[k], false)
    ensures w.pendingGreetings == old(w.pendingGreetings[1..]) && w.pendingReplies == [QuickReplies[k]]
    ensures w.isTyping && w.hasGreeted
  {
    w.DeliverGreeting();
    QuickRepliesNotBlank(k);
    w.QuickReply(k);
  }

  /** The widget as written loses a message: open it, close and reopen it
      before the first greeting arrives, let that greeting arrive, press
      quick reply `k`, and then let the second greeting timer fire. The
      second greeting replaces the log, so the user's question is gone and
      its answer follows a greeting it does not answer. */
  method LostMessageScenario(k: nat) returns (log: seq<Message>)
    requires k < |QuickReplies|
    ensures |log| == 2 && log[0] == Message(Greetings[2], true)
    ensures log[1] == Message(Respond(QuickReplies[k]), true)
  {
    var w := ReopenBeforeGreeting();
    GreetAndAsk(w, k);
    w.DeliverGreeting();
    w.DeliverReply();
    log := w.messages;
  }

  /** The same events with the cancelling toggle: only the greeting drawn at
      reopening is delivered, and the question and its answer stay in the
      log after it. */
  method CancelledGreetingScenario(k: nat) returns (log: seq<Message>)
    requires k < |QuickReplies|
    ensures |log| == 3 && log[0] == Message(Greetings[2], true)
    ensures log[1] == Message(QuickReplies[k], false) && log[2] == Message(Respond(QuickReplies[k]), true)
  {
    var w := ReopenBeforeGreetingCancelling();
    GreetAndAsk(w, k);
    w.DeliverReply();
    log := w.messages;
  }
}

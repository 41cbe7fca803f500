/**
 * The scripted responder of the chat widget: the greeting table, the
 * quick-reply table and the keyword chain that picks one of five canned
 * replies for a submitted text.
 */
module Responder {
  import opened Text

  /** The five replies the chain can pick, in the order the chain tests them. */
  datatype Category = Intro | Projects | Contact | Hello | Fallback

  /** Position of a category in the chain; `Fallback` comes after every test. */
  function Rank(c: Category): (n: nat)
    ensures n <= 4
    ensures n == 4 <==> c == Fallback
  {
    match c
    case Intro => 0
    case Projects => 1
    case Contact => 2
    case Hello => 3
    case Fallback => 4
  }

  const IntroKeywords: seq<string> := ["about", "alex", "tell me"]
  const ProjectKeywords: seq<string> := ["project", "work", "portfolio"]
  const ContactKeywords: seq<string> := ["contact", "reach", "touch", "hire"]
  const HelloKeywords: seq<string> := ["hello", "hi", "hey"]

  /** The substrings whose presence selects a category (none for `Fallback`). */
  function Keywords(c: Category): (kws: seq<string>) {
    match c
    case Intro => IntroKeywords
    case Projects => ProjectKeywords
    case Contact => ContactKeywords
    case Hello => HelloKeywords
    case Fallback => []
  }

  /** All thirteen keywords of the chain. */
  const AllKeywords: seq<string> := IntroKeywords + ProjectKeywords + ContactKeywords + HelloKeywords

  /** The canned reply of each category. */
  function Reply(c: Category): (r: string)
  {
    match c
    case Intro => "Alex is a passionate AI developer and designer with 5+ years of experience. They specialize in creating intelligent, beautiful digital experiences that blend cutting-edge AI with thoughtful design! \U{1F3A8}\U{2728}"
    case Projects => "Check out the Projects section to see Alex's latest work! From AI art generators to smart chatbot platforms, there's a lot of exciting stuff to explore. \U{1F680}"
    case Contact => "You can reach Alex through the contact form below, or connect on social media. They typically respond within 24 hours! \U{1F4EC}"
    case Hello => "Hello! Nice to meet you! \U{1F60A} How can I assist you today?"
    case Fallback => "That's a great question! Feel free to explore Alex's projects or reach out directly through the contact form. I'm here to help! \U{1F916}"
  }

  const Greetings: seq<string> := [
    "Hey there! \U{1F44B} I'm Alex's AI assistant. How can I help you today?",
    "Welcome! Looking for something specific? I'd love to help!",
    "Hi! Curious about Alex's work? Ask me anything!"
  ]

  const QuickReplies: seq<string> := ["Tell me about Alex", "View projects", "Get in touch"]

  /** The greeting drawn for a random number `u` in [0, 1): the table
      length times `u`, rounded down. Every draw picks a greeting. */
  function GreetingIndex(u: real): (i: nat)
    requires 0.0 <= u < 1.0
    ensures i < |Greetings|
    ensures i as real <= u * |Greetings| as real < i as real + 1.0
  {
    (u * |Greetings| as real).Floor
  }

  /** One `||` chain of the responder: tests the keywords of a group in
      order and stops at the first that `t` contains. */
  function MatchesAny(t: string, kws: seq<string>): (r: bool)
    ensures r <==> exists k :: 0 <= k < |kws| && Contains(t, kws[k])
  {
    if kws == [] then false
    else if Contains(t, kws[0]) then true
    else
      var r := MatchesAny(t, kws[1..]);
      assert forall k :: 1 <= k < |kws| ==> kws[k] == kws[1..][k - 1];
      r
  }

  /** The response selection of the widget: lower-case the text, then test
      the keyword groups in chain order; the first group that matches wins.
      The chosen category's keywords occur (unless it is the fallback), and
      no category before it in the chain is hit. Together these fix the
      result: it is the first hit in chain order. Both are stated for every
      category `d`, so that they come into play only where a hit is in
      question. */
  function Classify(text: string): (c: Category)
    ensures forall d :: d == c ==> d == Fallback || Hit(text, d)
    ensures forall d :: Hit(text, d) ==> Rank(c) <= Rank(d)
  {
    MatchesAnyHit(text, Intro);
    MatchesAnyHit(text, Projects);
    MatchesAnyHit(text, Contact);
    MatchesAnyHit(text, Hello);
    var lower := Lower(text);
    if MatchesAny(lower, IntroKeywords) then Intro
    else if MatchesAny(lower, ProjectKeywords) then Projects
    else if MatchesAny(lower, ContactKeywords) then Contact
    else if MatchesAny(lower, HelloKeywords) then Hello
    else Fallback
  }

  /** The reply the widget posts for a submitted text. */
  function Respond(text: string): (r: string)
    ensures exists c :: r == Reply(c)
  {
    Reply(Classify(text))
  }

  /** Reference meaning of a keyword group: some keyword of `c` occurs at
      some offset of the lower-cased text. */
  ghost predicate Hit(text: string, c: Category) {
    exists k: nat, i: nat :: k < |Keywords(c)| && OccursAt(Lower(text), Keywords(c)[k], i)
  }

  lemma MatchesAnyHit(text: string, c: Category)
    ensures MatchesAny(Lower(text), Keywords(c)) <==> Hit(text, c)
  {
    var t, kws := Lower(text), Keywords(c);
    if MatchesAny(t, kws) {
      var k :| 0 <= k < |kws| && Contains(t, kws[k]);
      ContainsIff(t, kws[k]);
      var i: nat :| OccursAt(t, kws[k], i);
      assert k < |Keywords(c)| && OccursAt(Lower(text), Keywords(c)[k], i);
    }
    if Hit(text, c) {
      var k: nat, i: nat :| k < |kws| && OccursAt(t, kws[k], i);
      ContainsIff(t, kws[k]);
    }
  }

  /** Any text with an introduction keyword gets the introduction reply,
      whatever else it mentions. */
  lemma IntroDominates(text: string)
    requires Hit(text, Intro)
    ensures Classify(text) == Intro
  {
    assert Rank(Intro) == 0;
  }

  /** The fallback reply is chosen exactly when none of the thirteen
      keywords occurs in the lower-cased text. */
  lemma FallbackIffNoKeyword(text: string)
    ensures Classify(text) == Fallback <==>
            forall k :: 0 <= k < |AllKeywords| ==> !Contains(Lower(text), AllKeywords[k])
  {
    var t := Lower(text);
    MatchesAnyConcat(t, IntroKeywords, ProjectKeywords);
    MatchesAnyConcat(t, IntroKeywords + ProjectKeywords, ContactKeywords);
    MatchesAnyConcat(t, IntroKeywords + ProjectKeywords + ContactKeywords, HelloKeywords);
  }

  /** Testing the groups one after another is testing their concatenation. */
  lemma {:induction false} MatchesAnyConcat(t: string, a: seq<string>, b: seq<string>)
    ensures MatchesAny(t, a + b) == (MatchesAny(t, a) || MatchesAny(t, b))
    decreases |a|
  {
    if a != [] {
      assert (a + b)[0] == a[0] && (a + b)[1..] == a[1..] + b;
      MatchesAnyConcat(t, a[1..], b);
    } else {
      assert a + b == b;
    }
  }

  /** Only the lower-cased text is inspected, so case does not matter. */
  lemma CaseInsensitive(text: string)
    ensures Classify(Lower(text)) == Classify(text)
  {
    LowerIdempotent(text);
  }

  /** Every keyword begins and ends with a character `trim` keeps. */
  lemma KeywordsUntrimmable(kws: seq<string>)
    requires kws == IntroKeywords || kws == ProjectKeywords || kws == ContactKeywords || kws == HelloKeywords
    ensures forall k :: 0 <= k < |kws| ==> kws[k] != [] && !IsSpace(kws[k][0]) && !IsSpace(kws[k][|kws[k]| - 1])
  {
  }

  lemma {:induction false} MatchesAnyWindow(t: string, kws: seq<string>, a: nat, b: nat)
    requires a <= b <= |t|
    requires forall i :: 0 <= i < a ==> IsSpace(t[i])
    requires forall i :: b <= i < |t| ==> IsSpace(t[i])
    requires forall k :: 0 <= k < |kws| ==> kws[k] != [] && !IsSpace(kws[k][0]) && !IsSpace(kws[k][|kws[k]| - 1])
    ensures MatchesAny(t[a..b], kws) == MatchesAny(t, kws)
    decreases |kws|
  {
    if kws != [] {
      ContainsWindow(t, kws[0], a, b);
      MatchesAnyWindow(t, kws[1..], a, b);
    }
  }

  /** The reply is chosen from the untrimmed text while the log shows the
      trimmed one; since no keyword starts or ends with white space the two
      always get the same reply. */
  lemma TrimInsensitive(text: string)
    ensures Classify(Trim(text)) == Classify(text)
  {
    GroupTrim(text, IntroKeywords);
    GroupTrim(text, ProjectKeywords);
    GroupTrim(text, ContactKeywords);
    GroupTrim(text, HelloKeywords);
  }

  lemma GroupTrim(text: string, kws: seq<string>)
    requires kws == IntroKeywords || kws == ProjectKeywords || kws == ContactKeywords || kws == HelloKeywords
    ensures MatchesAny(Lower(Trim(text)), kws) == MatchesAny(Lower(text), kws)
  {
    var a, b := LowerTrimWindow(text);
    KeywordsUntrimmable(kws);
    MatchesAnyWindow(Lower(text), kws, a, b);
  }

  /** The keyword `p` is absent from the lower-cased `s` because its `k`-th
      letter is absent from `s` in either case. */
  lemma LetterAbsent(s: string, p: string, k: nat)
    requires k < |p| && 'a' <= p[k] <= 'z'
    requires p[k] !in s && (p[k] as int - 32) as char !in s
    ensures !Contains(Lower(s), p)
  {
    LowerAbsent(s, p[k]);
    MissingChar(Lower(s), p, k);
  }

  /** A lower-case keyword `p` written at offset `i` of `s` occurs in the
      lower-cased `s`. */
  lemma LetterPresent(s: string, p: string, i: nat)
    requires i + |p| <= |s|
    requires s[i..i + |p|] == p && forall k :: 0 <= k < |p| ==> !IsUpper(p[k])
    ensures Contains(Lower(s), p)
  {
    var l := Lower(s);
    assert l[i..i + |p|] == p;
    assert OccursAt(l, p, i);
    ContainsIff(l, p);
  }

  /** No keyword of `kws` can occur in the lower-cased `s`: for each keyword
      `kws[j]`, its letter at `at[j]` is absent from `s` in either case. */
  predicate LettersRuleOut(s: string, kws: seq<string>, at: seq<nat>) {
    |at| == |kws| &&
    (forall j :: 0 <= j < |kws| ==> at[j] < |kws[j]| && 'a' <= kws[j][at[j]] <= 'z') &&
    (forall j :: 0 <= j < |kws| ==> kws[j][at[j]] !in s && (kws[j][at[j]] as int - 32) as char !in s)
  }

  /** No keyword of `kws` occurs in the lower-cased `s`. */
  lemma NoneMatches(s: string, kws: seq<string>, at: seq<nat>)
    requires LettersRuleOut(s, kws, at)
    ensures !MatchesAny(Lower(s), kws)
  {
    forall j | 0 <= j < |kws| ensures !Contains(Lower(s), kws[j]) {
      LetterAbsent(s, kws[j], at[j]);
    }
  }

  /** A text with "project" in it and none of the letters that would let an
      introduction keyword in ('a' for "about" and "alex", 'l' for
      "tell me", in either case) gets the projects reply. */
  lemma ProjectsByLetters(s: string, at: nat)
    requires 'a' !in s && 'A' !in s && 'l' !in s && 'L' !in s
    requires at + 7 <= |s| && s[at..at + 7] == "project"
    ensures Classify(s) == Projects
  {
    assert LettersRuleOut(s, IntroKeywords, [0, 0, 2]);
    NoneMatches(s, IntroKeywords, [0, 0, 2]);
    LetterPresent(s, ProjectKeywords[0], at);
    assert MatchesAny(Lower(s), ProjectKeywords);
    assert Classify(s) == Projects;
  }

  /** A text with "touch" in it and without the letters that would let an
      introduction or project keyword in gets the contact reply. */
  lemma ContactByLetters(s: string, at: nat)
    requires 'a' !in s && 'A' !in s && 'l' !in s && 'L' !in s
    requires 'p' !in s && 'P' !in s && 'w' !in s && 'W' !in s
    requires at + 5 <= |s| && s[at..at + 5] == "touch"
    ensures Classify(s) == Contact
  {
    assert LettersRuleOut(s, IntroKeywords, [0, 0, 2]);
    NoneMatches(s, IntroKeywords, [0, 0, 2]);
    assert LettersRuleOut(s, ProjectKeywords, [0, 0, 0]);
    NoneMatches(s, ProjectKeywords, [0, 0, 0]);
    LetterPresent(s, ContactKeywords[2], at);
    assert MatchesAny(Lower(s), ContactKeywords);
    assert Classify(s) == Contact;
  }

  /** Each quick reply lands in its own non-fallback category:
      "Tell me about Alex" gets the introduction ... */
  lemma QuickReplyIntro()
    ensures Classify(QuickReplies[0]) == Intro
  {
    LetterPresent(QuickReplies[0], IntroKeywords[0], 8);
    assert MatchesAny(Lower(QuickReplies[0]), IntroKeywords);
  }

  /** ... "View projects" the projects reply ... */
  lemma QuickReplyProjects()
    ensures Classify(QuickReplies[1]) == Projects
  {
    ProjectsByLetters(QuickReplies[1], 5);
  }

  /** ... and "Get in touch" the contact reply. */
  lemma QuickReplyContact()
    ensures Classify(QuickReplies[2]) == Contact
  {
    ContactByLetters(QuickReplies[2], 7);
  }
}

/**
 * Replies the responder gives to sample utterances, and to whole families
 * of texts recognised by the letters they lack.
 */
module ResponderSamples {
  import opened Text
  import opened Responder

  /** Without a, t, p and w (in either case) no introduction or project
      keyword can occur ... */
  lemma NoIntroOrProjectLetters(s: string)
    requires 'a' !in s && 'A' !in s && 't' !in s && 'T' !in s
    requires 'p' !in s && 'P' !in s && 'w' !in s && 'W' !in s
    ensures !MatchesAny(Lower(s), IntroKeywords) && !MatchesAny(Lower(s), ProjectKeywords)
  {
    assert LettersRuleOut(s, IntroKeywords, [0, 0, 0]);
    NoneMatches(s, IntroKeywords, [0, 0, 0]);
    assert LettersRuleOut(s, ProjectKeywords, [0, 0, 0]);
    NoneMatches(s, ProjectKeywords, [0, 0, 0]);
  }

  /** ... and without c, r, t and h no contact or greeting keyword can. */
  lemma NoContactOrHelloLetters(s: string)
    requires 'c' !in s && 'C' !in s && 'r' !in s && 'R' !in s
    requires 't' !in s && 'T' !in s && 'h' !in s && 'H' !in s
    ensures !MatchesAny(Lower(s), ContactKeywords) && !MatchesAny(Lower(s), HelloKeywords)
  {
    assert LettersRuleOut(s, ContactKeywords, [0, 0, 0, 0]);
    NoneMatches(s, ContactKeywords, [0, 0, 0, 0]);
    assert LettersRuleOut(s, HelloKeywords, [0, 0, 0]);
    NoneMatches(s, HelloKeywords, [0, 0, 0]);
  }

  /** A text lacking the letters a, t, p, w, c, r and h (in either case)
      contains none of the thirteen keywords and gets the fallback reply. */
  lemma FallbackWhenLacking(s: string)
    requires 'a' !in s && 'A' !in s && 't' !in s && 'T' !in s
    requires 'p' !in s && 'P' !in s && 'w' !in s && 'W' !in s
    requires 'c' !in s && 'C' !in s && 'r' !in s && 'R' !in s
    requires 'h' !in s && 'H' !in s
    ensures Classify(s) == Fallback
  {
    NoIntroOrProjectLetters(s);
    NoContactOrHelloLetters(s);
  }

  /** A text holding "hi" but lacking a, e, p, w, c, r and u (in either
      case) gets the greeting-style reply: no keyword of an earlier group
      can occur in it. */
  lemma HelloWhenLacking(s: string, at: nat)
    requires 'a' !in s && 'A' !in s && 'e' !in s && 'E' !in s
    requires 'p' !in s && 'P' !in s && 'w' !in s && 'W' !in s
    requires 'c' !in s && 'C' !in s && 'r' !in s && 'R' !in s
    requires 'u' !in s && 'U' !in s
    requires at + 2 <= |s| && s[at..at + 2] == "hi"
    ensures Classify(s) == Hello
  {
    assert LettersRuleOut(s, IntroKeywords, [0, 0, 1]);
    NoneMatches(s, IntroKeywords, [0, 0, 1]);
    assert LettersRuleOut(s, ProjectKeywords, [0, 0, 0]);
    NoneMatches(s, ProjectKeywords, [0, 0, 0]);
    assert LettersRuleOut(s, ContactKeywords, [0, 0, 2, 2]);
    NoneMatches(s, ContactKeywords, [0, 0, 2, 2]);
    LetterPresent(s, HelloKeywords[1], at);
    assert MatchesAny(Lower(s), HelloKeywords);
    assert Classify(s) == Hello;
  }

  /** A text holding "hey" but lacking a, t, p, w, c and r (in either case)
      gets the greeting-style reply. */
  lemma HeyWhenLacking(s: string, at: nat)
    requires 'a' !in s && 'A' !in s && 't' !in s && 'T' !in s
    requires 'p' !in s && 'P' !in s && 'w' !in s && 'W' !in s
    requires 'c' !in s && 'C' !in s && 'r' !in s && 'R' !in s
    requires at + 3 <= |s| && s[at..at + 3] == "hey"
    ensures Classify(s) == Hello
  {
    NoIntroOrProjectLetters(s);
    assert LettersRuleOut(s, ContactKeywords, [0, 0, 0, 2]);
    NoneMatches(s, ContactKeywords, [0, 0, 0, 2]);
    LetterPresent(s, HelloKeywords[2], at);
    assert MatchesAny(Lower(s), HelloKeywords);
    assert Classify(s) == Hello;
  }

  /** Sample utterances for the lemmas below. */
  const IsThisOn: string := "Is this on?"
  const Xyzzy: string := "xyzzy"
  const MixedAsk: string := "hi, tell me about projects"
  const Hey: string := "hey"
  const AskAboutAlex: string := "hi, tell me about Alex"

  /** Keywords are matched as substrings, not words: the "hi" inside "this"
      is enough for the greeting-style reply. */
  lemma SubstringNotWord()
    ensures Classify(IsThisOn) == Hello
  {
    IsThisOnLetters();
    HelloWhenLacking(IsThisOn, 4);
  }

  /** The letters `HelloWhenLacking` rules out. */
  predicate BlocksHello(c: char) {
    c == 'a' || c == 'A' || c == 'e' || c == 'E' || c == 'p' || c == 'P' || c == 'w' || c == 'W'
    || c == 'c' || c == 'C' || c == 'r' || c == 'R' || c == 'u' || c == 'U'
  }

  /** "Is this on?" lacks those letters and holds "hi" at offset 4. */
  lemma IsThisOnLetters()
    ensures 'a' !in IsThisOn && 'A' !in IsThisOn && 'e' !in IsThisOn && 'E' !in IsThisOn
    ensures 'p' !in IsThisOn && 'P' !in IsThisOn && 'w' !in IsThisOn && 'W' !in IsThisOn
    ensures 'c' !in IsThisOn && 'C' !in IsThisOn && 'r' !in IsThisOn && 'R' !in IsThisOn
    ensures 'u' !in IsThisOn && 'U' !in IsThisOn
    ensures IsThisOn[4..6] == "hi"
  {
    assert forall i :: 0 <= i < |IsThisOn| ==> !BlocksHello(IsThisOn[i]);
  }

  /** A text with no keyword at all gets the fallback reply. */
  lemma NoKeywordFallback()
    ensures Classify(Xyzzy) == Fallback
  {
    FallbackWhenLacking(Xyzzy);
  }

  /** The introduction keywords outrank the others present: "hi, tell me
      about projects" mentions a greeting and projects too. */
  lemma MixedKeywordsIntro()
    ensures Classify(MixedAsk) == Intro
  {
    LetterPresent(MixedAsk, IntroKeywords[0], 12);
    assert MatchesAny(Lower(MixedAsk), IntroKeywords);
  }

  /** "hey" alone gets the greeting-style reply. */
  lemma HeyHello()
    ensures Classify(Hey) == Hello
  {
    HeyWhenLacking(Hey, 0);
  }

  /** "hi, tell me about Alex" gets the introduction reply, not the greeting. */
  lemma AskAboutAlexIntro()
    ensures Classify(AskAboutAlex) == Intro
  {
    LetterPresent(AskAboutAlex, IntroKeywords[0], 12);
    assert MatchesAny(Lower(AskAboutAlex), IntroKeywords);
  }
}

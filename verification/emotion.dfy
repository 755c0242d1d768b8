/**
 * The emotion tagger (`detectEmotion`): labels a reply "happy", "sad" or ""
 * by case-insensitive keyword checks, happy keywords first.
 */
module Emotion {
  import opened Text
  import opened Rules
  import Responder

  const Happy := "happy"
  const Sad := "sad"
  const Neutral := ""

  /** The tagger's rules in priority order; no rule fires means no emotion. */
  function EmotionRules(): seq<Rule> {
    [Rule(["wonderful", "happy"], Happy), Rule(["sorry", "tired"], Sad)]
  }

  /** `detectEmotion(text)`: always one label of the closed vocabulary. */
  function DetectEmotion(text: string): (r: string)
    ensures r == Happy || r == Sad || r == Neutral
  {
    var t := ToLower(text);
    if Includes(t, "wonderful") || Includes(t, "happy") then Happy
    else if Includes(t, "sorry") || Includes(t, "tired") then Sad
    else Neutral
  }

  /** Each label in terms of the keywords the lower-cased text contains. */
  lemma DetectEmotionCases(text: string)
    ensures var t := ToLower(text);
            && (DetectEmotion(text) == Happy <==> Contains(t, "wonderful") || Contains(t, "happy"))
            && (DetectEmotion(text) == Sad <==>
                  !Contains(t, "wonderful") && !Contains(t, "happy") && (Contains(t, "sorry") || Contains(t, "tired")))
            && (DetectEmotion(text) == Neutral <==>
                  !Contains(t, "wonderful") && !Contains(t, "happy") && !Contains(t, "sorry") && !Contains(t, "tired"))
  {
  }

  /** The tagger is the first-match reading of its rule list with "" as fallback. */
  lemma DetectEmotionFollowsRules(text: string)
    ensures DetectEmotion(text) == FirstMatch(EmotionRules(), ToLower(text), Neutral)
  {
    var rules := EmotionRules();
    var t := ToLower(text);
    FiresPair("wonderful", "happy", Happy, t);
    FiresPair("sorry", "tired", Sad, t);
    assert rules[1..][1..] == [];
  }

  /** Upper and lower case make no difference to the label. */
  lemma DetectEmotionCaseInsensitive(text: string)
    ensures DetectEmotion(ToLower(text)) == DetectEmotion(text)
  {
    ToLowerIdempotent(text);
  }

  /** A text without any of the four keywords is tagged with no emotion. */
  lemma NeutralWithoutKeywords(text: string)
    requires !Contains(ToLower(text), "wonderful") && !Contains(ToLower(text), "happy")
    requires !Contains(ToLower(text), "sorry") && !Contains(ToLower(text), "tired")
    ensures DetectEmotion(text) == Neutral
  {
  }

  // The canned replies are examined piece by piece: each emotion keyword is
  // absent because the reply lacks one of its letters, or because two of its
  // letters occur there in the opposite order.

  /** Any text shaped like the greeting reply carries no emotion. */
  lemma GreetingShapeIsNeutral(a: string, b: string)
    requires LacksLetter(a, 'd') && LacksLetter(a, 'p') && LacksLetter(a, 's') && LacksLetter(a, 't')
    requires LacksLetter(b, 'r') && LacksLetter(b, 'p') && LacksLetter(b, 's') && LacksLetter(b, 'i')
    ensures DetectEmotion(a + b) == Neutral
  {
    LowerOutOfOrder(a, b, "wonderful", 3, 5);
    LowerMissingLetter(a + b, "happy", 2);
    LowerMissingLetter(a + b, "sorry", 0);
    LowerOutOfOrder(a, b, "tired", 0, 1);
    NeutralWithoutKeywords(a + b);
  }

  const GreetingHead := "Hello! How are you feeling "
  const GreetingTail := "today?"

  lemma GreetingSplit()
    ensures Responder.Greeting == GreetingHead + GreetingTail
  {
  }

  lemma GreetingHeadAvoids()
    ensures Avoids(GreetingHead, "dDpPsStT")
  {
  }

  lemma GreetingHeadLetters()
    ensures LacksLetter(GreetingHead, 'd') && LacksLetter(GreetingHead, 'p')
    ensures LacksLetter(GreetingHead, 's') && LacksLetter(GreetingHead, 't')
  {
    var cs := "dDpPsStT";
    GreetingHeadAvoids();
    AvoidsLacksLetter(GreetingHead, cs, 'd');
    AvoidsLacksLetter(GreetingHead, cs, 'p');
    AvoidsLacksLetter(GreetingHead, cs, 's');
    AvoidsLacksLetter(GreetingHead, cs, 't');
  }

  lemma GreetingTailLetters()
    ensures LacksLetter(GreetingTail, 'r') && LacksLetter(GreetingTail, 'p')
    ensures LacksLetter(GreetingTail, 's') && LacksLetter(GreetingTail, 'i')
  {
    var cs := "rRpPsSiI";
    assert Avoids(GreetingTail, cs);
    AvoidsLacksLetter(GreetingTail, cs, 'r');
    AvoidsLacksLetter(GreetingTail, cs, 'p');
    AvoidsLacksLetter(GreetingTail, cs, 's');
    AvoidsLacksLetter(GreetingTail, cs, 'i');
  }

  /** The greeting reply carries no emotion. */
  lemma GreetingIsNeutral()
    ensures DetectEmotion(Responder.Greeting) == Neutral
  {
    GreetingSplit();
    GreetingHeadLetters();
    GreetingTailLetters();
    GreetingShapeIsNeutral(GreetingHead, GreetingTail);
  }

  /** The reply to a happy message is itself tagged happy. */
  lemma EncouragementIsHappy()
    ensures DetectEmotion(Responder.Encouragement) == Happy
  {
    EncouragementSplit();
    LowerContainsInfix("That’s ", "wonderful", "! Keep smiling 😊.");
  }

  lemma EncouragementSplit()
    ensures Responder.Encouragement == "That’s " + "wonderful" + "! Keep smiling 😊."
  {
  }

  /** Any text shaped like the comforting reply carries no emotion. */
  lemma ComfortShapeIsNeutral(a: string, b: string)
    requires LacksLetter(a, 'w') && LacksLetter(a, 'a') && LacksLetter(a, 's') && LacksLetter(a, 't')
    requires LacksLetter(b, 'w') && LacksLetter(b, 'y') && LacksLetter(b, 'i')
    ensures DetectEmotion(a + b) == Neutral
  {
    LowerMissingLetter(a + b, "wonderful", 0);
    LowerOutOfOrder(a, b, "happy", 1, 4);
    LowerOutOfOrder(a, b, "sorry", 0, 4);
    LowerOutOfOrder(a, b, "tired", 0, 1);
    NeutralWithoutKeywords(a + b);
  }

  lemma ComfortOpeningLetters()
    ensures LacksLetter(Responder.ComfortOpening, 'w') && LacksLetter(Responder.ComfortOpening, 'a')
    ensures LacksLetter(Responder.ComfortOpening, 's') && LacksLetter(Responder.ComfortOpening, 't')
  {
    var s, cs := Responder.ComfortOpening, "wWaAsStT";
    assert Avoids(s, cs);
    AvoidsLacksLetter(s, cs, 'w');
    AvoidsLacksLetter(s, cs, 'a');
    AvoidsLacksLetter(s, cs, 's');
    AvoidsLacksLetter(s, cs, 't');
  }

  lemma ComfortInvitationLetters()
    ensures LacksLetter(Responder.ComfortInvitation, 'w') && LacksLetter(Responder.ComfortInvitation, 'y')
    ensures LacksLetter(Responder.ComfortInvitation, 'i')
  {
    var s, cs := Responder.ComfortInvitation, "wWyYiI";
    assert Avoids(s, cs);
    AvoidsLacksLetter(s, cs, 'w');
    AvoidsLacksLetter(s, cs, 'y');
    AvoidsLacksLetter(s, cs, 'i');
  }

  /**
   * The comforting reply to a sad or tired message is tagged with no emotion:
   * it contains neither "sorry" nor "tired".
   */
  lemma ComfortIsNeutral()
    ensures DetectEmotion(Responder.Comfort) == Neutral
  {
    ComfortOpeningLetters();
    ComfortInvitationLetters();
    ComfortShapeIsNeutral(Responder.ComfortOpening, Responder.ComfortInvitation);
  }
}

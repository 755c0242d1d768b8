/**
 * The local rule-based responder (`ruleBasedReply`): case-insensitive keyword
 * rules checked in a fixed order, with a generic empathetic fallback.
 * The clock's formatted time and date are passed in as opaque strings.
 */
module Responder {
  import opened Text
  import opened Rules

  const Greeting := "Hello! How are you feeling today?"
  const MedicineReminder := "Please remember to take your medicine 💊."
  const MealSuggestion := "Let’s have a light meal 🍲."
  /** The comforting reply, kept as its two sentences. */
  const Comfort := ComfortOpening + ComfortInvitation
  const ComfortOpening := "I’m here for you 💙."
  const ComfortInvitation := " Let’s take a deep breath together."
  const Encouragement := "That’s wonderful! Keep smiling 😊."
  /** The reassuring reply, kept as its two sentences. */
  const Reassurance := ReassuranceOpening + ReassuranceIntroduction
  const ReassuranceOpening := "You’re safe at home."
  const ReassuranceIntroduction := " I’m your assistant here to help you."
  const Listening := "I’m listening carefully. How do you feel?"

  /** The locale-formatted time of day and date at the moment of the call. */
  datatype Clock = Clock(time: string, date: string)

  function TimeAnnouncement(clock: Clock): string {
    "It’s " + clock.time + " on " + clock.date + "."
  }

  /** Every keyword the responder reacts to. */
  const Keywords: seq<string> :=
    ["hello", "hi", "medicine", "food", "hungry", "sad", "tired", "happy", "who am i", "time", "date"]

  /** The responder's rules in priority order. */
  function ResponderRules(clock: Clock): seq<Rule> {
    [ Rule(["hello", "hi"], Greeting),
      Rule(["medicine"], MedicineReminder),
      Rule(["food", "hungry"], MealSuggestion),
      Rule(["sad", "tired"], Comfort),
      Rule(["happy"], Encouragement),
      Rule(["who am i"], Reassurance),
      Rule(["time", "date"], TimeAnnouncement(clock)) ]
  }

  lemma JoinTrimmed(a: string, b: string)
    requires a != [] && b != [] && !IsWhitespace(a[0]) && !IsWhitespace(b[|b| - 1])
    ensures IsTrimmed(a + b)
  {
  }

  /** No canned reply starts or ends with whitespace. */
  lemma CannedRepliesTrimmed()
    ensures IsTrimmed(Greeting) && IsTrimmed(MedicineReminder) && IsTrimmed(MealSuggestion)
    ensures IsTrimmed(Comfort) && IsTrimmed(Encouragement) && IsTrimmed(Reassurance)
    ensures IsTrimmed(Listening)
  {
    assert |Greeting| == 33 && Greeting[32] == '?';
    assert |MedicineReminder| == 40 && MedicineReminder[39] == '.';
    assert |MealSuggestion| == 26 && MealSuggestion[25] == '.';
    JoinTrimmed(ComfortOpening, ComfortInvitation);
    assert |Encouragement| == 33 && Encouragement[32] == '.';
    JoinTrimmed(ReassuranceOpening, ReassuranceIntroduction);
    assert |Listening| == 41 && Listening[40] == '?';
  }

  /** `ruleBasedReply(userText)`: never empty, and its ends are never whitespace. */
  function RuleBasedReply(userText: string, clock: Clock): (r: string)
    ensures |r| > 0
    ensures IsTrimmed(r)
  {
    CannedRepliesTrimmed();
    var t := ToLower(userText);
    if Includes(t, "hello") || Includes(t, "hi") then Greeting
    else if Includes(t, "medicine") then MedicineReminder
    else if Includes(t, "food") || Includes(t, "hungry") then MealSuggestion
    else if Includes(t, "sad") || Includes(t, "tired") then Comfort
    else if Includes(t, "happy") then Encouragement
    else if Includes(t, "who am i") then Reassurance
    else if Includes(t, "time") || Includes(t, "date") then
      var r := TimeAnnouncement(clock);
      assert r[0] == 'I' && r[|r| - 1] == '.';
      r
    else Listening
  }

  /** Only the fallback rule answers with the fallback text. */
  lemma RepliesDifferFromListening(clock: Clock)
    ensures forall i :: 0 <= i < |ResponderRules(clock)| ==> ResponderRules(clock)[i].reply != Listening
  {
    assert TimeAnnouncement(clock)[1] == 't' != Listening[1];
  }

  /** Which of the responder's rules fire on a lower-cased text. */
  lemma ResponderRulesFire(t: string, clock: Clock)
    ensures var rules := ResponderRules(clock);
            && (Fires(rules[0], t) <==> Contains(t, "hello") || Contains(t, "hi"))
            && (Fires(rules[1], t) <==> Contains(t, "medicine"))
            && (Fires(rules[2], t) <==> Contains(t, "food") || Contains(t, "hungry"))
            && (Fires(rules[3], t) <==> Contains(t, "sad") || Contains(t, "tired"))
            && (Fires(rules[4], t) <==> Contains(t, "happy"))
            && (Fires(rules[5], t) <==> Contains(t, "who am i"))
            && (Fires(rules[6], t) <==> Contains(t, "time") || Contains(t, "date"))
  {
    FiresPair("hello", "hi", Greeting, t);
    FiresSingle("medicine", MedicineReminder, t);
    FiresPair("food", "hungry", MealSuggestion, t);
    FiresPair("sad", "tired", Comfort, t);
    FiresSingle("happy", Encouragement, t);
    FiresSingle("who am i", Reassurance, t);
    FiresPair("time", "date", TimeAnnouncement(clock), t);
  }

  /** The if-chain answers with the reply of the first rule that fires. */
  lemma RuleBasedReplyFirstFiring(userText: string, clock: Clock)
    requires FirstFiring(ResponderRules(clock), ToLower(userText)) < |ResponderRules(clock)|
    ensures RuleBasedReply(userText, clock)
            == ResponderRules(clock)[FirstFiring(ResponderRules(clock), ToLower(userText))].reply
  {
    if FirstFiring(ResponderRules(clock), ToLower(userText)) < 4 {
      EarlyRuleFiring(userText, clock);
    } else {
      LateRuleFiring(userText, clock);
    }
  }

  lemma EarlyRuleFiring(userText: string, clock: Clock)
    requires FirstFiring(ResponderRules(clock), ToLower(userText)) < 4
    ensures RuleBasedReply(userText, clock)
            == ResponderRules(clock)[FirstFiring(ResponderRules(clock), ToLower(userText))].reply
  {
    var rules := ResponderRules(clock);
    var t := ToLower(userText);
    var i := FirstFiring(rules, t);
    ResponderRulesFire(t, clock);
    if i == 0 {
      assert Fires(rules[0], t);
    } else if i == 1 {
      assert !Fires(rules[0], t) && Fires(rules[1], t);
    } else if i == 2 {
      assert !Fires(rules[0], t) && !Fires(rules[1], t) && Fires(rules[2], t);
    } else {
      assert !Fires(rules[0], t) && !Fires(rules[1], t) && !Fires(rules[2], t);
      assert Fires(rules[3], t);
    }
  }

  lemma LateRuleFiring(userText: string, clock: Clock)
    requires 4 <= FirstFiring(ResponderRules(clock), ToLower(userText)) < 7
    ensures RuleBasedReply(userText, clock)
            == ResponderRules(clock)[FirstFiring(ResponderRules(clock), ToLower(userText))].reply
  {
    var rules := ResponderRules(clock);
    var t := ToLower(userText);
    var i := FirstFiring(rules, t);
    ResponderRulesFire(t, clock);
    assert !Fires(rules[0], t) && !Fires(rules[1], t) && !Fires(rules[2], t) && !Fires(rules[3], t);
    if i == 4 {
      assert Fires(rules[4], t);
    } else if i == 5 {
      assert !Fires(rules[4], t) && Fires(rules[5], t);
    } else {
      assert !Fires(rules[4], t) && !Fires(rules[5], t);
      assert Fires(rules[6], t);
    }
  }

  /** When no rule fires the if-chain falls through to the fallback. */
  lemma RuleBasedReplyNoneFiring(userText: string, clock: Clock)
    requires FirstFiring(ResponderRules(clock), ToLower(userText)) == |ResponderRules(clock)|
    ensures RuleBasedReply(userText, clock) == Listening
  {
    var rules := ResponderRules(clock);
    var t := ToLower(userText);
    ResponderRulesFire(t, clock);
    assert !Fires(rules[0], t) && !Fires(rules[1], t) && !Fires(rules[2], t) && !Fires(rules[3], t);
    assert !Fires(rules[4], t) && !Fires(rules[5], t) && !Fires(rules[6], t);
  }

  /** The if-chain is exactly the first-match reading of the rule list. */
  lemma RuleBasedReplyFollowsRules(userText: string, clock: Clock)
    ensures RuleBasedReply(userText, clock)
            == FirstMatch(ResponderRules(clock), ToLower(userText), Listening)
  {
    var rules := ResponderRules(clock);
    var t := ToLower(userText);
    var i := FirstFiring(rules, t);
    if i < |rules| {
      RuleBasedReplyFirstFiring(userText, clock);
      FirstMatchPicksFirstFiring(rules, t, Listening, i);
    } else {
      RuleBasedReplyNoneFiring(userText, clock);
      RepliesDifferFromListening(clock);
      FirstMatchFallbackIffSilent(rules, t, Listening);
    }
  }

  /** A greeting keyword wins over every other keyword in the same message. */
  lemma GreetingTakesPriority(userText: string, clock: Clock)
    requires Contains(ToLower(userText), "hello") || Contains(ToLower(userText), "hi")
    ensures RuleBasedReply(userText, clock) == Greeting
  {
  }

  /** Without a greeting, "medicine" wins over the food, mood, identity and time rules. */
  lemma MedicineBeforeLaterRules(userText: string, clock: Clock)
    requires !Contains(ToLower(userText), "hello") && !Contains(ToLower(userText), "hi")
    requires Contains(ToLower(userText), "medicine")
    ensures RuleBasedReply(userText, clock) == MedicineReminder
  {
  }

  /** The fallback answer comes out exactly when the text holds none of the keywords. */
  lemma ListeningIffNoKeyword(userText: string, clock: Clock)
    ensures RuleBasedReply(userText, clock) == Listening
            <==> forall k :: k in Keywords ==> !Contains(ToLower(userText), k)
  {
    if forall k :: k in Keywords ==> !Contains(ToLower(userText), k) {
      NoKeywordListens(userText, clock);
    } else {
      var k :| k in Keywords && Contains(ToLower(userText), k);
      KeywordAnswered(userText, clock, k);
    }
  }

  lemma NoKeywordListens(userText: string, clock: Clock)
    requires forall k :: k in Keywords ==> !Contains(ToLower(userText), k)
    ensures RuleBasedReply(userText, clock) == Listening
  {
    var t := ToLower(userText);
    assert !Contains(t, Keywords[0]) && !Contains(t, Keywords[1]) && !Contains(t, Keywords[2]);
    assert !Contains(t, Keywords[3]) && !Contains(t, Keywords[4]) && !Contains(t, Keywords[5]);
    assert !Contains(t, Keywords[6]) && !Contains(t, Keywords[7]) && !Contains(t, Keywords[8]);
    assert !Contains(t, Keywords[9]) && !Contains(t, Keywords[10]);
  }

  lemma KeywordAnswered(userText: string, clock: Clock, k: string)
    requires k in Keywords && Contains(ToLower(userText), k)
    ensures RuleBasedReply(userText, clock) != Listening
  {
    assert TimeAnnouncement(clock)[1] == 't' != Listening[1];
  }

  /** Upper and lower case make no difference to the answer. */
  lemma RuleBasedReplyCaseInsensitive(userText: string, clock: Clock)
    ensures RuleBasedReply(ToLower(userText), clock) == RuleBasedReply(userText, clock)
  {
    ToLowerIdempotent(userText);
  }

  /**
   * "hi" is matched anywhere, also inside words: a sad message that says
   * "think" is answered with the greeting.
   */
  lemma EmbeddedHiGreets(clock: Clock)
    ensures RuleBasedReply("I think I am sad", clock) == Greeting
  {
    var t := ToLower("I think I am sad");
    assert t[3] == 'h' && t[4] == 'i';
    assert t[3..5] == "hi";
    assert OccursAt(t, "hi", 3);
  }
}

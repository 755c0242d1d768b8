/**
 * The database trigger (`onNewPatientMessage`): runs once per message created
 * under a conversation, ignores what it cannot or must not answer, and
 * otherwise appends one assistant record to the same conversation.
 *
 * The database write becomes the returned `Action`; the environment (API key,
 * the outcome of the remote call, the local clock and the current instant in
 * ISO-8601 form) is passed in.
 */
module Trigger {
  import opened Options
  import opened Text
  import Responder
  import Emotion
  import Generator

  /** The sender id the assistant writes its own messages under. */
  const AssistantId := "assistant_bot"

  /**
   * A created message as far as the trigger reads it. A field that is absent,
   * null or otherwise falsy is `None`; `Some("")` stands for the empty string.
   */
  datatype Message = Message(senderId: Option<string>, text: Option<string>)

  /** The record the assistant appends to a conversation. */
  datatype Record = Record(senderId: string, text: string, emotion: string, timestamp: string)

  /** The created node: its conversation (`uid`) and its value, if any. */
  datatype Event = Event(conversation: string, data: Option<Message>)

  datatype Action = NoAction | Append(conversation: string, record: Record)

  /** Everything outside the event that the trigger and the generator consult. */
  datatype Environment = Environment(
    apiKey: Option<string>,
    remote: Generator.RemoteOutcome,
    clock: Responder.Clock,
    now: string)

  /** The trigger ignores a message that is absent, its own, or blank. */
  predicate Ignored(event: Event) {
    || event.data.None?
    || event.data.value.senderId == Some(AssistantId)
    || AllWhitespace(event.data.value.text.GetOr(""))
  }

  /** `onNewPatientMessage`: at most one record, written by the assistant. */
  function OnNewPatientMessage(event: Event, env: Environment): (a: Action)
    ensures a == NoAction <==> Ignored(event)
    ensures a.Append? ==> a.conversation == event.conversation
    ensures a.Append? ==> a.record.senderId == AssistantId && a.record.text != []
    ensures a.Append? ==> a.record.emotion in {Emotion.Happy, Emotion.Sad, Emotion.Neutral}
    ensures a.Append? ==> a.record.timestamp == env.now
  {
    match event.data
    case None => NoAction
    case Some(msg) =>
      if msg.senderId == Some(AssistantId) then NoAction
      else
        var userText := msg.text.GetOr("");
        TrimEmptyIffAllWhitespace(userText);
        if Trim(userText) == [] then NoAction
        else
          var reply := Generator.GenerateReply(env.apiKey, env.remote, userText, env.clock);
          Append(event.conversation, Record(AssistantId, reply, Emotion.DetectEmotion(reply), env.now))
  }

  /**
   * An answered message gets the generator's reply to its untrimmed text,
   * tagged with the emotion detected in that reply.
   */
  lemma AnsweredRecord(event: Event, env: Environment)
    requires !Ignored(event)
    ensures var reply := Generator.GenerateReply(env.apiKey, env.remote, event.data.value.text.value, env.clock);
            OnNewPatientMessage(event, env)
            == Append(event.conversation, Record(AssistantId, reply, Emotion.DetectEmotion(reply), env.now))
  {
  }

  /**
   * The assistant never answers itself: the record it appends, read back as
   * a new message, is ignored.
   */
  lemma NoReplyLoop(event: Event, env: Environment, env2: Environment)
    requires !Ignored(event)
    ensures var a := OnNewPatientMessage(event, env);
            var echo := Event(a.conversation, Some(Message(Some(a.record.senderId), Some(a.record.text))));
            OnNewPatientMessage(echo, env2) == NoAction
  {
  }

  /** A patient's "Hello" is greeted, and the greeting carries no emotion. */
  lemma HelloScenario(conversation: string, clock: Responder.Clock, now: string)
    ensures var env := Environment(None, Generator.Failure, clock, now);
            var event := Event(conversation, Some(Message(Some("u1"), Some("Hello"))));
            OnNewPatientMessage(event, env)
            == Append(conversation, Record(AssistantId, Responder.Greeting, Emotion.Neutral, now))
  {
    var env := Environment(None, Generator.Failure, clock, now);
    var event := Event(conversation, Some(Message(Some("u1"), Some("Hello"))));
    assert !AllWhitespace("Hello") by {
      assert !IsWhitespace("Hello"[0]);
    }
    AnsweredRecord(event, env);
    Generator.NoCredentialUsesRules(None, Generator.Failure, "Hello", clock);
    HelloTextReply("Hello", clock);
    Emotion.GreetingIsNeutral();
  }

  lemma HelloTextReply(text: string, clock: Responder.Clock)
    requires text == "Hello"
    ensures Responder.RuleBasedReply(text, clock) == Responder.Greeting
  {
    var t := ToLower(text);
    assert t[..5] == "hello";
    assert OccursAt(t, "hello", 0);
  }

  /** "I feel sad and tired" is comforted, and the comfort carries no emotion. */
  lemma SadScenario(conversation: string, clock: Responder.Clock, now: string)
    ensures var env := Environment(None, Generator.Failure, clock, now);
            var event := Event(conversation, Some(Message(Some("u1"), Some("I feel sad and tired"))));
            OnNewPatientMessage(event, env)
            == Append(conversation, Record(AssistantId, Responder.Comfort, Emotion.Neutral, now))
  {
    var text := "I feel sad and tired";
    var env := Environment(None, Generator.Failure, clock, now);
    var event := Event(conversation, Some(Message(Some("u1"), Some(text))));
    assert !AllWhitespace(text) by {
      assert !IsWhitespace(text[0]);
    }
    AnsweredRecord(event, env);
    Generator.NoCredentialUsesRules(None, Generator.Failure, text, clock);
    SadTextReply(text, clock);
    Emotion.ComfortIsNeutral();
  }

  lemma SadTextReply(text: string, clock: Responder.Clock)
    requires text == "I feel sad and tired"
    ensures Responder.RuleBasedReply(text, clock) == Responder.Comfort
  {
    SadTextLetters(text);
    LowerMissingLetter(text, "hello", 0);
    LowerMissingLetter(text, "hi", 0);
    LowerMissingLetter(text, "medicine", 0);
    LowerMissingLetter(text, "food", 1);
    LowerMissingLetter(text, "hungry", 0);
    var t := ToLower(text);
    assert t[7..10] == "sad";
    assert OccursAt(t, "sad", 7);
  }

  lemma SadTextLetters(text: string)
    requires text == "I feel sad and tired"
    ensures LacksLetter(text, 'h') && LacksLetter(text, 'm') && LacksLetter(text, 'o')
  {
    var cs := "hHmMoO";
    assert Avoids(text, cs);
    AvoidsLacksLetter(text, cs, 'h');
    AvoidsLacksLetter(text, cs, 'm');
    AvoidsLacksLetter(text, cs, 'o');
  }

  /** A message the assistant wrote itself is never answered. */
  lemma OwnMessageScenario(conversation: string, text: Option<string>, env: Environment)
    ensures OnNewPatientMessage(Event(conversation, Some(Message(Some(AssistantId), text))), env) == NoAction
  {
  }
}

# Dementia-care auto-reply assistant: a Dafny model of the reply logic

This is a model of the cloud function that answers a dementia patient's chat
messages. When a patient writes a message into a conversation, the trigger
`onNewPatientMessage` runs and does three things:

- it skips messages that are absent, written by the assistant itself, or blank;
- it asks `generateReply` for an answer, which comes from a remote
  chat-completion service when an API key is configured and from the local
  keyword responder `ruleBasedReply` otherwise or on any failure;
- it appends one record to the same conversation: sender `assistant_bot`, the
  reply, the emotion tag `detectEmotion` gives the reply, and a timestamp.

The modules follow the program's parts:

- `Options`: the optional values used for absent fields.
- `Text`: substring search (`includes`), ASCII lower-casing (`toLowerCase`) and
  trimming with the ECMAScript whitespace set (`trim`).
- `Rules`: ordered keyword rules with a first-match reading. This is the
  independent reference definition that both if-chains are proved equal to.
- `Responder`: `ruleBasedReply` and its canned replies.
- `Emotion`: `detectEmotion`.
- `Generator`: `generateReply`. The remote call's outcome is a parameter.
- `Trigger`: `onNewPatientMessage`. The database write is a returned action.

Inputs from outside are parameters:

- the API key;
- the remote outcome;
- the locale-formatted time and date (`Responder.Clock`);
- the ISO timestamp (`Trigger.Environment.now`).

## Model

| member | source | states |
|---|---|---|
| Text.Includes | functions/src/index.ts:87-110 | `includes` answers true exactly when the keyword occurs at some position of the text |
| Text.ToLowerHasNoUpper | functions/src/index.ts:85 | lower-casing keeps the length and leaves no capital letter behind |
| Text.ToLowerIdempotent | functions/src/index.ts:108 | lower-casing an already lower-cased text changes nothing |
| Text.Trim | functions/src/index.ts:74 | `trim` yields a text with no whitespace at either end, obtained by removing only whitespace from the two ends |
| Text.TrimEmptyIffAllWhitespace | functions/src/index.ts:28 | a text trims to the empty string exactly when every character is whitespace |
| Text.TrimIdempotent | functions/src/index.ts:74 | trimming twice is the same as trimming once |
| Responder.RuleBasedReply | functions/src/index.ts:84-104 | the local reply is never empty and never starts or ends with whitespace, the time announcement included |
| Responder.CannedRepliesTrimmed | functions/src/index.ts:88-103 | none of the fixed reply strings starts or ends with whitespace |
| Responder.RuleBasedReplyFirstFiring | functions/src/index.ts:86-102 | when some rule's keyword occurs, the answer is the reply of the first such rule in order |
| Responder.RuleBasedReplyNoneFiring | functions/src/index.ts:103 | when no rule's keyword occurs, the answer is the listening fallback |
| Responder.RuleBasedReplyFollowsRules | functions/src/index.ts:84-104 | the if-chain equals the first-match reading of the seven keyword rules with the listening fallback |
| Responder.GreetingTakesPriority | functions/src/index.ts:87-88 | a text containing "hello" or "hi" is answered with the greeting, whatever other keywords it holds |
| Responder.MedicineBeforeLaterRules | functions/src/index.ts:89-90 | without a greeting keyword, "medicine" beats the food, mood, identity and time keywords |
| Responder.ListeningIffNoKeyword | functions/src/index.ts:87-103 | the fallback "I’m listening carefully. How do you feel?" comes out exactly when none of the eleven keywords occurs |
| Responder.NoKeywordListens | functions/src/index.ts:103 | no keyword in the lower-cased text gives the fallback |
| Responder.KeywordAnswered | functions/src/index.ts:87-102 | any keyword in the lower-cased text gives an answer other than the fallback |
| Responder.RuleBasedReplyCaseInsensitive | functions/src/index.ts:85 | lower-casing the message first does not change the answer |
| Responder.EmbeddedHiGreets | functions/src/index.ts:87 | "hi" is matched inside words: "I think I am sad" is answered with the greeting, not with comfort |
| Emotion.DetectEmotion | functions/src/index.ts:107-112 | the tag is always one of "happy", "sad" or "" |
| Emotion.DetectEmotionCases | functions/src/index.ts:107-112 | "happy" exactly when "wonderful" or "happy" occurs; "sad" exactly when neither occurs but "sorry" or "tired" does; "" exactly when none of the four occurs |
| Emotion.DetectEmotionFollowsRules | functions/src/index.ts:107-112 | the tagger equals the first-match reading of its two rules with "" as fallback |
| Emotion.DetectEmotionCaseInsensitive | functions/src/index.ts:108 | lower-casing the text first does not change the tag |
| Emotion.NeutralWithoutKeywords | functions/src/index.ts:111 | a text with none of the four keywords gets the empty tag |
| Emotion.GreetingIsNeutral | functions/src/index.ts:88 | the greeting reply is tagged "" |
| Emotion.EncouragementIsHappy | functions/src/index.ts:96 | the reply to a happy message is tagged "happy", because it says "wonderful" |
| Emotion.ComfortIsNeutral | functions/src/index.ts:94 | the comforting reply to a sad or tired message is tagged "", not "sad" |
| Generator.RemoteReply | functions/src/index.ts:73-76 | remote content is used exactly when the call succeeded with content that is not blank, and then it is non-empty and trimmed |
| Generator.GenerateReply | functions/src/index.ts:45-81 | the generated reply is never empty and never starts or ends with whitespace |
| Generator.NoCredentialUsesRules | functions/src/index.ts:46-49 | with no API key or an empty one, the reply is the local responder's, whatever the remote service would say |
| Generator.RemoteContentUsed | functions/src/index.ts:73-76 | with a key and non-blank content, the reply is exactly that content trimmed |
| Generator.RemoteFallback | functions/src/index.ts:76-80 | with a key, a thrown error, a missing content field or blank content give the local responder's reply |
| Generator.GenerateReplySources | functions/src/index.ts:45-81 | every reply is the local responder's or trimmed remote content, and remote content only with a key |
| Trigger.OnNewPatientMessage | functions/src/index.ts:18-42 | nothing is written exactly when the message is absent, from `assistant_bot`, or blank; otherwise one record goes to the same conversation, from `assistant_bot`, with non-empty text, a tag from the closed vocabulary and the current timestamp |
| Trigger.AnsweredRecord | functions/src/index.ts:30-38 | an answered message's record holds the generated reply to the untrimmed text and the tag of that reply |
| Trigger.NoReplyLoop | functions/src/index.ts:25-38 | the assistant's own record, read back as a new message, is never answered |
| Trigger.HelloScenario | functions/src/index.ts:18-42 | "Hello" from a patient, with no key, appends the greeting tagged "" |
| Trigger.SadScenario | functions/src/index.ts:18-42 | "I feel sad and tired", with no key, appends the comforting reply tagged "" |
| Trigger.OwnMessageScenario | functions/src/index.ts:25 | a message whose sender is `assistant_bot` is never answered, whatever its text |

## Left out

- Text.ToLower: only A–Z are lower-cased. JavaScript's `toLowerCase` also maps
  other capitals, and some of them (`İ`, the Kelvin sign) lower-case to ASCII
  letters that could then match a keyword. The case-insensitivity lemmas hold
  for this ASCII mapping only.
- Text.Includes: the search works on Unicode code points, not on UTF-16 code
  units. This agrees with `includes` for the ASCII keywords searched for here.
- Firebase initialisation, trigger registration, the database path pattern and
  the `push` call are out of the model. The pushed record is returned as
  `Trigger.Append`.
- The logger calls at lines 40 and 78 have no effect on the result and are not
  modelled.
- The HTTP request, its headers and body, the JSON decoding, `temperature` and
  `max_tokens` are not modelled. They are summarised by
  `Generator.RemoteOutcome`: `Failure` for any thrown error, otherwise the
  content field if present.
- `new Date()`, `toLocaleTimeString`, `toLocaleDateString` and `toISOString`
  are not modelled. Their strings are parameters.
- Message fields of non-string types are not modelled. A truthy non-string
  `text` would make `trim` throw, and the function would fail without writing.
  Falsy values of any type are modelled as `None`.
- Reading the API key from the process environment is not modelled. The key is
  a parameter.
- The Android application and its build configuration are not part of this
  model.

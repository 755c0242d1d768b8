/**
 * The reply generator (`generateReply`): asks a remote chat-completion service
 * when an API key is configured and falls back to the rule-based responder
 * whenever there is no key, the request fails, or the answer is empty.
 *
 * The request itself is not modelled; its outcome is a parameter.
 */
module Generator {
  import opened Options
  import opened Text
  import Responder

  /**
   * What the remote call produced: `Failure` for a thrown error (network,
   * HTTP body not JSON, a content field that is not a string), otherwise the
   * answer's first choice's message content, `None` when that path is absent.
   */
  datatype RemoteOutcome = Failure | Answer(content: Option<string>)

  /** An API key that is present and not the empty string. */
  predicate HasCredential(apiKey: Option<string>) {
    apiKey.Some? && apiKey.value != ""
  }

  /** The trimmed remote content, when there is a non-empty one. */
  function RemoteReply(remote: RemoteOutcome): (r: Option<string>)
    ensures r.Some? ==> r.value != [] && IsTrimmed(r.value)
    ensures r.Some? <==> remote.Answer? && remote.content.Some? && !AllWhitespace(remote.content.value)
  {
    match remote
    case Failure => None
    case Answer(None) => None
    case Answer(Some(c)) =>
      TrimEmptyIffAllWhitespace(c);
      var t := Trim(c);
      if t == [] then None else Some(t)
  }

  /** `generateReply(userText)`: never empty, and its ends are never whitespace. */
  function GenerateReply(apiKey: Option<string>, remote: RemoteOutcome,
                         userText: string, clock: Responder.Clock): (r: string)
    ensures r != []
    ensures IsTrimmed(r)
  {
    if !HasCredential(apiKey) then Responder.RuleBasedReply(userText, clock)
    else RemoteReply(remote).GetOr(Responder.RuleBasedReply(userText, clock))
  }

  /** Without a usable key the local responder answers and nothing remote matters. */
  lemma NoCredentialUsesRules(apiKey: Option<string>, remote: RemoteOutcome,
                              userText: string, clock: Responder.Clock)
    requires apiKey == None || apiKey == Some("")
    ensures GenerateReply(apiKey, remote, userText, clock) == Responder.RuleBasedReply(userText, clock)
  {
  }

  /** With a key, non-blank remote content is the reply, trimmed at both ends. */
  lemma RemoteContentUsed(apiKey: Option<string>, content: string,
                          userText: string, clock: Responder.Clock)
    requires HasCredential(apiKey) && !AllWhitespace(content)
    ensures GenerateReply(apiKey, Answer(Some(content)), userText, clock) == Trim(content)
  {
  }

  /**
   * With a key, a failed call, a missing content field or blank content all
   * give the local responder's answer.
   */
  lemma RemoteFallback(apiKey: Option<string>, remote: RemoteOutcome,
                       userText: string, clock: Responder.Clock)
    requires HasCredential(apiKey)
    requires remote == Failure || remote == Answer(None)
             || (remote.Answer? && remote.content.Some? && AllWhitespace(remote.content.value))
    ensures GenerateReply(apiKey, remote, userText, clock) == Responder.RuleBasedReply(userText, clock)
  {
  }

  /**
   * The reply is either the local responder's answer or the trimmed remote
   * content, and the latter only when a key is configured.
   */
  lemma GenerateReplySources(apiKey: Option<string>, remote: RemoteOutcome,
                             userText: string, clock: Responder.Clock)
    ensures var r := GenerateReply(apiKey, remote, userText, clock);
            r == Responder.RuleBasedReply(userText, clock)
            || (HasCredential(apiKey) && remote.Answer? && remote.content.Some?
                && r == Trim(remote.content.value))
  {
  }
}

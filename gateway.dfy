/** The completion endpoint as the interview engine sees it: an injected oracle, the API
    key, parse_response, and chat_completion's splice of the summary at index 1. */
module Gateway {
  import opened Wrappers
  import opened Transcript

  /** `response.json()` as far as parse_response reads it: Some(text) when the payload has
      completion_message.content.text, None when a key on that path is missing. */
  type Payload = Option<string>

  /** What `requests.post` does with a request: it raises, or it returns a payload. */
  datatype Reply = Unreachable | Delivered(payload: Payload)

  /** The process environment: the LLAMA_API_KEY variable, the completion service as a
      function of the messages posted to it, and dateutil's parse as a predicate. */
  datatype Env = Env(apiKey: Option<string>, complete: seq<Message> -> Reply, parsesDate: string -> bool)

  /** `if not api_key`: an unset or empty key is missing. */
  predicate HasApiKey(key: Option<string>) {
    key.Some? && key.value != ""
  }

  /** `response["completion_message"]["content"]["text"]`, or ValueError. */
  function ParseResponse(p: Payload): (r: Result<string>)
    ensures r.Ok? <==> p.Some?
    ensures r.Ok? ==> r.value == p.value
    ensures r.Err? ==> r.error == InvalidResponse
  {
    match p
    case Some(text) => Ok(text)
    case None => Err(InvalidResponse)
  }

  /** The result of one step together with the conversation it leaves behind. */
  datatype Exchange<T> = Exchange(result: Result<T>, conversation: seq<Message>)

  /** The messages chat_completion posts: the conversation, with the summary message (when
      the answers give one) inserted right after the system prompt. */
  function Posted(conv: seq<Message>, summary: Option<Message>): (r: seq<Message>)
    requires |conv| >= 1
    ensures |r| >= 1 && r[0] == conv[0]
  {
    match summary
    case None => conv
    case Some(m) => InsertAt1(conv, m)
  }

  /** chat_completion, given the summary message of the answers: the key is checked before
      the conversation is touched; the summary is inserted at index 1 and the request is
      posted; when the post returns, the summary is popped again and the conversation is
      as it was; when the post raises, the summary stays. */
  function Completion(env: Env, conv: seq<Message>, summary: Option<Message>): (x: Exchange<Payload>)
    requires |conv| >= 1
    ensures |x.conversation| >= 1 && x.conversation[0] == conv[0]
    ensures x.result.Ok? ==> x.conversation == conv
    ensures x.result.Err? ==> x.result.error == MissingApiKey || x.result.error == TransportFailure
    ensures x.result == Err(MissingApiKey) <==> !HasApiKey(env.apiKey)
  {
    if !HasApiKey(env.apiKey) then Exchange(Err(MissingApiKey), conv)
    else
      var sent := Posted(conv, summary);
      match env.complete(sent)
      case Unreachable => Exchange(Err(TransportFailure), sent)
      case Delivered(p) => Exchange(Ok(p), conv)
  }

  /** A missing key raises before anything is posted or inserted. */
  lemma MissingKeyTouchesNothing(env: Env, conv: seq<Message>, summary: Option<Message>)
    requires |conv| >= 1 && !HasApiKey(env.apiKey)
    ensures Completion(env, conv, summary) == Exchange(Err(MissingApiKey), conv)
  {
  }

  /** When the post raises, the summary stays in the conversation: the pop is not reached. */
  lemma TransportFailureLeavesSummary(env: Env, conv: seq<Message>, summary: Option<Message>)
    requires |conv| >= 1 && HasApiKey(env.apiKey) && env.complete(Posted(conv, summary)) == Unreachable
    ensures Completion(env, conv, summary) == Exchange(Err(TransportFailure), Posted(conv, summary))
    ensures summary.Some? ==> Completion(env, conv, summary).conversation == conv[..1] + [summary.value] + conv[1..]
  {
  }

  /** The post returns the payload for the conversation with the summary inserted, and
      pop(1) after insert(1, m) gives the conversation back. */
  lemma DeliveredRestores(env: Env, conv: seq<Message>, summary: Option<Message>)
    requires |conv| >= 1 && HasApiKey(env.apiKey) && env.complete(Posted(conv, summary)).Delivered?
    ensures Completion(env, conv, summary) == Exchange(Ok(env.complete(Posted(conv, summary)).payload), conv)
    ensures summary.Some? ==> PopAt1(Posted(conv, summary)) == conv
  {
    if summary.Some? {
      PopAt1UndoesInsertAt1(conv, summary.value);
    }
  }
}

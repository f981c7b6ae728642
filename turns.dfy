/** How a turn and the command-line loop end, in either variant. */
module Turns {
  import opened Wrappers
  import opened Forms
  import opened Transcript

  const EndedMessage: string := "\U{2705} Interview ended. Thank you for your responses!"
  const CompletedMessage: string := "\U{2705} All questions are answered and saved. Thank you!"

  /** How a turn of process_user_message ends. */
  datatype Outcome =
    | Exited                  // an exit phrase was found
    | Retried(text: string)   // the extraction failed and the retry reply was returned
    | Replied(text: string)   // the general reply was returned
    | Completed               // the general reply was given and every field is filled
    | Raised(error: Error)    // an exception escaped
  {
    /** What process_user_message returns as its message, or raises. */
    function ReturnValue(): (r: Result<string>)
      ensures r.Err? <==> Raised?
    {
      match this
      case Exited => Ok(EndedMessage)
      case Retried(t) => Ok(t)
      case Replied(t) => Ok(t)
      case Completed => Ok(CompletedMessage)
      case Raised(e) => Err(e)
    }
  }

  /** A turn's outcome, the conversation and answers it leaves, and what it saved, in order. */
  datatype TurnResult = TurnResult(outcome: Outcome, conversation: seq<Message>, answers: Answers, saves: seq<Saved>)

  /** Why a command-line loop stopped: the `break`s, or an exception (input()'s EOFError
      included). */
  datatype LoopEnd = EmptyLine | ExitPhrase | RequiredDone | Stopped(error: Error)

  datatype LoopResult = LoopResult(end: LoopEnd, conversation: seq<Message>, answers: Answers, saves: seq<Saved>)

  /** r with the saves made before it in front of its own. */
  function After(saved: seq<Saved>, r: LoopResult): LoopResult {
    r.(saves := saved + r.saves)
  }

  /** Saves made in two steps are the saves of both, in order. */
  lemma AfterAfter(first: seq<Saved>, second: seq<Saved>, r: LoopResult)
    ensures After(first, After(second, r)) == After(first + second, r)
  {
    assert first + (second + r.saves) == (first + second) + r.saves;
  }
}

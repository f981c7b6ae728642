/** Option and Result, plus the error kinds the interview engine can raise. */
module Wrappers {

  datatype Option<+T> = None | Some(value: T)

  /** The exceptions that escape the gateway, the matcher, the extractor and the turn controller. */
  datatype Error =
    | MissingApiKey        // RuntimeError: no LLAMA_API_KEY in the environment
    | TransportFailure     // requests.post raised (network failure)
    | InvalidResponse      // ValueError: the payload lacks completion_message.content.text
    | EndOfInput           // EOFError from input() in the command-line loops

  datatype Result<+T> = Ok(value: T) | Err(error: Error)
}

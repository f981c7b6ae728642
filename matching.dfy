/** Field matching and exit-phrase detection: the parts of the controller that are the same
    in both variants. */
module Matching {
  import opened Wrappers
  import opened Text
  import opened Transcript
  import opened Gateway

  /** The first field equal to text ignoring case. */
  function FirstMatch(fields: seq<string>, text: string): (r: Option<string>)
    ensures r.Some? ==> r.value in fields
  {
    if fields == [] then None
    else if Lower(text) == Lower(fields[0]) then Some(fields[0])
    else FirstMatch(fields[1..], text)
  }

  /** No match means no field equals text ignoring case. */
  lemma {:induction false} FirstMatchNone(fields: seq<string>, text: string)
    ensures FirstMatch(fields, text).None? <==>
            forall i :: 0 <= i < |fields| ==> Lower(fields[i]) != Lower(text)
  {
    if fields != [] {
      FirstMatchNone(fields[1..], text);
      assert forall i :: 1 <= i < |fields| ==> fields[i] == fields[1..][i - 1];
    }
  }

  /** A match is the earliest field of the list that equals text ignoring case. */
  lemma {:induction false} FirstMatchIsFirst(fields: seq<string>, text: string) returns (i: nat)
    requires FirstMatch(fields, text).Some?
    ensures i < |fields| && fields[i] == FirstMatch(fields, text).value
    ensures Lower(fields[i]) == Lower(text)
    ensures forall j :: 0 <= j < i ==> Lower(fields[j]) != Lower(text)
  {
    if Lower(text) == Lower(fields[0]) {
      i := 0;
    } else {
      var k := FirstMatchIsFirst(fields[1..], text);
      i := k + 1;
    }
  }

  /** The for-loop of ask_llama_to_match_field over the unanswered fields. */
  method FindField(fields: seq<string>, text: string) returns (r: Option<string>)
    ensures r == FirstMatch(fields, text)
  {
    var i := 0;
    while i < |fields|
      invariant 0 <= i <= |fields|
      invariant FirstMatch(fields, text) == FirstMatch(fields[i..], text)
    {
      if Lower(text) == Lower(fields[i]) {
        return Some(fields[i]);
      }
      assert fields[i..][1..] == fields[i + 1..];
      i := i + 1;
    }
    return None;
  }

  /** ask_llama_to_match_field, given the summary message of the answers: append the
      probe, call the gateway, parse, pop the probe, then take the first unanswered field
      equal to the stripped reply ignoring case. */
  function FieldMatch(env: Env, conv: seq<Message>, utterance: string, unanswered: seq<string>, summary: Option<Message>)
      : (x: Exchange<Option<string>>)
    requires |conv| >= 1
    ensures |x.conversation| >= 1 && x.conversation[0] == conv[0]
    ensures x.result.Ok? ==> x.conversation == conv
    ensures x.result.Ok? && x.result.value.Some? ==> x.result.value.value in unanswered
  {
    var probed := MatchProbe(conv, utterance, unanswered);
    var c := Completion(env, probed, summary);
    match c.result
    case Err(e) => Exchange(Err(e), c.conversation)
    case Ok(payload) =>
      match ParseResponse(payload)
      case Err(e) => Exchange(Err(e), c.conversation)
      case Ok(text) => Exchange(Ok(FirstMatch(unanswered, Strip(text))), PopLast(c.conversation))
  }

  /** On a delivered reply, the matcher's answer is the first unanswered field equal to the
      stripped reply ignoring case, and the conversation is as before. */
  lemma FieldMatchOfReply(env: Env, conv: seq<Message>, utterance: string, unanswered: seq<string>,
                          summary: Option<Message>, reply: string)
    requires |conv| >= 1 && HasApiKey(env.apiKey)
    requires env.complete(Posted(MatchProbe(conv, utterance, unanswered), summary)) == Delivered(Some(reply))
    ensures FieldMatch(env, conv, utterance, unanswered, summary) == Exchange(Ok(FirstMatch(unanswered, Strip(reply))), conv)
  {
  }

  /** A payload without the text leaves the probe in the conversation. */
  lemma MalformedMatchLeavesProbe(env: Env, conv: seq<Message>, utterance: string, unanswered: seq<string>,
                                  summary: Option<Message>)
    requires |conv| >= 1 && HasApiKey(env.apiKey)
    requires env.complete(Posted(MatchProbe(conv, utterance, unanswered), summary)) == Delivered(None)
    ensures FieldMatch(env, conv, utterance, unanswered, summary) ==
            Exchange(Err(InvalidResponse), conv + [Message(User, MatchRequest(unanswered, utterance))])
  {
  }

  const ExitPhrases: seq<string> := ["i'm done", "done answering", "no more questions", "bye", "that's all"]

  /** `any(p in user_input.lower() for p in exit_phrases)`. */
  predicate HasExitPhrase(utterance: string) {
    exists i :: 0 <= i < |ExitPhrases| && Contains(Lower(utterance), ExitPhrases[i])
  }

  /** An exit phrase anywhere in the utterance, in any case, is detected: the check is a
      case-insensitive substring test, not a whole-utterance comparison. */
  lemma ExitPhraseAnywhere(before: string, word: string, after: string, i: int)
    requires 0 <= i < |ExitPhrases| && Lower(word) == ExitPhrases[i]
    ensures HasExitPhrase(before + word + after)
  {
    LowerAppend(before + word, after);
    LowerAppend(before, word);
    assert Lower(before + word + after) == Lower(before) + ExitPhrases[i] + Lower(after);
    ContainsInfix(Lower(before), ExitPhrases[i], Lower(after));
  }

  /** In particular an exit phrase written as listed is detected wherever it stands. */
  lemma ExitPhraseVerbatim(before: string, after: string, i: int)
    requires 0 <= i < |ExitPhrases| && IsLowerCase(ExitPhrases[i])
    ensures HasExitPhrase(before + ExitPhrases[i] + after)
  {
    LowerOfLowerCase(ExitPhrases[i]);
    ExitPhraseAnywhere(before, ExitPhrases[i], after, i);
  }

  /** An exit phrase in capitals is detected too. */
  lemma ShoutedExitPhrase()
    ensures HasExitPhrase("OK BYE!")
  {
    assert Lower("BYE") == "bye";
    ExitPhraseAnywhere("OK ", "BYE", "!", 3);
    assert "OK " + "BYE" + "!" == "OK BYE!";
  }
}

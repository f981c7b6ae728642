/** The conversation transcript: role-tagged messages, and the two splices the gateway and
    the probes perform on it. */
module Transcript {
  import opened Text
  import opened Forms

  datatype Role = System | User | Assistant

  /** What a message says. Text the user typed or the model returned is kept as it is; a
      message the program composes from fixed wording is kept as the values it is built
      from, and each variant's Render function gives its exact wording. Composition is a
      function of those values, so a reply that depends on the posted text depends on them
      alone. */
  datatype Content =
    | Plain(text: string)
    | SystemPrompt(topics: seq<string>)
    | Summary(lines: seq<string>)
    | MatchRequest(unanswered: seq<string>, utterance: string)
    | ExtractRequest(key: string, typeName: string, options: seq<string>, utterance: string)
    | RetryRequest(key: string, typeName: string, options: seq<string>, utterance: string)

  datatype Message = Message(role: Role, content: Content)

  /** `conversation.insert(1, m)` on a conversation that holds its system prompt. */
  function InsertAt1(s: seq<Message>, m: Message): (r: seq<Message>)
    requires |s| >= 1
    ensures |r| == |s| + 1 && r[0] == s[0] && r[1] == m && r[2..] == s[1..]
  {
    s[..1] + [m] + s[1..]
  }

  /** `conversation.pop(1)`. */
  function PopAt1(s: seq<Message>): (r: seq<Message>)
    requires |s| >= 2
    ensures |r| == |s| - 1 && r[0] == s[0] && r[1..] == s[2..]
  {
    s[..1] + s[2..]
  }

  /** `conversation.pop()`: putting the removed last message back gives the original. */
  function PopLast(s: seq<Message>): (r: seq<Message>)
    requires |s| >= 1
    ensures |r| == |s| - 1 && r + [s[|s| - 1]] == s
  {
    s[..|s| - 1]
  }

  /** pop() undoes append(m). */
  lemma PopLastUndoesAppend(s: seq<Message>, m: Message)
    ensures PopLast(s + [m]) == s
  {
    assert (s + [m])[..|s|] == s;
  }

  /** pop(1) undoes insert(1, m). */
  lemma PopAt1UndoesInsertAt1(s: seq<Message>, m: Message)
    requires |s| >= 1
    ensures PopAt1(InsertAt1(s, m)) == s
  {
    var r := PopAt1(InsertAt1(s, m));
    assert r == r[..1] + r[1..];
    assert s == s[..1] + s[1..];
  }

  /** The conversation with the matcher's probe appended. */
  function MatchProbe(conv: seq<Message>, utterance: string, unanswered: seq<string>): seq<Message> {
    conv + [Message(User, MatchRequest(unanswered, utterance))]
  }

  /** The conversation with the extractor's probe for the field key appended. */
  function ExtractProbe(conv: seq<Message>, key: string, field: Field, utterance: string): seq<Message> {
    conv + [Message(User, ExtractRequest(key, field.typeName, field.options, utterance))]
  }

  const SystemPromptOpening := "You are a helpful assistant conducting a conversation.\n"
    + "Your goal is to ask the user about these topics: "
  const SystemPromptRules := ".\n"
    + "Ask naturally, one at a time. When the user responds, try to determine which field it answers.\n"
    + "If a field is skipped, re-ask or rephrase it later.\n"
    + "At the end, summarize which questions were not answered."

  /** build_system_prompt's text, the same in both variants: the fields are named in order. */
  function SystemPromptText(topics: seq<string>): string {
    SystemPromptOpening + Join(", ", topics) + SystemPromptRules
  }

  const MatchLead := "Based on the following unanswered fields: "
  const MatchAsk := "\n" + "Which one does this answer refer to?\n\nUser answer: \""
  const MatchClose := "\"\n" + "Respond ONLY with the field name, exactly as written."

  /** The matcher's prompt, the same in both variants. */
  function MatchRequestText(unanswered: seq<string>, utterance: string): string {
    MatchLead + Join(", ", unanswered) + MatchAsk + utterance + MatchClose
  }

  /** The system prompt names every field. */
  lemma SystemPromptNamesTopics(topics: seq<string>)
    ensures forall i :: 0 <= i < |topics| ==> Contains(SystemPromptText(topics), topics[i])
  {
    var list := Join(", ", topics);
    JoinContains(", ", topics);
    forall i | 0 <= i < |topics|
      ensures Contains(SystemPromptText(topics), topics[i])
    {
      ContainsPrepend(SystemPromptOpening, list, topics[i]);
      ContainsAppend(SystemPromptOpening + list, SystemPromptRules, topics[i]);
    }
  }

  /** The match prompt names every unanswered field and quotes the utterance. */
  lemma MatchRequestNamesFields(unanswered: seq<string>, utterance: string)
    ensures forall i :: 0 <= i < |unanswered| ==> Contains(MatchRequestText(unanswered, utterance), unanswered[i])
    ensures Contains(MatchRequestText(unanswered, utterance), utterance)
  {
    var list := Join(", ", unanswered);
    JoinContains(", ", unanswered);
    forall i | 0 <= i < |unanswered|
      ensures Contains(MatchRequestText(unanswered, utterance), unanswered[i])
    {
      ContainsPrepend(MatchLead, list, unanswered[i]);
      ContainsAppend(MatchLead + list, MatchAsk, unanswered[i]);
      ContainsAppend(MatchLead + list + MatchAsk, utterance, unanswered[i]);
      ContainsAppend(MatchLead + list + MatchAsk + utterance, MatchClose, unanswered[i]);
    }
    ContainsEnd(MatchLead + list + MatchAsk, utterance);
    ContainsAppend(MatchLead + list + MatchAsk + utterance, MatchClose, utterance);
  }

  /** What save_json writes: the answers file or the chat log. */
  datatype Saved = AnswersFile(answers: Answers) | ChatLog(log: seq<Message>)
}

/** The interview turn engine of API_Call2.py: type names are compared exactly, the
    summary prettifies the keys, a stored value is saved at once, and the command-line loop
    ends on an empty line, on an exit phrase, or once no Required field is blank. The
    Gradio hook works on module-level state and checks for an exit phrase before it
    appends anything. */
module ApiCall2 {
  import opened Wrappers
  import opened Text
  import opened Forms
  import opened Transcript
  import opened Gateway
  import opened Matching
  import opened Turns
  import ApiCall1

  // ---------------------------------------------------------------- validation

  /** validate_answer: the declared type is compared as written, with no aliases and no
      change of case. */
  function ValidateAnswer(value: string, typeName: string, options: seq<string>, parsesDate: string -> bool): bool {
    if typeName == "text" then !IsBlank(value)
    else if typeName == "int" then IsDigits(value)
    else if typeName == "datetime" then parsesDate(value)
    else if typeName == "boolean" then Lower(value) in ["yes", "no"] || Lower(value) in options
    else if typeName == "multichoice" then Lower(value) in LowerAll(options)
    else false
  }

  /** Only the five exact type names can ever accept a value. */
  lemma OnlyExactNamesValid(value: string, typeName: string, options: seq<string>, parsesDate: string -> bool)
    requires typeName !in KnownTypes
    ensures !ValidateAnswer(value, typeName, options, parsesDate)
  {
  }

  /** The aliases of the other variant, a float type and a capitalised name all fail. */
  lemma AliasesAreNotTypes(value: string, options: seq<string>, parsesDate: string -> bool)
    ensures !ValidateAnswer(value, "date", options, parsesDate)
    ensures !ValidateAnswer(value, "phone", options, parsesDate)
    ensures !ValidateAnswer(value, "float", options, parsesDate)
    ensures !ValidateAnswer(value, "Text", options, parsesDate)
  {
    assert "date" !in KnownTypes && "phone" !in KnownTypes;
    assert "float" !in KnownTypes && "Text" !in KnownTypes;
  }

  /** For the five exact names this validator and the normalising one of API_Call1.py give
      the same verdict. */
  lemma AgreesOnExactNames(value: string, typeName: string, options: seq<string>, parsesDate: string -> bool)
    requires typeName in KnownTypes
    ensures ValidateAnswer(value, typeName, options, parsesDate) == ApiCall1.ValidateAnswer(value, typeName, options, parsesDate)
  {
    KnownTypeIsNormal(typeName);
  }

  /** normalize_type leaves each of the five exact names as it is. */
  lemma KnownTypeIsNormal(t: string)
    requires t in KnownTypes
    ensures ApiCall1.NormalizeType(t) == t
  {
    KnownTypesArePlain(t);
    PlainNameIsNormal(t);
  }

  /** The five exact names are lower-case and none of them is an alias. */
  lemma KnownTypesArePlain(t: string)
    requires t in KnownTypes
    ensures IsLowerCase(t) && t != "phone" && t != "string" && t != "date"
  {
  }

  /** normalize_type leaves a lower-case name that is not an alias as it is. */
  lemma PlainNameIsNormal(t: string)
    requires IsLowerCase(t) && t != "phone" && t != "string" && t != "date"
    ensures ApiCall1.NormalizeType(t) == t
  {
    LowerOfLowerCase(t);
  }

  /** Every field's Value is blank or passes validate_answer for the field's Type and Options. */
  ghost predicate Sound(a: Answers, parsesDate: string -> bool)
    requires a.Valid()
  {
    forall k :: k in a.fields ==>
      IsBlank(a.fields[k].value) ||
      ValidateAnswer(a.fields[k].value, a.fields[k].typeName, a.fields[k].options, parsesDate)
  }

  // ---------------------------------------------------------------- summary

  /** The key as the summary shows it: `k.replace('_', ' ').title()`. */
  function PrettyKey(k: string): string {
    Title(ReplaceChar(k, '_', ' '))
  }

  /** A prettified key has the key's length and no underscore; characters that are
      neither letters nor underscores are kept; a letter is upper-cased at the start and
      after a non-letter, and lower-cased after a letter. */
  lemma PrettyKeySpec(k: string)
    ensures |PrettyKey(k)| == |k|
    ensures forall i :: 0 <= i < |k| ==> PrettyKey(k)[i] != '_'
    ensures forall i :: 0 <= i < |k| && k[i] == '_' ==> PrettyKey(k)[i] == ' '
    ensures forall i :: 0 <= i < |k| && k[i] != '_' && !IsLetter(k[i]) ==> PrettyKey(k)[i] == k[i]
    ensures forall i :: 0 <= i < |k| && IsLetter(k[i]) ==>
      PrettyKey(k)[i] == if i > 0 && IsLetter(k[i - 1]) then LowerChar(k[i]) else UpperChar(k[i])
  {
    var spaced := ReplaceChar(k, '_', ' ');
    ReplaceCharSpec(k, '_', ' ');
    TitleKeepsNonLetters(spaced, false);
    TitleCases(spaced, false);
  }

  /** The "Pretty Key: v" line of each of keys, in order. */
  function SummaryLines(keys: seq<string>, fields: map<string, Field>): (r: seq<string>)
    requires forall k :: k in keys ==> k in fields
    ensures |r| == |keys|
  {
    if keys == [] then [] else [PrettyKey(keys[0]) + ": " + fields[keys[0]].value] + SummaryLines(keys[1..], fields)
  }

  /** Line i is the i-th key prettified, a colon and a space, and that key's Value. */
  lemma {:induction false} SummaryLinesAt(keys: seq<string>, fields: map<string, Field>)
    requires forall k :: k in keys ==> k in fields
    ensures forall i :: 0 <= i < |keys| ==> SummaryLines(keys, fields)[i] == PrettyKey(keys[i]) + ": " + fields[keys[i]].value
  {
    if keys != [] {
      SummaryLinesAt(keys[1..], fields);
      assert forall i :: 1 <= i < |keys| ==> SummaryLines(keys, fields)[i] == SummaryLines(keys[1..], fields)[i - 1];
    }
  }

  /** answered_summary_message. */
  function SummaryMessage(a: Answers): Option<Message>
    requires a.Valid()
  {
    var filled := FilledKeys(a);
    if filled == [] then None
    else Some(Message(System, Summary(SummaryLines(filled, a.fields))))
  }

  /** answered_summary_message returns None exactly when no Value is filled in; otherwise a
      system message with one line per filled field, in dict order and each field once,
      showing the prettified key and the Value. */
  lemma SummaryMessageSpec(a: Answers)
    requires a.Valid()
    ensures SummaryMessage(a).None? <==> forall k :: k in a.fields ==> IsBlank(a.fields[k].value)
    ensures SummaryMessage(a).Some? ==>
              var m := SummaryMessage(a).value;
              var filled := FilledKeys(a);
              m.role == System && m.content.Summary? && |m.content.lines| == |filled| && Distinct(filled) &&
              forall i :: 0 <= i < |filled| ==> m.content.lines[i] == PrettyKey(filled[i]) + ": " + a.fields[filled[i]].value
  {
    var filled := FilledKeys(a);
    FilledKeysMembers(a);
    KeysWhereDistinct(a.keys, a.fields, Filled);
    if filled != [] {
      assert filled[0] in filled;
      SummaryLinesAt(filled, a.fields);
    }
  }

  /** With empty answers, or with nothing filled in, chat_completion inserts nothing. */
  lemma NothingFilledPostsConversation(conv: seq<Message>, a: Answers)
    requires |conv| >= 1 && a.Valid()
    requires a.keys == [] || forall k :: k in a.fields ==> IsBlank(a.fields[k].value)
    ensures Posted(conv, SummaryMessage(a)) == conv
  {
    SummaryMessageSpec(a);
  }

  // ---------------------------------------------------------------- extractor

  /** extract_clean_answer: append the probe, call the gateway, parse, pop the probe, and
      return the stripped reply when validate_answer accepts it, even when it is empty. */
  function Extraction(env: Env, conv: seq<Message>, key: string, field: Field, utterance: string, a: Answers)
      : (x: Exchange<Option<string>>)
    requires |conv| >= 1 && a.Valid()
    ensures |x.conversation| >= 1 && x.conversation[0] == conv[0]
    ensures x.result.Ok? ==> x.conversation == conv
    ensures x.result.Ok? && x.result.value.Some? ==>
              ValidateAnswer(x.result.value.value, field.typeName, field.options, env.parsesDate)
  {
    var probed := ExtractProbe(conv, key, field, utterance);
    var c := Completion(env, probed, SummaryMessage(a));
    match c.result
    case Err(e) => Exchange(Err(e), c.conversation)
    case Ok(payload) =>
      match ParseResponse(payload)
      case Err(e) => Exchange(Err(e), c.conversation)
      case Ok(text) =>
        var extracted := Strip(text);
        var cleaned := if ValidateAnswer(extracted, field.typeName, field.options, env.parsesDate) then Some(extracted) else None;
        Exchange(Ok(cleaned), PopLast(c.conversation))
  }

  /** On a delivered reply, the extractor returns the stripped reply exactly when it
      validates, and None otherwise; the conversation is as before. */
  lemma ExtractionOfReply(env: Env, conv: seq<Message>, key: string, field: Field, utterance: string, a: Answers, reply: string)
    requires |conv| >= 1 && a.Valid() && HasApiKey(env.apiKey)
    requires env.complete(Posted(ExtractProbe(conv, key, field, utterance), SummaryMessage(a))) == Delivered(Some(reply))
    ensures var x := Extraction(env, conv, key, field, utterance, a);
            x.conversation == conv &&
            (ValidateAnswer(Strip(reply), field.typeName, field.options, env.parsesDate) ==> x.result == Ok(Some(Strip(reply)))) &&
            (!ValidateAnswer(Strip(reply), field.typeName, field.options, env.parsesDate) ==> x.result == Ok(None))
  {
  }

  // ---------------------------------------------------------------- controller

  /** generate_retry_prompt. */
  function RetryPrompt(key: string, field: Field, utterance: string): Content {
    RetryRequest(key, field.typeName, field.options, utterance)
  }

  /** The wording of this variant: the exact text of each message content. */
  function Render(c: Content): string {
    match c
    case Plain(t) => t
    case SystemPrompt(topics) => SystemPromptText(topics)
    case Summary(lines) => "Here are the answers the user has provided so far:\n" + Join("\n", lines)
    case MatchRequest(unanswered, utterance) => MatchRequestText(unanswered, utterance)
    case ExtractRequest(key, typeName, options, utterance) =>
      "The user was asked the question related to the field: '" + key + "'.\n"
      + "Expected type: " + typeName + ".\n"
      + "Available options: " + OrElse(Join(", ", options), "N/A") + ".\n"
      + "User response: \"" + utterance + "\"\n"
      + "Your task is to extract only the valid and concise value for this field.\n"
      + "\U{26A0}\U{FE0F} Respond with ONLY the extracted value. Do not include any explanations, greetings, or follow-up questions.\n"
      + "If the input is unclear or invalid, respond with exactly: Invalid input"
    case RetryRequest(key, typeName, options, utterance) => RetryText(key, typeName, OrElse(Join(", ", options), "N/A"), utterance)
  }

  /** The fixed pieces of generate_retry_prompt's text. */
  const RetryLead := "The user was asked to provide their '"
  const RetryTypeLine := "'.\nExpected type: "
  const RetryOptionsLine := ".\nOptions (if applicable): "
  const RetryInputLine := ".\nTheir input was: \""
  const RetryClose := "\"\nThis input is invalid. Please politely explain why and ask the question again naturally."

  /** The text of generate_retry_prompt, with the options already joined. */
  function RetryText(key: string, typeName: string, optionList: string, utterance: string): string {
    RetryLead + key + RetryTypeLine + typeName + RetryOptionsLine + optionList + RetryInputLine + utterance + RetryClose
  }

  /** The retry prompt names the field and quotes the rejected input. */
  lemma RetryPromptQuotesInput(key: string, field: Field, utterance: string)
    ensures Contains(Render(RetryPrompt(key, field, utterance)), key)
    ensures Contains(Render(RetryPrompt(key, field, utterance)), utterance)
  {
    var optionList := OrElse(Join(", ", field.options), "N/A");
    assert Render(RetryPrompt(key, field, utterance)) == RetryText(key, field.typeName, optionList, utterance);
    RetryTextQuotes(key, field.typeName, optionList, utterance);
  }

  lemma RetryTextQuotes(key: string, typeName: string, optionList: string, utterance: string)
    ensures Contains(RetryText(key, typeName, optionList, utterance), key)
    ensures Contains(RetryText(key, typeName, optionList, utterance), utterance)
  {
    var s1 := RetryLead + key;
    ContainsEnd(RetryLead, key);
    ContainsAppend(s1, RetryTypeLine, key);
    var s2 := s1 + RetryTypeLine + typeName + RetryOptionsLine + optionList + RetryInputLine;
    assert Contains(s2, key) by {
      ContainsAppend(s1 + RetryTypeLine, typeName, key);
      ContainsAppend(s1 + RetryTypeLine + typeName, RetryOptionsLine, key);
      ContainsAppend(s1 + RetryTypeLine + typeName + RetryOptionsLine, optionList, key);
      ContainsAppend(s1 + RetryTypeLine + typeName + RetryOptionsLine + optionList, RetryInputLine, key);
    }
    ContainsAppend(s2, utterance, key);
    ContainsAppend(s2 + utterance, RetryClose, key);
    ContainsEnd(s2, utterance);
    ContainsAppend(s2 + utterance, RetryClose, utterance);
  }

  /** The retry branch: the retry prompt is appended, the gateway is called and its stripped
      reply is appended as the assistant's message. */
  function RetryStep(env: Env, conv: seq<Message>, key: string, field: Field, utterance: string, a: Answers): (t: TurnResult)
    requires |conv| >= 1 && a.Valid()
    ensures t.answers == a && t.saves == [] && |t.conversation| >= 1 && t.conversation[0] == conv[0]
    ensures t.outcome.Retried? || t.outcome.Raised?
    ensures t.outcome.Retried? ==>
              t.conversation == conv + [Message(User, RetryPrompt(key, field, utterance)), Message(Assistant, Plain(t.outcome.text))]
  {
    var asked := conv + [Message(User, RetryPrompt(key, field, utterance))];
    var c := Completion(env, asked, SummaryMessage(a));
    match c.result
    case Err(e) => TurnResult(Raised(e), c.conversation, a, [])
    case Ok(p) =>
      match ParseResponse(p)
      case Err(e) => TurnResult(Raised(e), c.conversation, a, [])
      case Ok(text) => TurnResult(Retried(Strip(text)), c.conversation + [Message(Assistant, Plain(Strip(text)))], a, [])
  }

  /** The general reply: the gateway's stripped reply is appended and returned. */
  function ReplyStep(env: Env, conv: seq<Message>, a: Answers): (t: TurnResult)
    requires |conv| >= 1 && a.Valid()
    ensures t.answers == a && t.saves == [] && |t.conversation| >= 1 && t.conversation[0] == conv[0]
    ensures t.outcome.Replied? || t.outcome.Raised?
    ensures t.outcome.Replied? ==> t.conversation == conv + [Message(Assistant, Plain(t.outcome.text))]
  {
    var c := Completion(env, conv, SummaryMessage(a));
    match c.result
    case Err(e) => TurnResult(Raised(e), c.conversation, a, [])
    case Ok(p) =>
      match ParseResponse(p)
      case Err(e) => TurnResult(Raised(e), c.conversation, a, [])
      case Ok(text) => TurnResult(Replied(Strip(text)), c.conversation + [Message(Assistant, Plain(Strip(text)))], a, [])
  }

  /** The code the loop body and process_user_message share, once the utterance is in the
      conversation: match, extract, then retry, or store and save the value and give the
      general reply. */
  function Respond(env: Env, said: seq<Message>, a: Answers, utterance: string): (t: TurnResult)
    requires |said| >= 1 && a.Valid()
    ensures t.answers.Valid() && t.answers.keys == a.keys
    ensures |t.conversation| >= 1 && t.conversation[0] == said[0]
    ensures t.outcome.Retried? || t.outcome.Replied? || t.outcome.Raised?
  {
    AfterMatch(env, a, utterance, FieldMatch(env, said, utterance, Unanswered(a), SummaryMessage(a)))
  }

  /** The rest of a turn once the matcher has answered: a matched field is extracted,
      anything else goes to the general reply. */
  function AfterMatch(env: Env, a: Answers, utterance: string, m: Exchange<Option<string>>): (t: TurnResult)
    requires |m.conversation| >= 1 && a.Valid()
    requires m.result.Ok? && m.result.value.Some? ==> m.result.value.value in a.fields
    ensures t.answers.Valid() && t.answers.keys == a.keys
    ensures |t.conversation| >= 1 && t.conversation[0] == m.conversation[0]
    ensures t.outcome.Retried? || t.outcome.Replied? || t.outcome.Raised?
  {
    match m.result
    case Err(e) => TurnResult(Raised(e), m.conversation, a, [])
    case Ok(matched) =>
      if matched.Some? && matched.value != "" then
        var key := matched.value;
        AfterExtraction(env, a, key, utterance, Extraction(env, m.conversation, key, a.fields[key], utterance, a))
      else ReplyStep(env, m.conversation, a)
  }

  /** The rest of a turn once the extractor has answered for key: no value means a retry;
      a value, even an empty one, is stored and the answers file saved before the general
      reply. */
  function AfterExtraction(env: Env, a: Answers, key: string, utterance: string, x: Exchange<Option<string>>): (t: TurnResult)
    requires |x.conversation| >= 1 && a.Valid() && key in a.fields
    ensures t.answers.Valid() && t.answers.keys == a.keys
    ensures |t.conversation| >= 1 && t.conversation[0] == x.conversation[0]
    ensures t.outcome.Retried? || t.outcome.Replied? || t.outcome.Raised?
  {
    match x.result
    case Err(e) => TurnResult(Raised(e), x.conversation, a, [])
    case Ok(cleaned) =>
      if cleaned.None? then RetryStep(env, x.conversation, key, a.fields[key], utterance, a)
      else
        var stored := a.WithValue(key, cleaned.value);
        var r := ReplyStep(env, x.conversation, stored);
        r.(saves := [AnswersFile(stored)] + r.saves)
  }

  /** process_user_message: an exit phrase returns before anything is appended; otherwise
      the utterance is appended and the shared code runs. */
  function Turn(env: Env, conv: seq<Message>, a: Answers, utterance: string): (t: TurnResult)
    requires |conv| >= 1 && a.Valid()
    ensures t.answers.Valid() && t.answers.keys == a.keys
    ensures |t.conversation| >= 1 && t.conversation[0] == conv[0]
  {
    if HasExitPhrase(utterance) then TurnResult(Exited, conv, a, [])
    else Respond(env, conv + [Message(User, Plain(utterance))], a, utterance)
  }

  /** On an exit phrase, process_user_message leaves the conversation and the answers as
      they are and saves nothing. */
  lemma ExitTurn(env: Env, conv: seq<Message>, a: Answers, utterance: string)
    requires |conv| >= 1 && a.Valid() && HasExitPhrase(utterance)
    ensures Turn(env, conv, a, utterance) == TurnResult(Exited, conv, a, [])
    ensures Turn(env, conv, a, utterance).outcome.ReturnValue() == Ok(EndedMessage)
  {
  }

  /** A matched field whose extraction gives no value adds exactly three messages (the
      utterance, the retry prompt and the assistant's reply), changes no Value and saves
      nothing. */
  lemma FailedExtraction(env: Env, conv: seq<Message>, a: Answers, utterance: string, key: string)
    requires |conv| >= 1 && a.Valid()
    requires var said := conv + [Message(User, Plain(utterance))];
             FieldMatch(env, said, utterance, Unanswered(a), SummaryMessage(a)).result == Ok(Some(key)) && key != "" &&
             Extraction(env, said, key, a.fields[key], utterance, a).result == Ok(None)
    ensures var t := Respond(env, conv + [Message(User, Plain(utterance))], a, utterance);
            t.answers == a && t.saves == [] && (t.outcome.Retried? || t.outcome.Raised?) &&
            (t.outcome.Retried? ==>
               |t.conversation| == |conv| + 3 &&
               t.conversation == conv + [Message(User, Plain(utterance)),
                                         Message(User, RetryPrompt(key, a.fields[key], utterance)),
                                         Message(Assistant, Plain(t.outcome.text))])
  {
    assert key in Unanswered(a);
  }

  /** A value from the extractor is written into the matched field alone and the answers
      file is saved with it, whatever the general reply then does. */
  lemma SuccessfulExtraction(env: Env, conv: seq<Message>, a: Answers, utterance: string, key: string, cleaned: string)
    requires |conv| >= 1 && a.Valid()
    requires var said := conv + [Message(User, Plain(utterance))];
             FieldMatch(env, said, utterance, Unanswered(a), SummaryMessage(a)).result == Ok(Some(key)) && key != "" &&
             Extraction(env, said, key, a.fields[key], utterance, a).result == Ok(Some(cleaned))
    ensures key in a.fields
    ensures var t := Respond(env, conv + [Message(User, Plain(utterance))], a, utterance);
            t.answers == a.WithValue(key, cleaned) && t.saves == [AnswersFile(a.WithValue(key, cleaned))] &&
            (t.outcome.Replied? || t.outcome.Raised?)
  {
    assert key in Unanswered(a);
  }

  /** Values only change by writing a validated value into a field that was blank; the
      field's Type, Required flag and Options never change. */
  lemma RespondWritesOnlyValidatedBlanks(env: Env, said: seq<Message>, a: Answers, utterance: string)
    requires |said| >= 1 && a.Valid()
    ensures var t := Respond(env, said, a, utterance);
            forall k :: k in a.fields ==>
              k in t.answers.fields &&
              (t.answers.fields[k] == a.fields[k] ||
               (IsBlank(a.fields[k].value) &&
                t.answers.fields[k] == a.fields[k].(value := t.answers.fields[k].value) &&
                ValidateAnswer(t.answers.fields[k].value, a.fields[k].typeName, a.fields[k].options, env.parsesDate)))
  {
    var m := FieldMatch(env, said, utterance, Unanswered(a), SummaryMessage(a));
    if m.result.Ok? && m.result.value.Some? && m.result.value.value != "" {
      var key := m.result.value.value;
      UnansweredMembers(a);
      assert IsBlank(a.fields[key].value);
    }
  }

  /** The shared code keeps every Value blank or valid. */
  lemma RespondKeepsSound(env: Env, said: seq<Message>, a: Answers, utterance: string)
    requires |said| >= 1 && a.Valid() && Sound(a, env.parsesDate)
    ensures Sound(Respond(env, said, a, utterance).answers, env.parsesDate)
  {
    RespondWritesOnlyValidatedBlanks(env, said, a, utterance);
    var t := Respond(env, said, a, utterance);
    assert t.answers.fields.Keys == a.fields.Keys by {
      forall k | k in t.answers.fields ensures k in a.fields {
        assert k in t.answers.keys;
      }
    }
  }

  // ---------------------------------------------------------------- command-line loop

  /** The end of conversation_loop after a `break`: the answers file, then the chat log. */
  function Finish(end: LoopEnd, conv: seq<Message>, a: Answers): LoopResult {
    LoopResult(end, conv, a, [AnswersFile(a), ChatLog(conv)])
  }

  /** conversation_loop from its current state on; running out of lines is input()'s
      EOFError, which skips the final saves. */
  function Loop(env: Env, conv: seq<Message>, a: Answers, inputs: seq<string>): (r: LoopResult)
    requires |conv| >= 1 && a.Valid()
    ensures r.answers.Valid() && r.answers.keys == a.keys
    ensures |r.conversation| >= 1 && r.conversation[0] == conv[0]
    decreases |inputs|, 2
  {
    if inputs == [] then LoopResult(Stopped(EndOfInput), conv, a, [])
    else Line(env, conv, a, Strip(inputs[0]), inputs[1..])
  }

  /** One stripped line: an empty one ends the loop; any other is appended, and then an
      exit phrase ends the loop. */
  function Line(env: Env, conv: seq<Message>, a: Answers, utterance: string, rest: seq<string>): (r: LoopResult)
    requires |conv| >= 1 && a.Valid()
    ensures r.answers.Valid() && r.answers.keys == a.keys
    ensures |r.conversation| >= 1 && r.conversation[0] == conv[0]
    decreases |rest| + 1, 1
  {
    if utterance == "" then Finish(EmptyLine, conv, a)
    else
      var said := conv + [Message(User, Plain(utterance))];
      if HasExitPhrase(utterance) then Finish(ExitPhrase, said, a)
      else Continue(env, said, a, utterance, rest)
  }

  /** The shared code for one line, then the required check after a general reply, then
      the loop over the lines after it; a retry goes straight to the next line. */
  function Continue(env: Env, said: seq<Message>, a: Answers, utterance: string, rest: seq<string>): (r: LoopResult)
    requires |said| >= 1 && a.Valid()
    ensures r.answers.Valid() && r.answers.keys == a.keys
    ensures |r.conversation| >= 1 && r.conversation[0] == said[0]
    decreases |rest| + 1, 0
  {
    var t := Respond(env, said, a, utterance);
    if t.outcome.Raised? then LoopResult(Stopped(t.outcome.error), t.conversation, t.answers, t.saves)
    else if t.outcome.Replied? && RequiredUnanswered(t.answers) == [] then
      After(t.saves, Finish(RequiredDone, t.conversation, t.answers))
    else After(t.saves, Loop(env, t.conversation, t.answers, rest))
  }

  /** An empty line ends the loop without appending anything; the answers and the chat log
      are saved. */
  lemma EmptyLineEndsLoop(env: Env, conv: seq<Message>, a: Answers, inputs: seq<string>)
    requires |conv| >= 1 && a.Valid() && inputs != [] && Strip(inputs[0]) == ""
    ensures Loop(env, conv, a, inputs) == LoopResult(EmptyLine, conv, a, [AnswersFile(a), ChatLog(conv)])
  {
  }

  /** An exit phrase ends the loop once the line has been appended, with no Value changed. */
  lemma ExitPhraseEndsLoop(env: Env, conv: seq<Message>, a: Answers, inputs: seq<string>)
    requires |conv| >= 1 && a.Valid() && inputs != [] && Strip(inputs[0]) != "" && HasExitPhrase(Strip(inputs[0]))
    ensures var said := conv + [Message(User, Plain(Strip(inputs[0])))];
            Loop(env, conv, a, inputs) == LoopResult(ExitPhrase, said, a, [AnswersFile(a), ChatLog(said)])
  {
  }

  /** Any other line is one turn of the shared code: the loop stops with its exception,
      stops after a general reply that leaves no Required field blank, and otherwise goes
      on from the turn's state. */
  lemma LoopStep(env: Env, conv: seq<Message>, a: Answers, inputs: seq<string>)
    requires |conv| >= 1 && a.Valid() && inputs != [] && Strip(inputs[0]) != "" && !HasExitPhrase(Strip(inputs[0]))
    ensures var t := Respond(env, conv + [Message(User, Plain(Strip(inputs[0])))], a, Strip(inputs[0]));
            Loop(env, conv, a, inputs) ==
              if t.outcome.Raised? then LoopResult(Stopped(t.outcome.error), t.conversation, t.answers, t.saves)
              else if t.outcome.Replied? && RequiredUnanswered(t.answers) == [] then
                After(t.saves, Finish(RequiredDone, t.conversation, t.answers))
              else After(t.saves, Loop(env, t.conversation, t.answers, inputs[1..]))
  {
    var said := conv + [Message(User, Plain(Strip(inputs[0])))];
    assert Loop(env, conv, a, inputs) == Continue(env, said, a, Strip(inputs[0]), inputs[1..]);
  }

  /** The loop stops after the first general reply that leaves no Required field blank,
      optional fields blank or not, and only then. */
  lemma StopsOnceRequiredAnswered(env: Env, conv: seq<Message>, a: Answers, inputs: seq<string>)
    requires |conv| >= 1 && a.Valid() && inputs != [] && Strip(inputs[0]) != "" && !HasExitPhrase(Strip(inputs[0]))
    ensures var t := Respond(env, conv + [Message(User, Plain(Strip(inputs[0])))], a, Strip(inputs[0]));
            t.outcome.Replied? ==>
              (RequiredAnswered(t.answers) <==>
               Loop(env, conv, a, inputs) == After(t.saves, Finish(RequiredDone, t.conversation, t.answers)))
  {
    LoopStep(env, conv, a, inputs);
    var t := Respond(env, conv + [Message(User, Plain(Strip(inputs[0])))], a, Strip(inputs[0]));
    RequiredUnansweredEmptyIff(t.answers);
    if t.outcome.Replied? && RequiredUnanswered(t.answers) != [] {
      var rest := Loop(env, t.conversation, t.answers, inputs[1..]);
      assert After(t.saves, rest).saves == t.saves + rest.saves;
      assert |After(t.saves, rest).saves| == |t.saves| + |rest.saves|;
      if rest.end == RequiredDone {
        NormalEndSaves(env, t.conversation, t.answers, inputs[1..]);
        assert |rest.saves| >= 2;
      }
    }
  }

  /** The same step without naming the turn: unless the loop stops with an exception, it
      ends with some valid answers that leave no Required field blank, or goes on from some
      valid state, after some saves. */
  lemma LoopNext(env: Env, conv: seq<Message>, a: Answers, inputs: seq<string>)
      returns (conv': seq<Message>, a': Answers, saves: seq<Saved>)
    requires |conv| >= 1 && a.Valid() && inputs != [] && Strip(inputs[0]) != "" && !HasExitPhrase(Strip(inputs[0]))
    ensures |conv'| >= 1 && a'.Valid() && a'.keys == a.keys
    ensures var r := Loop(env, conv, a, inputs);
            r.end.Stopped? ||
            (r == After(saves, Finish(RequiredDone, conv', a')) && RequiredAnswered(a')) ||
            r == After(saves, Loop(env, conv', a', inputs[1..]))
  {
    LoopStep(env, conv, a, inputs);
    var t := Respond(env, conv + [Message(User, Plain(Strip(inputs[0])))], a, Strip(inputs[0]));
    RequiredUnansweredEmptyIff(t.answers);
    conv', a', saves := t.conversation, t.answers, t.saves;
  }

  /** Every end other than an exception saves the answers file and then the chat log,
      last; the loop ends with RequiredDone only when no Required field is blank. */
  lemma {:induction false} NormalEndSaves(env: Env, conv: seq<Message>, a: Answers, inputs: seq<string>)
    requires |conv| >= 1 && a.Valid()
    ensures var r := Loop(env, conv, a, inputs);
            !r.end.Stopped? ==>
              |r.saves| >= 2 && r.saves[|r.saves| - 2..] == [AnswersFile(r.answers), ChatLog(r.conversation)]
    ensures var r := Loop(env, conv, a, inputs);
            r.end == RequiredDone ==> RequiredAnswered(r.answers)
    decreases |inputs|
  {
    if inputs != [] && Strip(inputs[0]) != "" && !HasExitPhrase(Strip(inputs[0])) {
      var conv', a', saves := LoopNext(env, conv, a, inputs);
      var r := Loop(env, conv, a, inputs);
      if !r.end.Stopped? {
        var tail: LoopResult;
        if r == After(saves, Finish(RequiredDone, conv', a')) && RequiredAnswered(a') {
          tail := Finish(RequiredDone, conv', a');
        } else {
          NormalEndSaves(env, conv', a', inputs[1..]);
          tail := Loop(env, conv', a', inputs[1..]);
        }
        assert r.saves == saves + tail.saves;
        assert r.saves[|r.saves| - 2..] == tail.saves[|tail.saves| - 2..];
      }
    }
  }

  /** The loop keeps every Value blank or valid. */
  lemma {:induction false} LoopKeepsSound(env: Env, conv: seq<Message>, a: Answers, inputs: seq<string>)
    requires |conv| >= 1 && a.Valid() && Sound(a, env.parsesDate)
    ensures Sound(Loop(env, conv, a, inputs).answers, env.parsesDate)
    decreases |inputs|
  {
    if inputs != [] && Strip(inputs[0]) != "" && !HasExitPhrase(Strip(inputs[0])) {
      var said := conv + [Message(User, Plain(Strip(inputs[0])))];
      LoopStep(env, conv, a, inputs);
      var t := Respond(env, said, a, Strip(inputs[0]));
      RespondKeepsSound(env, said, a, Strip(inputs[0]));
      if !t.outcome.Raised? {
        LoopKeepsSound(env, t.conversation, t.answers, inputs[1..]);
      }
    }
  }

  // ---------------------------------------------------------------- the state that changes

  /** The module-level conversation list and answers dict, which the Gradio hook mutates and
      conversation_loop keeps as its locals, with a log of what save_json wrote. */
  class Session {
    var conversation: seq<Message>
    var answers: Answers
    ghost var saved: seq<Saved>

    ghost predicate Valid()
      reads this
    {
      |conversation| >= 1 && answers.Valid()
    }

    /** The answers are the questions, and the conversation is the system prompt alone. */
    constructor (questions: Answers)
      requires questions.Valid()
      ensures Valid()
      ensures conversation == [Message(System, SystemPrompt(questions.keys))]
      ensures answers == questions && saved == []
    {
      conversation := [Message(System, SystemPrompt(questions.keys))];
      answers := questions;
      saved := [];
    }

    /** chat_completion(conversation, answers). */
    method ChatCompletion(env: Env) returns (r: Result<Payload>)
      requires Valid()
      modifies this
      ensures Valid() && answers == old(answers) && saved == old(saved)
      ensures Exchange(r, conversation) == Completion(env, old(conversation), SummaryMessage(answers))
    {
      if !HasApiKey(env.apiKey) {
        return Err(MissingApiKey);
      }
      var summary := if answers.keys != [] then SummaryMessage(answers) else None;
      if summary.Some? {
        conversation := InsertAt1(conversation, summary.value);
      }
      var reply := env.complete(conversation);
      if reply.Unreachable? {
        return Err(TransportFailure);
      }
      if summary.Some? {
        conversation := PopAt1(conversation);
      }
      return Ok(reply.payload);
    }

    /** ask_llama_to_match_field(conversation, utterance, unanswered, answers). */
    method AskToMatchField(env: Env, utterance: string, unanswered: seq<string>) returns (r: Result<Option<string>>)
      requires Valid()
      modifies this
      ensures Valid() && answers == old(answers) && saved == old(saved)
      ensures Exchange(r, conversation) == FieldMatch(env, old(conversation), utterance, unanswered, SummaryMessage(answers))
    {
      conversation := conversation + [Message(User, MatchRequest(unanswered, utterance))];
      var response := ChatCompletion(env);
      if response.Err? {
        return Err(response.error);
      }
      var parsed := ParseResponse(response.value);
      if parsed.Err? {
        return Err(parsed.error);
      }
      var matchText := Strip(parsed.value);
      conversation := PopLast(conversation);
      var found := FindField(unanswered, matchText);
      return Ok(found);
    }

    /** extract_clean_answer(conversation, key, field, utterance, answers). */
    method ExtractCleanAnswer(env: Env, key: string, field: Field, utterance: string) returns (r: Result<Option<string>>)
      requires Valid()
      modifies this
      ensures Valid() && answers == old(answers) && saved == old(saved)
      ensures Exchange(r, conversation) == Extraction(env, old(conversation), key, field, utterance, answers)
    {
      conversation := conversation + [Message(User, ExtractRequest(key, field.typeName, field.options, utterance))];
      var response := ChatCompletion(env);
      if response.Err? {
        return Err(response.error);
      }
      var parsed := ParseResponse(response.value);
      if parsed.Err? {
        return Err(parsed.error);
      }
      var extracted := Strip(parsed.value);
      conversation := PopLast(conversation);
      var isValid := ValidateAnswer(extracted, field.typeName, field.options, env.parsesDate);
      return Ok(if isValid then Some(extracted) else None);
    }

    /** process_user_message(utterance): how the turn ends (its ReturnValue is the message
        returned, or the exception raised), with the module-level state left as Turn says. */
    method ProcessUserMessage(env: Env, utterance: string) returns (outcome: Outcome)
      requires Valid()
      modifies this
      ensures Valid()
      ensures var t := Turn(env, old(conversation), old(answers), utterance);
              outcome == t.outcome && conversation == t.conversation &&
              answers == t.answers && saved == old(saved) + t.saves
    {
      if HasExitPhrase(utterance) {
        return Exited;
      }
      conversation := conversation + [Message(User, Plain(utterance))];
      outcome := RespondTo(env, utterance);
    }

    /** The code the loop body and process_user_message share, with the utterance already
        appended. */
    method RespondTo(env: Env, utterance: string) returns (outcome: Outcome)
      requires Valid()
      modifies this
      ensures Valid()
      ensures var t := Respond(env, old(conversation), old(answers), utterance);
              outcome == t.outcome && conversation == t.conversation &&
              answers == t.answers && saved == old(saved) + t.saves
    {
      var unanswered := Unanswered(answers);
      var matched := AskToMatchField(env, utterance, unanswered);
      if matched.Err? {
        return Raised(matched.error);
      }
      if matched.value.Some? && matched.value.value != "" {
        outcome := Extract(env, matched.value.value, utterance);
        return;
      }
      outcome := Reply(env);
    }

    /** The rest of the shared code once key has been matched: extract, then retry, or
        store the value, save the answers file and give the general reply. */
    method Extract(env: Env, key: string, utterance: string) returns (outcome: Outcome)
      requires Valid() && key in answers.fields
      modifies this
      ensures Valid()
      ensures var t := AfterExtraction(env, old(answers), key, utterance,
                         Extraction(env, old(conversation), key, old(answers).fields[key], utterance, old(answers)));
              outcome == t.outcome && conversation == t.conversation &&
              answers == t.answers && saved == old(saved) + t.saves
    {
      var field := answers.fields[key];
      var cleaned := ExtractCleanAnswer(env, key, field, utterance);
      if cleaned.Err? {
        return Raised(cleaned.error);
      }
      if cleaned.value.None? {
        outcome := Retry(env, key, field, utterance);
        return;
      }
      answers := answers.WithValue(key, cleaned.value.value);
      saved := saved + [AnswersFile(answers)];
      outcome := Reply(env);
    }

    /** The retry branch: the retry prompt is appended, and the gateway's stripped reply is
        appended and returned. */
    method Retry(env: Env, key: string, field: Field, utterance: string) returns (outcome: Outcome)
      requires Valid()
      modifies this
      ensures Valid()
      ensures var t := RetryStep(env, old(conversation), key, field, utterance, old(answers));
              outcome == t.outcome && conversation == t.conversation &&
              answers == t.answers && saved == old(saved) + t.saves
    {
      conversation := conversation + [Message(User, RetryPrompt(key, field, utterance))];
      var retry := ChatCompletion(env);
      if retry.Err? {
        return Raised(retry.error);
      }
      var parsedRetry := ParseResponse(retry.value);
      if parsedRetry.Err? {
        return Raised(parsedRetry.error);
      }
      var retryMessage := Strip(parsedRetry.value);
      conversation := conversation + [Message(Assistant, Plain(retryMessage))];
      return Retried(retryMessage);
    }

    /** The general reply: the gateway's stripped reply is appended and returned. */
    method Reply(env: Env) returns (outcome: Outcome)
      requires Valid()
      modifies this
      ensures Valid()
      ensures var t := ReplyStep(env, old(conversation), old(answers));
              outcome == t.outcome && conversation == t.conversation &&
              answers == t.answers && saved == old(saved) + t.saves
    {
      var response := ChatCompletion(env);
      if response.Err? {
        return Raised(response.error);
      }
      var parsed := ParseResponse(response.value);
      if parsed.Err? {
        return Raised(parsed.error);
      }
      var message := Strip(parsed.value);
      conversation := conversation + [Message(Assistant, Plain(message))];
      return Replied(message);
    }

    /** One pass of conversation_loop's body over the stripped line utterance, the first
        of inputs: the loop's end when the pass breaks out or raises, and None when it goes
        on to the next line. */
    method HandleLine(env: Env, utterance: string, ghost inputs: seq<string>) returns (stop: Option<LoopEnd>)
      requires Valid() && inputs != [] && utterance == Strip(inputs[0])
      modifies this
      ensures Valid()
      ensures var r := After(old(saved), Loop(env, old(conversation), old(answers), inputs));
              if stop.Some? then r == LoopResult(stop.value, conversation, answers, saved)
              else r == After(saved, Loop(env, conversation, answers, inputs[1..]))
    {
      if utterance == "" {
        EmptyLineEndsLoop(env, conversation, answers, inputs);
        SaveAll();
        return Some(EmptyLine);
      }
      ghost var conv, before, saved0 := conversation, answers, saved;
      conversation := conversation + [Message(User, Plain(utterance))];
      if HasExitPhrase(utterance) {
        ExitPhraseEndsLoop(env, conv, before, inputs);
        SaveAll();
        return Some(ExitPhrase);
      }
      var outcome := RespondTo(env, utterance);
      LoopStep(env, conv, before, inputs);
      if outcome.Raised? {
        return Some(Stopped(outcome.error));
      }
      ghost var turnSaves := saved[|saved0|..];
      assert saved0 + turnSaves == saved;
      if outcome.Replied? && RequiredUnanswered(answers) == [] {
        SaveAll();
        AfterAfter(saved0, turnSaves, Finish(RequiredDone, conversation, answers));
        return Some(RequiredDone);
      }
      AfterAfter(saved0, turnSaves, Loop(env, conversation, answers, inputs[1..]));
      return None;
    }

    /** The two save_json calls after the loop: the answers file, then the chat log. */
    method SaveAll()
      modifies this
      ensures conversation == old(conversation) && answers == old(answers)
      ensures saved == old(saved) + [AnswersFile(answers), ChatLog(conversation)]
    {
      saved := saved + [AnswersFile(answers), ChatLog(conversation)];
    }
  }

  /** conversation_loop over the lines the user types: the answers file is saved first, then
      the loop runs as Loop says. */
  method ConversationLoop(env: Env, questions: Answers, inputs: seq<string>) returns (session: Session, end: LoopEnd)
    requires questions.Valid()
    ensures fresh(session) && session.Valid()
    ensures LoopResult(end, session.conversation, session.answers, session.saved) ==
            After([AnswersFile(questions)], Loop(env, [Message(System, SystemPrompt(questions.keys))], questions, inputs))
  {
    session := new Session(questions);
    session.saved := session.saved + [AnswersFile(session.answers)];
    ghost var whole := After(session.saved, Loop(env, session.conversation, questions, inputs));
    var i := 0;
    while true
      invariant 0 <= i <= |inputs| && session.Valid()
      invariant whole == After(session.saved, Loop(env, session.conversation, session.answers, inputs[i..]))
      decreases |inputs| - i
    {
      if i == |inputs| {
        assert session.saved + [] == session.saved;
        return session, Stopped(EndOfInput);
      }
      var utterance := Strip(inputs[i]);
      var stop := session.HandleLine(env, utterance, inputs[i..]);
      if stop.Some? {
        return session, stop.value;
      }
      assert inputs[i..][1..] == inputs[i + 1..];
      i := i + 1;
    }
  }
}

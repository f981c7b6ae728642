/** The interview turn engine of API_Call1.py: type aliases are normalised before validation,
    the conversation and the answers are passed to process_user_message, and the
    command-line loop ends only on an empty line. */
module ApiCall1 {
  import opened Wrappers
  import opened Text
  import opened Forms
  import opened Transcript
  import opened Gateway
  import opened Matching
  import opened Turns

  // ---------------------------------------------------------------- validation

  /** The alias dict of normalize_type, looked up with the name itself as the default. */
  function Alias(t: string): string {
    if t == "phone" || t == "string" then "text"
    else if t == "date" then "datetime"
    else t
  }

  /** normalize_type: the author-facing aliases phone, string and date, in any case. */
  function NormalizeType(typeName: string): string {
    Alias(Lower(typeName))
  }

  /** validate_answer, with dateutil's parser as the predicate parsesDate. */
  function ValidateAnswer(value: string, typeName: string, options: seq<string>, parsesDate: string -> bool): bool {
    var t := NormalizeType(typeName);
    if t == "text" then !IsBlank(value)
    else if t == "int" then IsDigits(value)
    else if t == "datetime" then parsesDate(value)
    else if t == "boolean" then Lower(value) in ["yes", "no"] || Lower(value) in options
    else if t == "multichoice" then Lower(value) in LowerAll(options)
    else false
  }

  /** The case of the declared type does not matter. */
  lemma NormalizeTypeIgnoresCase(typeName: string)
    ensures NormalizeType(Lower(typeName)) == NormalizeType(typeName)
  {
    LowerIdempotent(typeName);
  }

  /** A normalised type name has no upper-case letter, and normalising it again changes
      nothing. */
  lemma NormalizeTypeIdempotent(typeName: string)
    ensures IsLowerCase(NormalizeType(typeName))
    ensures NormalizeType(NormalizeType(typeName)) == NormalizeType(typeName)
  {
    LowerOfLowerCase(typeName);
    AliasOfLowerCase(Lower(typeName));
    LowerOfLowerCase(NormalizeType(typeName));
  }

  /** The aliases map a lower-case name to a lower-case name that is no alias. */
  lemma AliasOfLowerCase(t: string)
    requires IsLowerCase(t)
    ensures IsLowerCase(Alias(t)) && Alias(Alias(t)) == Alias(t)
  {
    if Alias(t) != t {
      assert IsLowerCase("text") && IsLowerCase("datetime");
    }
  }

  /** The aliases: phone and string stand for text, date for datetime, in any case. */
  lemma AliasesNormalise(typeName: string)
    ensures Lower(typeName) in ["phone", "string"] ==> NormalizeType(typeName) == "text"
    ensures Lower(typeName) == "date" ==> NormalizeType(typeName) == "datetime"
    ensures Lower(typeName) !in ["phone", "string", "date"] ==> NormalizeType(typeName) == Lower(typeName)
  {
  }

  /** text is valid exactly when the value has a character that is not whitespace. */
  lemma TextValidIff(value: string, typeName: string, options: seq<string>, parsesDate: string -> bool)
    requires NormalizeType(typeName) == "text"
    ensures ValidateAnswer(value, typeName, options, parsesDate) <==> exists i :: 0 <= i < |value| && !IsSpace(value[i])
  {
    IsBlankIff(value);
  }

  /** int is valid exactly when the value is a non-empty run of decimal digits. */
  lemma IntValidIff(value: string, typeName: string, options: seq<string>, parsesDate: string -> bool)
    requires NormalizeType(typeName) == "int"
    ensures ValidateAnswer(value, typeName, options, parsesDate) <==>
            (|value| > 0 && forall i :: 0 <= i < |value| ==> '0' <= value[i] <= '9')
  {
  }

  /** multichoice accepts a value exactly when it equals some option ignoring case. */
  lemma MultichoiceValidIff(value: string, typeName: string, options: seq<string>, parsesDate: string -> bool)
    requires NormalizeType(typeName) == "multichoice"
    ensures ValidateAnswer(value, typeName, options, parsesDate) <==>
            exists i :: 0 <= i < |options| && Lower(options[i]) == Lower(value)
  {
    if ValidateAnswer(value, typeName, options, parsesDate) {
      var i :| 0 <= i < |options| && LowerAll(options)[i] == Lower(value);
    }
  }

  /** boolean accepts yes or no in any case, or a value whose lower-cased form is one of the
      options exactly as written (the options are not lower-cased). */
  lemma BooleanValidIff(value: string, typeName: string, options: seq<string>, parsesDate: string -> bool)
    requires NormalizeType(typeName) == "boolean"
    ensures ValidateAnswer(value, typeName, options, parsesDate) <==>
            (Lower(value) == "yes" || Lower(value) == "no" || exists i :: 0 <= i < |options| && options[i] == Lower(value))
  {
  }

  /** A type that normalises to none of the five known names is never valid. */
  lemma UnknownTypeInvalid(value: string, typeName: string, options: seq<string>, parsesDate: string -> bool)
    requires NormalizeType(typeName) !in KnownTypes
    ensures !ValidateAnswer(value, typeName, options, parsesDate)
  {
  }

  /** float and number are not types of this validator, in any case. */
  lemma FloatAndNumberInvalid(value: string, options: seq<string>, parsesDate: string -> bool)
    ensures !ValidateAnswer(value, "float", options, parsesDate)
    ensures !ValidateAnswer(value, "Number", options, parsesDate)
  {
    LowerOfLowerCase("float");
    assert Lower("Number") == "number";
    assert NormalizeType("float") !in KnownTypes;
    assert NormalizeType("Number") !in KnownTypes;
  }

  /** multichoice accepts every option as written. */
  lemma MultichoiceAcceptsOptions(value: string, typeName: string, options: seq<string>, parsesDate: string -> bool)
    requires NormalizeType(typeName) == "multichoice" && value in options
    ensures ValidateAnswer(value, typeName, options, parsesDate)
  {
    var i :| 0 <= i < |options| && options[i] == value;
    MultichoiceValidIff(value, typeName, options, parsesDate);
  }

  /** boolean compares the lower-cased value with the options as written, so options that
      hold an upper-case letter are never matched: only yes and no are accepted. */
  lemma BooleanOptionsAreNotLowered(value: string, typeName: string, options: seq<string>, parsesDate: string -> bool)
    requires NormalizeType(typeName) == "boolean"
    requires forall i :: 0 <= i < |options| ==> !IsLowerCase(options[i])
    ensures ValidateAnswer(value, typeName, options, parsesDate) <==> Lower(value) == "yes" || Lower(value) == "no"
  {
    BooleanValidIff(value, typeName, options, parsesDate);
    LowerOfLowerCase(value);
  }

  /** Every field's Value is blank or passes validate_answer for the field's Type and Options. */
  ghost predicate Sound(a: Answers, parsesDate: string -> bool)
    requires a.Valid()
  {
    forall k :: k in a.fields ==>
      IsBlank(a.fields[k].value) ||
      ValidateAnswer(a.fields[k].value, a.fields[k].typeName, a.fields[k].options, parsesDate)
  }

  // ---------------------------------------------------------------- summary

  /** The "k: v" line of each of keys, in order. */
  function SummaryLines(keys: seq<string>, fields: map<string, Field>): (r: seq<string>)
    requires forall k :: k in keys ==> k in fields
    ensures |r| == |keys|
  {
    if keys == [] then [] else [keys[0] + ": " + fields[keys[0]].value] + SummaryLines(keys[1..], fields)
  }

  /** Line i is the i-th key, a colon and a space, and that key's Value. */
  lemma {:induction false} SummaryLinesAt(keys: seq<string>, fields: map<string, Field>)
    requires forall k :: k in keys ==> k in fields
    ensures forall i :: 0 <= i < |keys| ==> SummaryLines(keys, fields)[i] == keys[i] + ": " + fields[keys[i]].value
  {
    if keys != [] {
      SummaryLinesAt(keys[1..], fields);
      assert forall i :: 1 <= i < |keys| ==> SummaryLines(keys, fields)[i] == SummaryLines(keys[1..], fields)[i - 1];
    }
  }

  /** answered_summary_message. */
  function SummaryMessage(a: Answers): Option<Message>
    requires a.Valid()
  {
    var filled := FilledKeys(a);
    if filled == [] then None
    else Some(Message(System, Summary(SummaryLines(filled, a.fields))))
  }

  /** answered_summary_message returns None exactly when no Value is filled in; otherwise a
      system message with one "k: v" line per filled field, in the order of FilledKeys,
      which is dict order. */
  lemma SummaryMessageSpec(a: Answers)
    requires a.Valid()
    ensures SummaryMessage(a).None? <==> forall k :: k in a.fields ==> IsBlank(a.fields[k].value)
    ensures SummaryMessage(a).Some? ==>
              var m := SummaryMessage(a).value;
              var filled := FilledKeys(a);
              m.role == System && m.content.Summary? && |m.content.lines| == |filled| &&
              forall i :: 0 <= i < |filled| ==> m.content.lines[i] == filled[i] + ": " + a.fields[filled[i]].value
  {
    var filled := FilledKeys(a);
    FilledKeysMembers(a);
    if filled != [] {
      assert filled[0] in filled;
      SummaryLinesAt(filled, a.fields);
    }
  }

  // ---------------------------------------------------------------- gateway

  /** With nothing filled in, the conversation is posted as it is. */
  lemma NothingFilledPostsConversation(conv: seq<Message>, a: Answers)
    requires |conv| >= 1 && a.Valid()
    requires forall k :: k in a.fields ==> IsBlank(a.fields[k].value)
    ensures Posted(conv, SummaryMessage(a)) == conv
  {
    SummaryMessageSpec(a);
  }

  /** With some Value filled in, the summary is posted right after the system prompt. */
  lemma FilledPostsSummaryAtIndex1(conv: seq<Message>, a: Answers, k: string)
    requires |conv| >= 1 && a.Valid()
    requires k in a.fields && !IsBlank(a.fields[k].value)
    ensures SummaryMessage(a).Some?
    ensures Posted(conv, SummaryMessage(a)) == conv[..1] + [SummaryMessage(a).value] + conv[1..]
  {
    SummaryMessageSpec(a);
  }

  // ---------------------------------------------------------------- extractor

  /** extract_clean_answer: append the probe, call the gateway, parse, pop the probe, and
      keep the stripped reply only when validate_answer accepts it. */
  function Extraction(env: Env, conv: seq<Message>, key: string, field: Field, utterance: string, a: Answers)
      : (x: Exchange<Option<string>>)
    requires |conv| >= 1 && a.Valid()
    ensures |x.conversation| >= 1 && x.conversation[0] == conv[0]
    ensures x.result.Ok? ==> x.conversation == conv
    ensures x.result.Ok? && x.result.value.Some? ==>
              ValidateAnswer(x.result.value.value, field.typeName, field.options, env.parsesDate)
  {
    var probed := ExtractProbe(conv, key, field, utterance);
    var c := Completion(env, probed, SummaryMessage(a));
    match c.result
    case Err(e) => Exchange(Err(e), c.conversation)
    case Ok(payload) =>
      match ParseResponse(payload)
      case Err(e) => Exchange(Err(e), c.conversation)
      case Ok(text) =>
        var extracted := Strip(text);
        var cleaned := if ValidateAnswer(extracted, field.typeName, field.options, env.parsesDate) then Some(extracted) else None;
        Exchange(Ok(cleaned), PopLast(c.conversation))
  }

  /** On a delivered reply, the extractor returns the stripped reply exactly when it
      validates, and None otherwise; the conversation is as before. */
  lemma ExtractionOfReply(env: Env, conv: seq<Message>, key: string, field: Field, utterance: string, a: Answers, reply: string)
    requires |conv| >= 1 && a.Valid() && HasApiKey(env.apiKey)
    requires env.complete(Posted(ExtractProbe(conv, key, field, utterance), SummaryMessage(a))) == Delivered(Some(reply))
    ensures var x := Extraction(env, conv, key, field, utterance, a);
            x.conversation == conv &&
            (ValidateAnswer(Strip(reply), field.typeName, field.options, env.parsesDate) ==> x.result == Ok(Some(Strip(reply)))) &&
            (!ValidateAnswer(Strip(reply), field.typeName, field.options, env.parsesDate) ==> x.result == Ok(None))
  {
  }

  // ---------------------------------------------------------------- controller

  /** generate_retry_prompt. */
  function RetryPrompt(key: string, field: Field, utterance: string): Content {
    RetryRequest(key, field.typeName, field.options, utterance)
  }

  /** The wording of this variant: the exact text of each message content. */
  function Render(c: Content): string {
    match c
    case Plain(t) => t
    case SystemPrompt(topics) => SystemPromptText(topics)
    case Summary(lines) => "Here are the answers provided so far:\n" + Join("\n", lines)
    case MatchRequest(unanswered, utterance) => MatchRequestText(unanswered, utterance)
    case ExtractRequest(key, typeName, options, utterance) =>
      "The user was asked about: '" + key + "'.\nExpected type: " + typeName + "\n"
      + "Options: " + OrElse(Join(", ", options), "N/A") + "\n"
      + "User response: \"" + utterance + "\"\n"
      + "Respond ONLY with the cleaned value. If invalid, respond: Invalid input"
    case RetryRequest(key, typeName, _, utterance) =>
      "The user was asked to provide '" + key + "' (type: " + typeName + ").\n"
      + "Input: \"" + utterance + "\" was invalid.\n"
      + "Please explain why and re-ask naturally."
  }

  /** The retry prompt names the field and quotes the rejected input. */
  lemma RetryPromptQuotesInput(key: string, field: Field, utterance: string)
    ensures Contains(Render(RetryPrompt(key, field, utterance)), key)
    ensures Contains(Render(RetryPrompt(key, field, utterance)), utterance)
  {
    var head := "The user was asked to provide '";
    var middle := "' (type: " + field.typeName + ").\n" + "Input: \"";
    var tail := "\" was invalid.\n" + "Please explain why and re-ask naturally.";
    assert Render(RetryPrompt(key, field, utterance)) == head + key + (middle + utterance + tail);
    ContainsInfix(head, key, middle + utterance + tail);
    assert Render(RetryPrompt(key, field, utterance)) == (head + key + middle) + utterance + tail;
    ContainsInfix(head + key + middle, utterance, tail);
  }

  /** The retry branch: the retry prompt is appended, the gateway is called and its stripped
      reply is appended as the assistant's message. */
  function RetryStep(env: Env, conv: seq<Message>, key: string, field: Field, utterance: string, a: Answers): (t: TurnResult)
    requires |conv| >= 1 && a.Valid()
    ensures t.answers == a && t.saves == [] && |t.conversation| >= 1 && t.conversation[0] == conv[0]
    ensures t.outcome.Retried? || t.outcome.Raised?
    ensures t.outcome.Retried? ==>
              t.conversation == conv + [Message(User, RetryPrompt(key, field, utterance)), Message(Assistant, Plain(t.outcome.text))]
  {
    var asked := conv + [Message(User, RetryPrompt(key, field, utterance))];
    var c := Completion(env, asked, SummaryMessage(a));
    match c.result
    case Err(e) => TurnResult(Raised(e), c.conversation, a, [])
    case Ok(p) =>
      match ParseResponse(p)
      case Err(e) => TurnResult(Raised(e), c.conversation, a, [])
      case Ok(text) => TurnResult(Retried(Strip(text)), c.conversation + [Message(Assistant, Plain(Strip(text)))], a, [])
  }

  /** The general reply and the completion check that end a turn without retry. */
  function ReplyStep(env: Env, conv: seq<Message>, a: Answers): (t: TurnResult)
    requires |conv| >= 1 && a.Valid()
    ensures t.answers == a && |t.conversation| >= 1 && t.conversation[0] == conv[0]
    ensures t.outcome.Replied? || t.outcome.Completed? || t.outcome.Raised?
    ensures t.outcome.Completed? ==> Unanswered(a) == [] && t.saves == [AnswersFile(a)]
    ensures t.outcome.Replied? ==> Unanswered(a) != [] && t.saves == []
    ensures t.outcome.Raised? ==> t.saves == []
    ensures !t.outcome.Raised? ==> |t.conversation| == |conv| + 1 && t.conversation[..|conv|] == conv &&
                                   t.conversation[|conv|].role == Assistant
  {
    var c := Completion(env, conv, SummaryMessage(a));
    match c.result
    case Err(e) => TurnResult(Raised(e), c.conversation, a, [])
    case Ok(p) =>
      match ParseResponse(p)
      case Err(e) => TurnResult(Raised(e), c.conversation, a, [])
      case Ok(text) =>
        var reply := Strip(text);
        var conv' := c.conversation + [Message(Assistant, Plain(reply))];
        if Unanswered(a) == [] then TurnResult(Completed, conv', a, [AnswersFile(a)])
        else TurnResult(Replied(reply), conv', a, [])
  }

  /** process_user_message: append the utterance; stop on an exit phrase; otherwise match,
      extract, and either retry or write the value and give the general reply. */
  function Turn(env: Env, conv: seq<Message>, a: Answers, utterance: string): (t: TurnResult)
    requires |conv| >= 1 && a.Valid()
    ensures t.answers.Valid() && t.answers.keys == a.keys
    ensures |t.conversation| >= 1 && t.conversation[0] == conv[0]
  {
    var said := conv + [Message(User, Plain(utterance))];
    if HasExitPhrase(utterance) then TurnResult(Exited, said, a, [AnswersFile(a)])
    else AfterMatch(env, a, utterance, FieldMatch(env, said, utterance, Unanswered(a), SummaryMessage(a)))
  }

  /** The rest of a turn once the matcher has answered: a matched field is extracted,
      anything else goes to the general reply. */
  function AfterMatch(env: Env, a: Answers, utterance: string, m: Exchange<Option<string>>): (t: TurnResult)
    requires |m.conversation| >= 1 && a.Valid()
    requires m.result.Ok? && m.result.value.Some? ==> m.result.value.value in a.fields
    ensures t.answers.Valid() && t.answers.keys == a.keys
    ensures |t.conversation| >= 1 && t.conversation[0] == m.conversation[0]
  {
    match m.result
    case Err(e) => TurnResult(Raised(e), m.conversation, a, [])
    case Ok(matched) =>
      if matched.Some? && matched.value != "" then
        var key := matched.value;
        AfterExtraction(env, a, key, utterance, Extraction(env, m.conversation, key, a.fields[key], utterance, a))
      else ReplyStep(env, m.conversation, a)
  }

  /** The rest of a turn once the extractor has answered for key: a cleaned value is
      written before the general reply, anything else is retried. */
  function AfterExtraction(env: Env, a: Answers, key: string, utterance: string, x: Exchange<Option<string>>): (t: TurnResult)
    requires |x.conversation| >= 1 && a.Valid() && key in a.fields
    ensures t.answers.Valid() && t.answers.keys == a.keys
    ensures |t.conversation| >= 1 && t.conversation[0] == x.conversation[0]
  {
    match x.result
    case Err(e) => TurnResult(Raised(e), x.conversation, a, [])
    case Ok(cleaned) =>
      if cleaned.Some? && cleaned.value != "" then ReplyStep(env, x.conversation, a.WithValue(key, cleaned.value))
      else RetryStep(env, x.conversation, key, a.fields[key], utterance, a)
  }

  /** An utterance holding an exit phrase adds exactly itself to the conversation, changes
      no Value and saves the answers. */
  lemma ExitTurn(env: Env, conv: seq<Message>, a: Answers, utterance: string)
    requires |conv| >= 1 && a.Valid() && HasExitPhrase(utterance)
    ensures var t := Turn(env, conv, a, utterance);
            t.outcome == Exited && t.conversation == conv + [Message(User, Plain(utterance))] &&
            t.answers == a && t.saves == [AnswersFile(a)]
  {
  }

  /** "ok that's all for now" ends the interview even with unanswered fields. */
  lemma ExitMidSentence(env: Env, conv: seq<Message>, a: Answers)
    requires |conv| >= 1 && a.Valid()
    ensures Turn(env, conv, a, "ok that's all for now").outcome == Exited
  {
    assert IsLowerCase(ExitPhrases[4]);
    ExitPhraseVerbatim("ok ", " for now", 4);
    assert "ok " + ExitPhrases[4] + " for now" == "ok that's all for now";
  }

  /** A matched field whose extraction fails adds exactly three messages (the utterance, the
      retry prompt and the assistant's reply) and changes no Value. */
  lemma FailedExtractionTurn(env: Env, conv: seq<Message>, a: Answers, utterance: string, key: string)
    requires |conv| >= 1 && a.Valid() && !HasExitPhrase(utterance)
    requires var said := conv + [Message(User, Plain(utterance))];
             FieldMatch(env, said, utterance, Unanswered(a), SummaryMessage(a)).result == Ok(Some(key)) && key != "" &&
             var x := Extraction(env, said, key, a.fields[key], utterance, a);
             x.result.Ok? && (x.result.value.None? || x.result.value.value == "")
    ensures var t := Turn(env, conv, a, utterance);
            t.answers == a && t.saves == [] && (t.outcome.Retried? || t.outcome.Raised?) &&
            (t.outcome.Retried? ==>
               |t.conversation| == |conv| + 3 &&
               t.conversation == conv + [Message(User, Plain(utterance)),
                                         Message(User, RetryPrompt(key, a.fields[key], utterance)),
                                         Message(Assistant, Plain(t.outcome.text))])
  {
    assert key in Unanswered(a);
  }

  /** A successful extraction writes the cleaned value into the matched field and changes
      nothing else in the answers, whatever the general reply then does. */
  lemma SuccessfulExtractionTurn(env: Env, conv: seq<Message>, a: Answers, utterance: string, key: string, cleaned: string)
    requires |conv| >= 1 && a.Valid() && !HasExitPhrase(utterance)
    requires var said := conv + [Message(User, Plain(utterance))];
             FieldMatch(env, said, utterance, Unanswered(a), SummaryMessage(a)).result == Ok(Some(key)) && key != "" &&
             Extraction(env, said, key, a.fields[key], utterance, a).result == Ok(Some(cleaned)) && cleaned != ""
    ensures key in a.fields
    ensures var t := Turn(env, conv, a, utterance);
            t.answers == a.WithValue(key, cleaned) && !t.outcome.Retried? && !t.outcome.Exited?
  {
    assert key in Unanswered(a);
  }

  /** Values only change by writing a validated, non-empty value into a field that was
      blank; the field's Type, Required flag and Options never change. */
  lemma TurnWritesOnlyValidatedBlanks(env: Env, conv: seq<Message>, a: Answers, utterance: string)
    requires |conv| >= 1 && a.Valid()
    ensures var t := Turn(env, conv, a, utterance);
            forall k :: k in a.fields ==>
              k in t.answers.fields &&
              (t.answers.fields[k] == a.fields[k] ||
               (IsBlank(a.fields[k].value) && t.answers.fields[k].value != "" &&
                t.answers.fields[k] == a.fields[k].(value := t.answers.fields[k].value) &&
                ValidateAnswer(t.answers.fields[k].value, a.fields[k].typeName, a.fields[k].options, env.parsesDate)))
  {
    var said := conv + [Message(User, Plain(utterance))];
    if !HasExitPhrase(utterance) {
      var m := FieldMatch(env, said, utterance, Unanswered(a), SummaryMessage(a));
      if m.result.Ok? && m.result.value.Some? && m.result.value.value != "" {
        var key := m.result.value.value;
        UnansweredMembers(a);
        assert IsBlank(a.fields[key].value);
      }
    }
  }

  /** A turn keeps every Value blank or valid. */
  lemma TurnKeepsSound(env: Env, conv: seq<Message>, a: Answers, utterance: string)
    requires |conv| >= 1 && a.Valid() && Sound(a, env.parsesDate)
    ensures Sound(Turn(env, conv, a, utterance).answers, env.parsesDate)
  {
    TurnWritesOnlyValidatedBlanks(env, conv, a, utterance);
    var t := Turn(env, conv, a, utterance);
    assert t.answers.fields.Keys == a.fields.Keys by {
      forall k | k in t.answers.fields ensures k in a.fields {
        assert k in t.answers.keys;
      }
    }
  }

  /** A turn that gives the general reply adds exactly the utterance and that reply: both
      probes are gone. The completion message is returned exactly when every field is
      filled, and only then are the answers saved. */
  lemma ReplyTurn(env: Env, conv: seq<Message>, a: Answers, utterance: string)
    requires |conv| >= 1 && a.Valid()
    ensures var t := Turn(env, conv, a, utterance);
            (t.outcome.Replied? || t.outcome.Completed?) ==>
              |t.conversation| == |conv| + 2 && t.conversation[..|conv| + 1] == conv + [Message(User, Plain(utterance))] &&
              t.conversation[|conv| + 1].role == Assistant &&
              (t.outcome.Completed? <==> AllAnswered(t.answers)) &&
              (t.outcome.Completed? <==> t.saves == [AnswersFile(t.answers)])
  {
    var t := Turn(env, conv, a, utterance);
    var a' := ReplyComesFromReplyStep(env, conv, a, utterance);
    if t.outcome.Replied? || t.outcome.Completed? {
      UnansweredEmptyIff(a');
    }
  }

  /** A turn that gives the general reply is ReplyStep on the conversation with the
      utterance appended, for the answers as they stand after the extraction. */
  lemma ReplyComesFromReplyStep(env: Env, conv: seq<Message>, a: Answers, utterance: string) returns (a': Answers)
    requires |conv| >= 1 && a.Valid()
    ensures a'.Valid()
    ensures var t := Turn(env, conv, a, utterance);
            (t.outcome.Replied? || t.outcome.Completed?) ==>
              t == ReplyStep(env, conv + [Message(User, Plain(utterance))], a')
  {
    var said := conv + [Message(User, Plain(utterance))];
    a' := a;
    if !HasExitPhrase(utterance) {
      var m := FieldMatch(env, said, utterance, Unanswered(a), SummaryMessage(a));
      if m.result.Ok? && m.result.value.Some? && m.result.value.value != "" {
        var key := m.result.value.value;
        assert key in Unanswered(a);
        var x := Extraction(env, said, key, a.fields[key], utterance, a);
        if x.result.Ok? && x.result.value.Some? && x.result.value.value != "" {
          a' := a.WithValue(key, x.result.value.value);
        }
      }
    }
  }

  /** A payload without the text during matching ends the turn with the utterance and the
      matcher's probe left in the conversation. */
  lemma MalformedMatchTurn(env: Env, conv: seq<Message>, a: Answers, utterance: string)
    requires |conv| >= 1 && a.Valid() && !HasExitPhrase(utterance) && HasApiKey(env.apiKey)
    requires var said := conv + [Message(User, Plain(utterance))];
             env.complete(Posted(MatchProbe(said, utterance, Unanswered(a)), SummaryMessage(a))) == Delivered(None)
    ensures var t := Turn(env, conv, a, utterance);
            t.outcome == Raised(InvalidResponse) && t.answers == a &&
            t.conversation == conv + [Message(User, Plain(utterance)), Message(User, MatchRequest(Unanswered(a), utterance))]
  {
    var said := conv + [Message(User, Plain(utterance))];
    MalformedMatchLeavesProbe(env, said, utterance, Unanswered(a), SummaryMessage(a));
  }

  // ---------------------------------------------------------------- command-line loop

  /** conversation_loop from its current state on: each input line is stripped; an empty
      line ends the loop and saves the chat log; any other line is one turn. */
  function Loop(env: Env, conv: seq<Message>, a: Answers, inputs: seq<string>): (r: LoopResult)
    requires |conv| >= 1 && a.Valid()
    ensures r.answers.Valid() && r.answers.keys == a.keys
    ensures |r.conversation| >= 1 && r.conversation[0] == conv[0]
    decreases |inputs|, 2
  {
    if inputs == [] then LoopResult(Stopped(EndOfInput), conv, a, [])
    else Line(env, conv, a, Strip(inputs[0]), inputs[1..])
  }

  /** One stripped line: an empty one ends the loop and saves the chat log. */
  function Line(env: Env, conv: seq<Message>, a: Answers, utterance: string, rest: seq<string>): (r: LoopResult)
    requires |conv| >= 1 && a.Valid()
    ensures r.answers.Valid() && r.answers.keys == a.keys
    ensures |r.conversation| >= 1 && r.conversation[0] == conv[0]
    decreases |rest| + 1, 1
  {
    if utterance == "" then LoopResult(EmptyLine, conv, a, [ChatLog(conv)])
    else Continue(env, conv, a, utterance, rest)
  }

  /** The turn for one line that is not blank, then the loop over the lines after it. */
  function Continue(env: Env, conv: seq<Message>, a: Answers, utterance: string, rest: seq<string>): (r: LoopResult)
    requires |conv| >= 1 && a.Valid()
    ensures r.answers.Valid() && r.answers.keys == a.keys
    ensures |r.conversation| >= 1 && r.conversation[0] == conv[0]
    decreases |rest| + 1, 0
  {
    var t := Turn(env, conv, a, utterance);
    if t.outcome.Raised? then LoopResult(Stopped(t.outcome.error), t.conversation, t.answers, t.saves)
    else After(t.saves, Loop(env, t.conversation, t.answers, rest))
  }

  /** A line that is not blank is one turn: the loop stops with the turn's exception, or
      goes on from the turn's state after the turn's saves. */
  lemma LoopStep(env: Env, conv: seq<Message>, a: Answers, inputs: seq<string>)
    requires |conv| >= 1 && a.Valid() && inputs != [] && Strip(inputs[0]) != ""
    ensures var t := Turn(env, conv, a, Strip(inputs[0]));
            Loop(env, conv, a, inputs) ==
              if t.outcome.Raised? then LoopResult(Stopped(t.outcome.error), t.conversation, t.answers, t.saves)
              else After(t.saves, Loop(env, t.conversation, t.answers, inputs[1..]))
  {
    assert Loop(env, conv, a, inputs) == Continue(env, conv, a, Strip(inputs[0]), inputs[1..]);
  }

  /** The same step without naming the turn: unless the loop stops, it goes on from some
      valid state after some saves. */
  lemma LoopNext(env: Env, conv: seq<Message>, a: Answers, inputs: seq<string>)
      returns (conv': seq<Message>, a': Answers, saves: seq<Saved>)
    requires |conv| >= 1 && a.Valid() && inputs != [] && Strip(inputs[0]) != ""
    ensures |conv'| >= 1 && a'.Valid() && a'.keys == a.keys
    ensures Loop(env, conv, a, inputs).end.Stopped? ||
            Loop(env, conv, a, inputs) == After(saves, Loop(env, conv', a', inputs[1..]))
  {
    LoopStep(env, conv, a, inputs);
    var t := Turn(env, conv, a, Strip(inputs[0]));
    conv', a', saves := t.conversation, t.answers, t.saves;
  }

  /** The loop ends normally only at the first input line that is blank. */
  lemma {:induction false} LoopEndsAtFirstBlankLine(env: Env, conv: seq<Message>, a: Answers, inputs: seq<string>)
      returns (i: nat)
    requires |conv| >= 1 && a.Valid()
    requires Loop(env, conv, a, inputs).end == EmptyLine
    ensures i < |inputs| && Strip(inputs[i]) == ""
    ensures forall j :: 0 <= j < i ==> Strip(inputs[j]) != ""
    decreases |inputs|
  {
    if Strip(inputs[0]) == "" {
      i := 0;
    } else {
      var conv', a', _ := LoopNext(env, conv, a, inputs);
      var k := LoopEndsAtFirstBlankLine(env, conv', a', inputs[1..]);
      assert inputs[1..][k] == inputs[k + 1];
      i := k + 1;
    }
  }

  /** An exit phrase does not end this loop: the turn answers with the closing message and
      the loop reads the next line. */
  lemma ExitPhraseDoesNotEndLoop(env: Env, conv: seq<Message>, a: Answers, inputs: seq<string>)
    requires |conv| >= 1 && a.Valid() && |inputs| >= 1
    requires Strip(inputs[0]) != "" && HasExitPhrase(Strip(inputs[0]))
    ensures var rest := Loop(env, conv + [Message(User, Plain(Strip(inputs[0])))], a, inputs[1..]);
            Loop(env, conv, a, inputs) == LoopResult(rest.end, rest.conversation, rest.answers, [AnswersFile(a)] + rest.saves)
  {
    LoopStep(env, conv, a, inputs);
    ExitTurn(env, conv, a, Strip(inputs[0]));
  }

  /** The loop keeps every Value blank or valid. */
  lemma {:induction false} LoopKeepsSound(env: Env, conv: seq<Message>, a: Answers, inputs: seq<string>)
    requires |conv| >= 1 && a.Valid() && Sound(a, env.parsesDate)
    ensures Sound(Loop(env, conv, a, inputs).answers, env.parsesDate)
    decreases |inputs|
  {
    if inputs != [] && Strip(inputs[0]) != "" {
      LoopStep(env, conv, a, inputs);
      var t := Turn(env, conv, a, Strip(inputs[0]));
      TurnKeepsSound(env, conv, a, Strip(inputs[0]));
      if !t.outcome.Raised? {
        LoopKeepsSound(env, t.conversation, t.answers, inputs[1..]);
      }
    }
  }

  // ---------------------------------------------------------------- the state that changes

  /** The conversation list and the answers dict that process_user_message mutates, with
      a log of what save_json wrote. */
  class Session {
    var conversation: seq<Message>
    var answers: Answers
    ghost var saved: seq<Saved>

    ghost predicate Valid()
      reads this
    {
      |conversation| >= 1 && answers.Valid()
    }

    /** The start of conversation_loop: the answers are the questions, and the
        conversation is the system prompt alone. */
    constructor (questions: Answers)
      requires questions.Valid()
      ensures Valid()
      ensures conversation == [Message(System, SystemPrompt(questions.keys))]
      ensures answers == questions && saved == []
    {
      conversation := [Message(System, SystemPrompt(questions.keys))];
      answers := questions;
      saved := [];
    }

    /** chat_completion(conversation, answers). */
    method ChatCompletion(env: Env) returns (r: Result<Payload>)
      requires Valid()
      modifies this
      ensures Valid() && answers == old(answers) && saved == old(saved)
      ensures Exchange(r, conversation) == Completion(env, old(conversation), SummaryMessage(answers))
    {
      if !HasApiKey(env.apiKey) {
        return Err(MissingApiKey);
      }
      var summary := SummaryMessage(answers);
      if summary.Some? {
        conversation := InsertAt1(conversation, summary.value);
      }
      var reply := env.complete(conversation);
      if reply.Unreachable? {
        return Err(TransportFailure);
      }
      if summary.Some? {
        conversation := PopAt1(conversation);
      }
      return Ok(reply.payload);
    }

    /** ask_llama_to_match_field(conversation, utterance, unanswered, answers). */
    method AskToMatchField(env: Env, utterance: string, unanswered: seq<string>) returns (r: Result<Option<string>>)
      requires Valid()
      modifies this
      ensures Valid() && answers == old(answers) && saved == old(saved)
      ensures Exchange(r, conversation) == FieldMatch(env, old(conversation), utterance, unanswered, SummaryMessage(answers))
    {
      conversation := conversation + [Message(User, MatchRequest(unanswered, utterance))];
      var response := ChatCompletion(env);
      if response.Err? {
        return Err(response.error);
      }
      var parsed := ParseResponse(response.value);
      if parsed.Err? {
        return Err(parsed.error);
      }
      var matchText := Strip(parsed.value);
      conversation := PopLast(conversation);
      var found := FindField(unanswered, matchText);
      return Ok(found);
    }

    /** extract_clean_answer(conversation, key, field, utterance, answers). */
    method ExtractCleanAnswer(env: Env, key: string, field: Field, utterance: string) returns (r: Result<Option<string>>)
      requires Valid()
      modifies this
      ensures Valid() && answers == old(answers) && saved == old(saved)
      ensures Exchange(r, conversation) == Extraction(env, old(conversation), key, field, utterance, answers)
    {
      conversation := conversation + [Message(User, ExtractRequest(key, field.typeName, field.options, utterance))];
      var response := ChatCompletion(env);
      if response.Err? {
        return Err(response.error);
      }
      var parsed := ParseResponse(response.value);
      if parsed.Err? {
        return Err(parsed.error);
      }
      var extracted := Strip(parsed.value);
      conversation := PopLast(conversation);
      if ValidateAnswer(extracted, field.typeName, field.options, env.parsesDate) {
        return Ok(Some(extracted));
      }
      return Ok(None);
    }

    /** process_user_message(utterance, conversation, answers): how the turn ends (its
        ReturnValue is the message returned, or the exception raised), with the
        conversation and the answers left as Turn says. */
    method ProcessUserMessage(env: Env, utterance: string) returns (outcome: Outcome)
      requires Valid()
      modifies this
      ensures Valid()
      ensures var t := Turn(env, old(conversation), old(answers), utterance);
              outcome == t.outcome && conversation == t.conversation &&
              answers == t.answers && saved == old(saved) + t.saves
    {
      conversation := conversation + [Message(User, Plain(utterance))];
      if HasExitPhrase(utterance) {
        saved := saved + [AnswersFile(answers)];
        return Exited;
      }
      var unanswered := Unanswered(answers);
      var matched := AskToMatchField(env, utterance, unanswered);
      if matched.Err? {
        return Raised(matched.error);
      }
      if matched.value.Some? && matched.value.value != "" {
        var key := matched.value.value;
        var field := answers.fields[key];
        var cleaned := ExtractCleanAnswer(env, key, field, utterance);
        if cleaned.Err? {
          return Raised(cleaned.error);
        }
        if cleaned.value.Some? && cleaned.value.value != "" {
          answers := answers.WithValue(key, cleaned.value.value);
        } else {
          outcome := Retry(env, key, field, utterance);
          return;
        }
      }
      outcome := Reply(env);
    }

    /** The retry branch of process_user_message: the retry prompt is appended, and the
        gateway's stripped reply is appended and returned. */
    method Retry(env: Env, key: string, field: Field, utterance: string) returns (outcome: Outcome)
      requires Valid()
      modifies this
      ensures Valid()
      ensures var t := RetryStep(env, old(conversation), key, field, utterance, old(answers));
              outcome == t.outcome && conversation == t.conversation &&
              answers == t.answers && saved == old(saved) + t.saves
    {
      conversation := conversation + [Message(User, RetryPrompt(key, field, utterance))];
      var retry := ChatCompletion(env);
      if retry.Err? {
        return Raised(retry.error);
      }
      var parsedRetry := ParseResponse(retry.value);
      if parsedRetry.Err? {
        return Raised(parsedRetry.error);
      }
      var retryMessage := Strip(parsedRetry.value);
      conversation := conversation + [Message(Assistant, Plain(retryMessage))];
      return Retried(retryMessage);
    }

    /** The end of process_user_message: the general reply is appended, and the answers are
        saved and the closing message returned once no Value is blank. */
    method Reply(env: Env) returns (outcome: Outcome)
      requires Valid()
      modifies this
      ensures Valid()
      ensures var t := ReplyStep(env, old(conversation), old(answers));
              outcome == t.outcome && conversation == t.conversation &&
              answers == t.answers && saved == old(saved) + t.saves
    {
      var response := ChatCompletion(env);
      if response.Err? {
        return Raised(response.error);
      }
      var parsed := ParseResponse(response.value);
      if parsed.Err? {
        return Raised(parsed.error);
      }
      var message := Strip(parsed.value);
      conversation := conversation + [Message(Assistant, Plain(message))];
      if Unanswered(answers) == [] {
        saved := saved + [AnswersFile(answers)];
        return Completed;
      }
      return Replied(message);
    }
  }

  /** conversation_loop over the lines the user types; running out of lines is input()'s
      EOFError. */
  method ConversationLoop(env: Env, questions: Answers, inputs: seq<string>) returns (session: Session, end: LoopEnd)
    requires questions.Valid()
    ensures fresh(session) && session.Valid()
    ensures LoopResult(end, session.conversation, session.answers, session.saved) ==
            Loop(env, [Message(System, SystemPrompt(questions.keys))], questions, inputs)
  {
    session := new Session(questions);
    ghost var whole := Loop(env, session.conversation, questions, inputs);
    var i := 0;
    while true
      invariant 0 <= i <= |inputs| && session.Valid()
      invariant whole == After(session.saved, Loop(env, session.conversation, session.answers, inputs[i..]))
      decreases |inputs| - i
    {
      if i == |inputs| {
        return session, Stopped(EndOfInput);
      }
      var utterance := Strip(inputs[i]);
      if utterance == "" {
        session.saved := session.saved + [ChatLog(session.conversation)];
        return session, EmptyLine;
      }
      ghost var conv, answers, saved := session.conversation, session.answers, session.saved;
      var outcome := session.ProcessUserMessage(env, utterance);
      LoopStep(env, conv, answers, inputs[i..]);
      if outcome.Raised? {
        return session, Stopped(outcome.error);
      }
      assert inputs[i..][1..] == inputs[i + 1..];
      AfterAfter(saved, session.saved[|saved|..], Loop(env, session.conversation, session.answers, inputs[i + 1..]));
      assert saved + session.saved[|saved|..] == session.saved;
      i := i + 1;
    }
  }
}

# Interview turn engine — a Dafny model

This project models the interview turn engine of a form-filling assistant. The engine
exists in two variants, `API_Call1.py` and `API_Call2.py`. Each variant holds:

- a conversation: a list of role-tagged messages that starts with the system prompt;
- an answers dict: field name ↦ `{Value, Type, Required, Options}`, in insertion order;
- a language-model gateway (`chat_completion`) that temporarily inserts a summary of
  the filled fields at index 1 of the conversation;
- a matcher (`ask_llama_to_match_field`) and an extractor (`extract_clean_answer`), each of
  which appends a probe message, calls the gateway, parses the reply and pops the probe;
- a type validator (`validate_answer`; `API_Call1.py` first maps aliases with `normalize_type`);
- the turn controller `process_user_message` and the command-line `conversation_loop`.

How the model is built:

- **The outside world is a value `Env`.** It holds the API key (`Option<string>`; an
  empty key counts as missing). It holds the language model, as a function from the
  posted messages to `Unreachable` (`requests.post` raised) or `Delivered(payload)`; the
  payload is `None` when `completion_message.content.text` is missing. It holds
  dateutil's parser, as a predicate.
- **Saves are recorded, not performed.** What `save_json` writes is kept as a log of
  `Saved` events.
- **Each variant has pure specification functions**: `Completion`, `FieldMatch`,
  `Extraction`, `Turn` and `Loop`. Each step says what it returns and which conversation
  it leaves behind.
- **Each variant has a `Session` class** with the conversation and the answers as
  fields. Its methods perform the same steps by updating those fields and are proved
  equal to the specification functions.
- **Prompts are contents, not strings.** Built prompts are kept as structured `Content`.
  Each variant's `Render` gives the exact wording of its summary, extraction and retry
  prompts.

File layout:

- `wrappers.dfy`: `Option`, `Result` and the error kinds.
- `text.dfy`: the ASCII `str` operations.
- `forms.dfy`: the answers dict.
- `transcript.dfy`: messages and list surgery.
- `gateway.dfy`: `parse_response` and `chat_completion`.
- `matching.dfy`: the matcher and the exit phrases.
- `turns.dfy`: turn and loop outcomes.
- `api_call1.dfy` and `api_call2.dfy`: one module per variant.

Points of the code's behaviour that the model keeps as written:

- The temporary messages are popped only on normal return. An exception from
  `requests.post` leaves the summary at index 1 (API_Call1.py:105-108), and an exception
  from `parse_response` leaves the probe at the end (API_Call1.py:120-123, 139-142).
- `validate_answer` knows five types: text, int, datetime, boolean and multichoice
  (API_Call1.py:56-70). Any other type, `float` included, is invalid. The extracted
  value is checked as the language model returns it, stripped but not cleaned further.
- For `boolean`, the lower-cased value is accepted when it is yes or no, or when it appears
  in the Options exactly as written (API_Call1.py:67).
- The summary lines are joined with newlines (API_Call1.py:88, API_Call2.py:51).
- In `API_Call1.py` an exit phrase saves only the answers, and `conversation_loop` reads
  the next line after it; only an empty line ends that loop (API_Call1.py:163-165, 205-212).

## Model

| member | source | states |
|---|---|---|
| Text.Strip | API_Call1.py:122 | `str.strip()`, as `rstrip` after `lstrip`; what it keeps and removes is stated by StripSpec. |
| Text.TrimLeft | API_Call1.py:122 | `str.lstrip()`; stated by TrimLeftSpec. |
| Text.TrimRight | API_Call1.py:122 | `str.rstrip()`; stated by TrimRightSpec. |
| Text.StripSpec | API_Call1.py:122 | `strip()` removes whitespace at both ends only: the result is empty exactly when the input is all whitespace, and otherwise starts and ends with a non-space character. |
| Text.TrimLeftSpec | API_Call1.py:141 | The left half of `strip()`: it keeps a suffix of the input and drops only leading whitespace. |
| Text.TrimRightSpec | API_Call1.py:141 | The right half of `strip()`: it keeps a prefix of the input and drops only trailing whitespace. |
| Text.IsBlankIff | API_Call1.py:167 | The blank test `v.strip() == ""` holds exactly for the strings made of whitespace only. |
| Text.Lower | API_Call1.py:34 | `lower()` keeps the length. |
| Text.LowerSpec | API_Call1.py:34 | `lower()` maps each character through the ASCII lower-case map. |
| Text.LowerOfLowerCase | API_Call1.py:34 | `lower()` gives a lower-case string, and a lower-case string is its own `lower()`. |
| Text.LowerIdempotent | API_Call1.py:126 | Lower-casing twice equals lower-casing once. |
| Text.LowerAppend | API_Call1.py:163 | `lower()` distributes over concatenation. |
| Text.LowerAll | API_Call1.py:69 | `[opt.lower() for opt in options]` has one entry per option, the lower-cased option at the same position. |
| Text.TitleFrom | API_Call2.py:51 | `title()` keeps the length. |
| Text.Title | API_Call2.py:51 | `str.title()`; its letter cases are stated by TitleCases and TitleKeepsNonLetters. |
| Text.TitleCases | API_Call2.py:51 | `title()` upper-cases a letter at the start and after a non-letter, and lower-cases a letter after a letter. |
| Text.TitleKeepsNonLetters | API_Call2.py:51 | `title()` keeps every non-letter character and turns letters into letters. |
| Text.ReplaceChar | API_Call2.py:51 | `replace('_', ' ')` keeps the length. |
| Text.ReplaceCharSpec | API_Call2.py:51 | `replace` substitutes every occurrence of the character and keeps every other character. |
| Text.IsDigits | API_Call1.py:59 | `str.isdigit()` on ASCII: a non-empty run of decimal digits; used as stated by ApiCall1.IntValidIff. |
| Text.Contains | API_Call1.py:163 | The substring test `p in s`; stated by ContainsIffOccurs. |
| Text.ContainsIffOccurs | API_Call1.py:163 | The substring test `p in s` holds exactly when `p` occurs in `s` at some position. |
| Text.ContainsInfix | API_Call1.py:163 | A string is found in any string it stands in the middle of. |
| Text.ContainsEnd | API_Call2.py:145 | A string is found in any string that ends with it. |
| Text.ContainsAppend | API_Call2.py:145 | Appending text keeps every substring found before. |
| Text.ContainsPrepend | API_Call1.py:116 | Prepending text keeps every substring found before. |
| Text.Join | API_Call1.py:116 | `sep.join(parts)`; stated by JoinContains and JoinEmptyIff. |
| Text.JoinContains | API_Call1.py:116 | Every part can be found in the joined string. |
| Text.OrElse | API_Call1.py:135 | Python's `s or fallback` on strings; stated by JoinEmptyIff. |
| Text.JoinEmptyIff | API_Call1.py:135 | With a non-empty separator the join is empty exactly when there is no part or only an empty one, and `', '.join(options) or 'N/A'` gives N/A exactly then. |
| Forms.Answers.WithValue | API_Call1.py:174 | `field_info["Value"] = v` changes only that field's Value; other fields, the keys and their order stay the same, and the dict stays well formed. |
| Forms.KeysWhere | API_Call1.py:167 | A filtered key list holds only keys of the dict. |
| Forms.KeysWhereMembers | API_Call1.py:167 | A key is in the filtered list exactly when it is a dict key whose entry passes the filter. |
| Forms.KeysWhereInOrder | API_Call1.py:167 | The filtered keys appear in dict order, at strictly increasing positions of the key list. |
| Forms.KeysWhereDistinct | API_Call1.py:81-85 | No key is listed twice by a filter. |
| Forms.Unanswered | API_Call1.py:167 | The unanswered list holds only keys of the dict. |
| Forms.FilledKeys | API_Call1.py:81-85 | The filled list holds only keys of the dict. |
| Forms.RequiredUnanswered | API_Call2.py:200 | The required-unanswered list holds only keys of the dict. |
| Forms.UnansweredMembers | API_Call1.py:167 | A key is unanswered exactly when its Value is blank. |
| Forms.FilledKeysMembers | API_Call1.py:84 | A key is filled exactly when its Value is not blank. |
| Forms.RequiredUnansweredMembers | API_Call2.py:200 | A key is required-unanswered exactly when it is Required and its Value is blank. |
| Forms.UnansweredEmptyIff | API_Call1.py:188-189 | The unanswered list is empty exactly when every field has a non-blank Value. |
| Forms.RequiredUnansweredEmptyIff | API_Call2.py:200-201 | The required-unanswered list is empty exactly when every Required field has a non-blank Value. |
| Transcript.InsertAt1 | API_Call1.py:98 | `insert(1, m)` puts `m` right after element 0 and shifts the rest by one. |
| Transcript.PopAt1 | API_Call1.py:108 | `pop(1)` removes element 1 and keeps the others in order. |
| Transcript.PopLast | API_Call1.py:123 | `pop()` removes one element, the last: putting it back gives the original list. |
| Transcript.PopLastUndoesAppend | API_Call1.py:120-123 | Popping after appending gives back the original list. |
| Transcript.PopAt1UndoesInsertAt1 | API_Call1.py:96-108 | Popping index 1 after inserting at index 1 gives back the original list. |
| Transcript.MatchProbe | API_Call1.py:120 | The conversation with the match prompt appended; what the matcher leaves behind with it is stated by Matching.FieldMatch and Matching.MalformedMatchLeavesProbe. |
| Transcript.ExtractProbe | API_Call1.py:139 | The conversation with the extraction prompt appended; what the extractor leaves behind with it is stated by ApiCall1.Extraction and ApiCall1.ExtractionOfReply. |
| Transcript.SystemPromptText | API_Call1.py:40-48 | The text of `build_system_prompt`; stated by SystemPromptNamesTopics. |
| Transcript.SystemPromptNamesTopics | API_Call1.py:40-48 | The system prompt names every field. |
| Transcript.MatchRequestText | API_Call1.py:115-119 | The text of the match prompt; stated by MatchRequestNamesFields. |
| Transcript.MatchRequestNamesFields | API_Call1.py:115-119 | The match prompt names every unanswered field and quotes the utterance. |
| Gateway.HasApiKey | API_Call1.py:92-93 | `not api_key`: a key is present when it is set and not empty; what follows from a missing one is stated by Completion and MissingKeyTouchesNothing. |
| Gateway.ParseResponse | API_Call1.py:74-78 | It returns the text exactly when the payload has it, and raises the invalid-format error otherwise. |
| Gateway.Posted | API_Call1.py:96-98 | The posted list keeps the system prompt at index 0. |
| Gateway.Completion | API_Call1.py:91-110 | Element 0 is never displaced. On normal return the conversation equals its input. Only the missing-key and transport errors can escape, and the missing-key error escapes exactly when the key is absent or empty. |
| Gateway.MissingKeyTouchesNothing | API_Call1.py:92-94 | A missing key raises before the conversation is touched. |
| Gateway.TransportFailureLeavesSummary | API_Call1.py:105-108 | When `requests.post` raises, the conversation stays as posted, with the summary still at index 1: the pop is not in a `finally`. |
| Gateway.DeliveredRestores | API_Call1.py:96-110 | A delivered reply is returned with the conversation exactly as before. |
| Matching.FirstMatch | API_Call1.py:125-128 | A match is always one of the listed fields. |
| Matching.FirstMatchNone | API_Call1.py:125-128 | There is no match exactly when no listed field equals the text ignoring case. |
| Matching.FirstMatchIsFirst | API_Call1.py:125-128 | A match is the first listed field equal to the text ignoring case. |
| Matching.FindField | API_Call1.py:125-128 | The for-loop search returns exactly the first match. |
| Matching.FieldMatch | API_Call1.py:114-128 | Element 0 is kept, the conversation is unchanged on normal return, and a match is always one of the unanswered fields. |
| Matching.FieldMatchOfReply | API_Call1.py:114-128 | On a delivered reply, the result is the first unanswered field equal to the stripped reply ignoring case, and the conversation is as before. |
| Matching.MalformedMatchLeavesProbe | API_Call1.py:120-123 | A payload without the text raises after the probe was appended and before it was popped, so the probe stays in the conversation. |
| Matching.HasExitPhrase | API_Call1.py:160-163 | `any(p in user_input.lower() for p in exit_phrases)`; stated by ExitPhraseAnywhere, and in API_Call2.py:171-172 and 217-218 too. |
| Matching.ExitPhraseAnywhere | API_Call1.py:160-163 | A word whose lower-case form is an exit phrase is detected wherever it stands in the utterance, whatever its case. |
| Matching.ExitPhraseVerbatim | API_Call1.py:160-163 | An exit phrase written as listed is detected wherever it stands. |
| Matching.ShoutedExitPhrase | API_Call1.py:163 | "OK BYE!" is detected: the test lower-cases the utterance. |
| Turns.Outcome.ReturnValue | API_Call1.py:165-194 | What `process_user_message` returns: it raises exactly when the turn's outcome is an exception. |
| ApiCall1.Alias | API_Call1.py:30-34 | The alias dict looked up with the name as its default; stated by AliasOfLowerCase and AliasesNormalise. |
| ApiCall1.NormalizeType | API_Call1.py:29-34 | `normalize_type`; stated by NormalizeTypeIgnoresCase, NormalizeTypeIdempotent and AliasesNormalise. |
| ApiCall1.ValidateAnswer | API_Call1.py:52-70 | `validate_answer` after `normalize_type`; each type's verdict is stated by TextValidIff, IntValidIff, BooleanValidIff, MultichoiceValidIff and UnknownTypeInvalid. |
| ApiCall1.NormalizeTypeIgnoresCase | API_Call1.py:29-34 | `normalize_type` does not depend on the case of its input. |
| ApiCall1.NormalizeTypeIdempotent | API_Call1.py:29-34 | A normalised name is lower-case, and normalising it again changes nothing. |
| ApiCall1.AliasOfLowerCase | API_Call1.py:30-34 | The alias table maps a lower-case name to a lower-case name that is not itself an alias. |
| ApiCall1.AliasesNormalise | API_Call1.py:29-34 | phone and string (any case) map to text, date maps to datetime, and every other name is lower-cased. |
| ApiCall1.TextValidIff | API_Call1.py:56-57 | text is valid exactly when the value has a non-whitespace character. |
| ApiCall1.IntValidIff | API_Call1.py:58-59 | int is valid exactly when the value is a non-empty run of decimal digits. |
| ApiCall1.MultichoiceValidIff | API_Call1.py:68-69 | multichoice is valid exactly when the value equals some option ignoring case. |
| ApiCall1.BooleanValidIff | API_Call1.py:66-67 | boolean is valid exactly when the lower-cased value is yes, no, or one of the options exactly as written. |
| ApiCall1.UnknownTypeInvalid | API_Call1.py:70 | A type that normalises to none of the five names is never valid. |
| ApiCall1.FloatAndNumberInvalid | API_Call1.py:52-70 | float and Number are never valid. |
| ApiCall1.MultichoiceAcceptsOptions | API_Call1.py:68-69 | Every option, as written, is a valid multichoice value. |
| ApiCall1.BooleanOptionsAreNotLowered | API_Call1.py:67 | Options holding an upper-case letter never match a boolean value, because the options are not lower-cased, so only yes and no are accepted. |
| ApiCall1.SummaryLines | API_Call1.py:88 | One line per key. |
| ApiCall1.SummaryLinesAt | API_Call1.py:88 | Line i is `k: v` for the i-th key. |
| ApiCall1.SummaryMessage | API_Call1.py:80-89 | `answered_summary_message`; stated by SummaryMessageSpec. |
| ApiCall1.SummaryMessageSpec | API_Call1.py:80-89 | It returns None exactly when no Value is non-blank. Otherwise it returns one system message listing exactly the filled fields as `k: v`, in dict order. |
| ApiCall1.NothingFilledPostsConversation | API_Call1.py:96-98 | With nothing filled in, the conversation is posted as it is. |
| ApiCall1.FilledPostsSummaryAtIndex1 | API_Call1.py:96-98 | With a filled field, the summary is posted right after the system prompt. |
| ApiCall1.Extraction | API_Call1.py:132-146 | Element 0 is kept and the conversation is unchanged on normal return; a returned value always passes `validate_answer` for the field's Type and Options. |
| ApiCall1.ExtractionOfReply | API_Call1.py:139-146 | On a delivered reply, it returns the stripped reply exactly when that validates, and None otherwise, with the conversation as before. |
| ApiCall1.RetryPrompt | API_Call1.py:150-155 | `generate_retry_prompt` as a structured prompt; stated by RetryPromptQuotesInput. |
| ApiCall1.Render | API_Call1.py:150-155 | The wording of the summary, extraction and retry prompts; the retry text is stated by RetryPromptQuotesInput. |
| ApiCall1.RetryPromptQuotesInput | API_Call1.py:150-155 | The retry prompt names the field and quotes the rejected input. |
| ApiCall1.RetryStep | API_Call1.py:176-181 | The retry adds the retry prompt and the assistant's reply, changes no Value and saves nothing. |
| ApiCall1.ReplyStep | API_Call1.py:183-194 | The general reply appends one assistant message and changes no Value. It returns the completion message, and saves the answers, exactly when nothing is unanswered. |
| ApiCall1.Turn | API_Call1.py:159-194 | A turn keeps the dict well formed, its keys and their order, and the system prompt. |
| ApiCall1.AfterMatch | API_Call1.py:168-173 | After the match, the dict stays well formed with the same keys. |
| ApiCall1.AfterExtraction | API_Call1.py:172-181 | After the extraction, the dict stays well formed with the same keys. |
| ApiCall1.ExitTurn | API_Call1.py:161-165 | An exit phrase appends exactly one message, changes no Value and saves the answers. |
| ApiCall1.ExitMidSentence | API_Call1.py:160-165 | "ok that's all for now" ends the turn even with unanswered fields. |
| ApiCall1.FailedExtractionTurn | API_Call1.py:170-181 | A failed or empty extraction appends exactly three messages (the user's, the retry prompt and the reply) and changes no Value. |
| ApiCall1.SuccessfulExtractionTurn | API_Call1.py:170-174 | A successful extraction changes only the matched field's Value, to the cleaned value, and the turn is not a retry. |
| ApiCall1.TurnWritesOnlyValidatedBlanks | API_Call1.py:170-174 | A Value changes only from blank to a non-empty value that passes `validate_answer`; Type, Required and Options never change. |
| ApiCall1.TurnKeepsSound | API_Call1.py:170-174 | A turn keeps every Value blank or valid. |
| ApiCall1.ReplyTurn | API_Call1.py:183-194 | A general reply adds the utterance and one assistant message, with both probes gone. The completion message comes exactly when every field is filled, and only then are the answers saved. |
| ApiCall1.ReplyComesFromReplyStep | API_Call1.py:183-191 | A turn that gives the general reply is the reply step on the conversation with the utterance appended. |
| ApiCall1.MalformedMatchTurn | API_Call1.py:120-123 | A payload without the text during matching raises, leaving the utterance and the matcher's probe in the conversation. |
| ApiCall1.Loop | API_Call1.py:205-214 | The loop keeps the dict well formed with the same keys, and keeps the system prompt. |
| ApiCall1.Line | API_Call1.py:206-209 | One line keeps the dict well formed with the same keys. |
| ApiCall1.Continue | API_Call1.py:211 | One turn and the rest of the loop keep the dict well formed with the same keys. |
| ApiCall1.LoopStep | API_Call1.py:205-212 | A non-blank line is one turn: the loop stops with the turn's exception, or goes on from the turn's state after the turn's saves. |
| ApiCall1.LoopNext | API_Call1.py:205-212 | Unless it raises, the loop goes on from some well-formed state after a line. |
| ApiCall1.LoopEndsAtFirstBlankLine | API_Call1.py:206-209 | The loop ends normally only at the first blank line. |
| ApiCall1.ExitPhraseDoesNotEndLoop | API_Call1.py:205-212 | An exit phrase does not end this loop: the answers are saved and the next line is read. |
| ApiCall1.LoopKeepsSound | API_Call1.py:205-212 | The loop keeps every Value blank or valid. |
| ApiCall1.Session.constructor | API_Call1.py:199-201 | The answers start as the questions, and the conversation starts as the system prompt alone. |
| ApiCall1.Session.ChatCompletion | API_Call1.py:91-110 | The insert and the pop on the conversation field do exactly what `Completion` says. |
| ApiCall1.Session.AskToMatchField | API_Call1.py:114-128 | The append, the pop and the search loop do exactly what `FieldMatch` says. |
| ApiCall1.Session.ExtractCleanAnswer | API_Call1.py:132-146 | The append and the pop do exactly what `Extraction` says. |
| ApiCall1.Session.ProcessUserMessage | API_Call1.py:159-194 | The in-place updates leave the conversation, the answers, the saves and the outcome exactly as `Turn` says. |
| ApiCall1.Session.Retry | API_Call1.py:176-181 | The retry branch updates the state exactly as `RetryStep` says. |
| ApiCall1.Session.Reply | API_Call1.py:183-194 | The general reply updates the state exactly as `ReplyStep` says. |
| ApiCall1.ConversationLoop | API_Call1.py:198-216 | The while loop ends in exactly the state, saves and end `Loop` gives. |
| ApiCall2.ValidateAnswer | API_Call2.py:101-117 | `validate_answer` without aliases; stated by OnlyExactNamesValid, AliasesAreNotTypes and AgreesOnExactNames. |
| ApiCall2.OnlyExactNamesValid | API_Call2.py:101-117 | Only the exact names text, int, datetime, boolean and multichoice can ever be valid. |
| ApiCall2.AliasesAreNotTypes | API_Call2.py:101-117 | date, phone, float and Text always fail. |
| ApiCall2.AgreesOnExactNames | API_Call2.py:101-117 | For the five exact names, this validator gives the same verdict as the normalising one of `API_Call1.py`. |
| ApiCall2.KnownTypeIsNormal | API_Call1.py:29-34 | `normalize_type` leaves each of the five exact names as it is. |
| ApiCall2.KnownTypesArePlain | API_Call2.py:102-116 | The five type names are lower-case and none of them is an alias. |
| ApiCall2.PlainNameIsNormal | API_Call1.py:29-34 | `normalize_type` leaves a lower-case name that is not an alias unchanged. |
| ApiCall2.PrettyKey | API_Call2.py:51 | `k.replace('_', ' ').title()`; stated by PrettyKeySpec. |
| ApiCall2.PrettyKeySpec | API_Call2.py:51 | A prettified key keeps its length and has no `_`: each `_` becomes a space, and other non-letters are kept. A letter is upper-cased at the start and after a non-letter (an underscore included), and lower-cased after a letter. |
| ApiCall2.SummaryLines | API_Call2.py:51 | One line per key. |
| ApiCall2.SummaryLinesAt | API_Call2.py:51 | Line i is the i-th key prettified, then `: ` and its Value. |
| ApiCall2.SummaryMessage | API_Call2.py:43-52 | `answered_summary_message`; stated by SummaryMessageSpec. |
| ApiCall2.SummaryMessageSpec | API_Call2.py:43-52 | It returns None exactly when no Value is non-blank. Otherwise it returns one system message listing each filled field once, in dict order, with the key prettified. |
| ApiCall2.NothingFilledPostsConversation | API_Call2.py:59-61 | With empty answers, or with nothing filled in, no message is inserted. |
| ApiCall2.Extraction | API_Call2.py:121-137 | Element 0 is kept and the conversation is unchanged on normal return; a returned value always passes `validate_answer`. |
| ApiCall2.ExtractionOfReply | API_Call2.py:131-137 | On a delivered reply, it returns the stripped reply exactly when that validates (the empty string included), and None otherwise, with the conversation as before. |
| ApiCall2.RetryPrompt | API_Call2.py:141-148 | `generate_retry_prompt` as a structured prompt; stated by RetryPromptQuotesInput. |
| ApiCall2.Render | API_Call2.py:141-148 | The wording of the summary, extraction and retry prompts; the retry text is stated by RetryPromptQuotesInput. |
| ApiCall2.RetryText | API_Call2.py:141-148 | The retry prompt's text; stated by RetryTextQuotes. |
| ApiCall2.RetryPromptQuotesInput | API_Call2.py:141-148 | The retry prompt names the field and quotes the rejected input. |
| ApiCall2.RetryTextQuotes | API_Call2.py:141-148 | The retry text contains the key and the input. |
| ApiCall2.RetryStep | API_Call2.py:183-189 | The retry adds the retry prompt and the assistant's reply, changes no Value and saves nothing. |
| ApiCall2.ReplyStep | API_Call2.py:195-198 | The general reply appends exactly the stripped reply as an assistant message and changes no Value. |
| ApiCall2.Respond | API_Call2.py:176-198 | The shared turn code keeps the dict well formed with the same keys, and ends in a retry, a reply or an exception. |
| ApiCall2.AfterMatch | API_Call2.py:176-180 | After the match, the dict stays well formed with the same keys. |
| ApiCall2.AfterExtraction | API_Call2.py:180-192 | After the extraction, the dict stays well formed with the same keys. |
| ApiCall2.Turn | API_Call2.py:216-245 | `process_user_message` keeps the dict well formed with the same keys, and keeps the system prompt. |
| ApiCall2.ExitTurn | API_Call2.py:216-219 | An exit phrase returns the closing message, with the conversation and the answers untouched and nothing saved. |
| ApiCall2.FailedExtraction | API_Call2.py:182-189 | A failed extraction grows the conversation by exactly three messages, changes no Value and saves nothing. |
| ApiCall2.SuccessfulExtraction | API_Call2.py:191-192 | A value from the extractor is written to the matched field only, and the answers file is saved with it. |
| ApiCall2.RespondWritesOnlyValidatedBlanks | API_Call2.py:182-192 | A Value changes only from blank to a value that passes `validate_answer`; Type, Required and Options never change. |
| ApiCall2.RespondKeepsSound | API_Call2.py:182-192 | A turn keeps every Value blank or valid. |
| ApiCall2.Loop | API_Call2.py:162-208 | The loop keeps the dict well formed with the same keys, and keeps the system prompt. |
| ApiCall2.Line | API_Call2.py:163-174 | One line keeps the dict well formed with the same keys. |
| ApiCall2.Continue | API_Call2.py:176-203 | One turn and the rest of the loop keep the dict well formed with the same keys. |
| ApiCall2.EmptyLineEndsLoop | API_Call2.py:164-166 | An empty line ends the loop without appending; the answers and then the chat log are saved. |
| ApiCall2.ExitPhraseEndsLoop | API_Call2.py:168-174 | An exit phrase ends the loop after the user message has been appended, with no Value changed. |
| ApiCall2.LoopStep | API_Call2.py:176-203 | Any other line is one turn: the loop stops with the turn's exception, stops after a general reply that leaves no Required field blank, or goes on to the next line. |
| ApiCall2.StopsOnceRequiredAnswered | API_Call2.py:200-203 | After a general reply, the loop stops exactly when no Required field is blank; optional fields may stay blank. |
| ApiCall2.LoopNext | API_Call2.py:176-203 | Unless it raises, a line ends the loop with every Required field answered, or goes on from some well-formed state. |
| ApiCall2.Finish | API_Call2.py:205-206 | The saves after the loop, the answers and then the chat log; stated by NormalEndSaves. |
| ApiCall2.NormalEndSaves | API_Call2.py:200-206 | Every end except an exception saves the answers and then the chat log, last. The required-done end comes only when no Required field is blank. |
| ApiCall2.LoopKeepsSound | API_Call2.py:162-203 | The loop keeps every Value blank or valid. |
| ApiCall2.Session.constructor | API_Call2.py:212-214 | The module-level answers start as the questions, and the conversation starts as the system prompt alone. |
| ApiCall2.Session.ChatCompletion | API_Call2.py:54-77 | The guarded insert and pop do exactly what `Completion` says. |
| ApiCall2.Session.AskToMatchField | API_Call2.py:81-97 | The append, the pop and the search loop do exactly what `FieldMatch` says. |
| ApiCall2.Session.ExtractCleanAnswer | API_Call2.py:121-137 | The append and the pop do exactly what `Extraction` says. |
| ApiCall2.Session.ProcessUserMessage | API_Call2.py:216-245 | The updates to the module-level state leave it, the saves and the outcome exactly as `Turn` says. |
| ApiCall2.Session.RespondTo | API_Call2.py:221-245 | The shared turn code updates the state exactly as `Respond` says. |
| ApiCall2.Session.Extract | API_Call2.py:226-239 | After a match, the state is updated exactly as `AfterExtraction` says. |
| ApiCall2.Session.Retry | API_Call2.py:230-236 | The retry branch updates the state exactly as `RetryStep` says. |
| ApiCall2.Session.Reply | API_Call2.py:241-245 | The general reply updates the state exactly as `ReplyStep` says. |
| ApiCall2.Session.HandleLine | API_Call2.py:162-203 | One pass of the loop body ends the loop, or goes on, exactly as `Loop` says for that line. |
| ApiCall2.Session.SaveAll | API_Call2.py:205-206 | The final saves are the answers file, then the chat log. |
| ApiCall2.ConversationLoop | API_Call2.py:152-208 | After the first save, the while loop ends in exactly the state, saves and end `Loop` gives. |

## Left out

How the outside world is represented:
- **File, console and network I/O.** `load_json`, `load_questions`, `save_json`, `print`,
  `input` and `requests.post` are outside the model. Saves are a log of `Saved`
  values. Input lines come from a sequence, and running out of them is input()'s
  EOFError. The HTTP call is the `Env.complete` function.
- **`os.getenv` and `load_dotenv`.** They are the abstract `Env.apiKey`.
- **dateutil's `parse`.** It is the abstract predicate `Env.parsesDate`.
- **Body parsing.** A reply whose body is not JSON gives the same state as a payload
  without the text, because the pop at API_Call1.py:107-108 has already run. So does a
  body whose `completion_message` is `null`, or whose `text` is not a string: the lookup
  at API_Call1.py:76 (API_Call2.py:39) raises TypeError, or the `.strip()` after it raises
  AttributeError. All of these are `Delivered(None)`, which raises `InvalidResponse`.
- **Exception classes.** RuntimeError, ValueError, TypeError, AttributeError and requests'
  exceptions become the four `Error` values; the TypeError and AttributeError cases above
  are folded into `InvalidResponse`.

Shape differences from the Python:
- **`process_user_message` returns an `Outcome`.** Its `ReturnValue()` is the string the
  Python returns, or the exception it raises. In `API_Call1.py` it also returns the
  conversation and answers; these are the `Session` fields.
- **Prompt wording.** The system prompt and the match prompt are rendered by
  `Transcript.SystemPromptText` and `Transcript.MatchRequestText`. The extraction,
  retry and summary texts are rendered by each variant's `Render`. What is proved is
  about the roles and the count of messages. For the wording, the system prompt is
  proved to name every field, the match prompt to name every unanswered field and quote
  the utterance, and the retry prompt to quote the field and the input.

Behaviour outside the model:
- **Unicode.** `strip`, `lower`, `title` and `isdigit` are modelled on ASCII only.
- **Malformed form entries.** These are `isinstance(v, dict)`, a missing `Value`, `Type`
  or `Options` key, and `options=None`. Every entry of the model's answers is a complete
  field, and missing Options are the empty sequence.
- **`chat_completion` without answers.** `API_Call1.py` calls
  `answered_summary_message(None)` when called with no answers. No caller does this.
- **Print statements.** The `print` lines in `API_Call2.py`'s loop, including the
  "Saved:" echo after a write, are left out.
- **Other files.** `main.py` (PDF form extraction), `speechtotext.py` (audio capture
  and transcription) and `GUI.py` (the Gradio front end, which calls a module that is
  not one of these two files) are not part of this model.

# Cloze-test generator: a Dafny model of its core rules

The application takes an English passage and turns it into a cloze test.
Some words become numbered blanks `___N___`, each with a four-option
multiple-choice question. A generative model writes the test, and the
application shows it, lets the user edit the questions and exports it as a
Word document. Almost all of `index.js` is React rendering and one network
call. The part modelled here is the set of deterministic rules around them:

- **Tokenizer** (`tokenizer.dfy`): `text.split(/([^\w'-]+)/)` and the word
  filter `part.trim() !== '' && part.match(/[a-zA-Z]/)` that defines
  `wordsInText`.
- **Clickable** (`clickable.dfy`): the manual-mode walk that numbers word
  parts 0, 1, 2, … and marks the selected ones. It is written as a method
  with the source's `wordIdx` counter, and proved against a reference
  numbering.
- **OrderedSets** (`ordered_sets.dfy`): a JavaScript `Set` keeps insertion
  order, so a set is a sequence without duplicates. It carries the toggle
  that both set handlers perform.
- **Json** (`json.dfy`): the value `JSON.parse` returns, as an abstract
  datatype, with property reads and truthiness.
- **Response** (`response.dfy`): trimming the reply, removing an optional
  Markdown code fence, the shape check, and the user-facing error message.
- **QuizEdits** (`quiz_edits.dfy`): the two copy-on-write question edits.
  They are written with the object-spread semantics of JavaScript.
- **Export** (`export.dfy`): the Word document as data. It covers the
  passage lines split on `___N___` markers with the markers bold, the
  stable sort by `blankNumber`, six paragraphs per question, and the answer
  key. It also decodes the stored JSON quiz into a typed quiz, and an
  encoder is proved to round-trip with it.
- **App** (`app.dfy`): the ten state hooks as one record, and each
  interface action as a transition. A state invariant is proved to be
  preserved by every transition.

`JSON.parse` and the network call are parameters. `parse` is a function
from the reply text to a parsed value or a thrown error. The reply arrives
as a `CallOutcome`: either its text or what the call threw.

Behaviours of the code worth noting; the model follows the code:

- Changing the passage text only empties the word selection. It does not
  reset the answer or question-edit flags (`index.js:39-41`).
- The shape check accepts any truthy `passage`, such as a number, and not
  only a string (`index.js:160`).
- The answer and question-edit flags are reset when a request starts
  (`index.js:68-69`), not when its reply is accepted (`index.js:164`).
- The selection is emptied when the mode switch is turned off. Turning it
  on leaves the selection as it is (`index.js:43-47`). In every reachable
  state the selection is already empty in automatic mode (`App.Inv`), so
  the two readings agree there.

## Model

| member | source | states |
|---|---|---|
| Strings.TrimIsInfix | index.js:62 | `trim` only removes white space from the two ends: what it keeps is a contiguous infix, and everything cut off is white space |
| Strings.TrimEmptyIffAllSpace | index.js:62 | the trimmed text is empty exactly when the text is all white space |
| Strings.SplitOn | index.js:183 | `split('\n')` gives at least one piece, no piece holds a newline, and joining the pieces with newlines gives back the passage |
| Strings.NatToStringValue | index.js:197 | the decimal digits printed for `${q.blankNumber}` denote the number itself |
| Tokenizer.Split | index.js:37 | the split alternates word-character runs with non-empty maximal separator runs, starting and ending with a word run, and concatenating the parts gives back the input |
| Tokenizer.SplitUnique | index.js:37 | every decomposition of a string with that alternating shape is the split, so the shape defines the split |
| Tokenizer.SeparatorsAreNotWords | index.js:37 | a part that is not a word-character run is a separator run and is never counted as a word |
| Tokenizer.Words | index.js:37 | every word is a part of the split that is a run of word characters holding a letter, and every part of the split holding a letter is among the words |
| Tokenizer.WordPartIffLetter | index.js:37 | a part passes the filter exactly when it holds an ASCII letter, so the blank test adds nothing |
| Tokenizer.DontStopGo | index.js:37 | `"don't stop-go!"` splits into `["don't", " ", "stop-go", "!", ""]` and its words are `["don't", "stop-go"]` |
| Tokenizer.WordPartsIndex | index.js:240-246 | the word part at split position `i` is the word numbered by the count of word parts before `i` |
| Clickable.NumberParts | index.js:240-246 | the walk with a counter starting at -1, incremented before each word part, gives every part the span the reference numbering assigns |
| Clickable.RenderClickable | index.js:240-246 | span `k` shows part `k`; a span is clickable exactly when its part is a word; the word it carries is `wordsInText` at its index; numbers increase along the text and cover every word; it is selected exactly when its index is in the selection |
| Clickable.SpansFacts | index.js:240-246 | the same facts for the reference numbering of any parts |
| OrderedSets.Toggle | index.js:49-59 | toggling keeps the set duplicate-free and flips the membership of the element alone: it is removed in place when present and appended when absent |
| OrderedSets.ToggleTwice | index.js:227-237 | toggling the same element twice restores every membership, and restores the sequence when the element was absent |
| Json.Get | index.js:160 | a property read yields the field of an object that has it, and `undefined` for a missing field or a non-object; the non-object case is exact for the keys the program reads, none of which is a property of a string, array, number or boolean |
| Response.WordPrefixLength | index.js:152 | the greedy `\w*` language tag is the longest prefix of word characters |
| Response.FenceBody | index.js:152-155 | the captured fence body, trimmed, neither starts nor ends with white space |
| Response.IsFenced | index.js:152-153 | the fence pattern can only match a trimmed reply that is three backticks, some text, and three backticks |
| Response.StripFence | index.js:151-156 | the text passed to the parser neither starts nor ends with white space |
| Response.StripFenceCases | index.js:151-156 | trimmed text without a fence passes unchanged; a fence with a non-empty body gives the body; a fence with an empty body keeps the trimmed text |
| Response.JsonFenceStripped | index.js:151-156 | "```json\n" + body + "\n```", with a body starting with `{`, yields the trimmed body |
| Response.StripTaggedFence | index.js:152-155 | a fence with a word-character language tag followed by a non-word character yields the trimmed content after the tag |
| Response.BareWordFenceKept | index.js:152-154 | for every run of word characters `w`, including the empty one, the reply "```" + w + "```" is read as a bare language tag with an empty body, so the fence stays and the parser sees the whole reply |
| Response.BareWordFenceExamples | index.js:152-154 | "```42```" and "``````" reach the parser unchanged |
| Response.CheckShape | index.js:160-162 | the value is accepted, unchanged, exactly when `passage` is truthy and `questions` is an array; otherwise the shape error is thrown, or a TypeError for `null` |
| Response.ShapeRejections | index.js:160-162 | an empty or missing `passage` is rejected even with an array of questions, and `{"foo": 1}` gets the shape error |
| Response.ProcessReply | index.js:151-162 | a reply is accepted exactly when the fence-stripped text parses to a well-shaped value, which is then the result; a parse error is passed through, and a parsed value goes through the shape check, so an ill-shaped one gives its error |
| Response.ErrorMessage | index.js:167-172 | the message starts with the failure prefix; for an `Error` the detail text follows; the hint is appended exactly when the lower-cased message contains "json" |
| Response.MentionsJson | index.js:170 | `toLowerCase().includes('json')` holds exactly when four consecutive characters spell `json` in any mix of ASCII cases |
| Response.UpperCaseJsonGetsHint | index.js:170 | a message containing "JSON" in capitals gets the hint |
| Response.NoLetterJNoHint | index.js:170 | a message without the letter j in either case never gets the hint |
| Response.ShapeErrorHasNoHint | index.js:161-171 | the shape error yields the prefix and detail with no hint |
| QuizEdits.Spread | index.js:266-267 | spreading an object copies its fields; `null`, a boolean or a number spreads to nothing; an array spreads its elements under their decimal indices |
| QuizEdits.SpreadString | index.js:266-267 | a string spreads exactly the keys "0" to its length minus one, each to its one-character string |
| QuizEdits.IndexMap | index.js:266-267 | the keys are exactly the decimal indices of the elements, each mapped to its element |
| QuizEdits.IndexKeysMembers | index.js:266-267 | a key is an index key below `n` exactly when it is the decimal form of a number below `n` |
| QuizEdits.Apply | index.js:266-280 | an edited question is the spread of the original with only the edited entry changed: an option edit keeps every other field and option and sets `options[key]`; an answer edit keeps every other field and sets `correctAnswer` |
| QuizEdits.EditQuestions | index.js:264-270 | the questions keep their number and order; each one whose `blankNumber` matches is replaced by the edited copy and every other one is kept; a `null` question throws |
| QuizEdits.EditQuiz | index.js:261-286 | `null` stays `null`; a `null` question throws, and only then; otherwise only `questions` changes, to a list of the same length in which each question whose `blankNumber` matches is replaced by its edited copy and every other one is kept; `passage` is kept and the quiz stays well shaped |
| QuizEdits.ApplyChangesOnlyTarget | index.js:266-267 | an option edit changes only `options[key]` and keeps every other field and option key; an answer edit changes only `correctAnswer` |
| QuizEdits.ApplyKeepsMatch | index.js:265-267 | an edited question still carries the edited `blankNumber` |
| QuizEdits.ApplyTwice | index.js:266-267 | editing a question twice with the same edit equals editing it once |
| QuizEdits.EditQuizTwice | index.js:261-286 | applying the same quiz edit twice equals applying it once |
| Export.MarkerLengthMatches | index.js:184-185 | the computed anchored marker length is 0 or the length of a `___\d+___` match |
| Export.MarkerMatchUnique | index.js:184-185 | a `___\d+___` match at the start of a string has only one length, the computed one |
| Export.FindMatch | index.js:184 | the search stops at a position where a match starts, or at the end |
| Export.FindMatchFirst | index.js:184 | no match starts before the position the search finds |
| Export.SplitWithShape | index.js:184 | a split on a capturing pattern yields match-free text pieces separated by whole matches, every match taken at the leftmost position where one starts in the rest of the line, and concatenating the pieces gives back the input |
| Export.FindMatchIs | index.js:184 | the search stops exactly at the first position where a match starts |
| Export.PiecesUnique | index.js:184 | any leftmost decomposition into text and whole matches that concatenates to the input is the split |
| Export.PiecesSeqShape | index.js:184 | as a list, the pieces alternate text and matches, with an odd count, keep every match leftmost, and concatenate to the same string |
| Export.ContainsIffWhole | index.js:185 | in such a split, a piece contains a match exactly when it is one whole match |
| Export.MarkerOfPrefix | index.js:184 | a marker match at the start of a prefix is the match of the whole string, and conversely when it fits in the prefix |
| Export.SplitMarkers | index.js:184 | `line.split(/(___\d+___)/g)` alternates marker-free text with whole markers, takes every marker at the leftmost position where one starts, and concatenates back to the line |
| Export.SplitMarkersUnique | index.js:184 | any list with that shape that concatenates to the line is the split, so the shape defines it |
| Export.BoldIffMarker | index.js:184-188 | a segment of the split contains a marker exactly when it is one whole marker |
| Export.LineRuns | index.js:184-190 | the run texts of a line are the pieces of its split and concatenate back to the line, and a run is bold exactly when its text is a whole `___N___` marker |
| Export.PassageParagraphs | index.js:183-192 | one run paragraph per passage line, in order, built from that line's runs |
| Export.Insert | index.js:194 | inserting into the sorted list adds exactly one copy of the question |
| Export.InsertSorted | index.js:194 | inserting into a sorted list keeps it sorted |
| Export.SortByNumber | index.js:194 | the sorted questions are ordered by `blankNumber` and are a permutation of the input |
| Export.SortIsStable | index.js:194 | questions with the same number keep their relative order |
| Export.StableSortIsSortByNumber | index.js:194 | any sorted rearrangement that keeps equal numbers in their original order is `SortByNumber`, so the model agrees with a stable `Array.prototype.sort` |
| Export.SortedLength | index.js:194 | sorting keeps the number of questions |
| Export.QuestionBlock | index.js:195-204 | each question gives six paragraphs |
| Export.FlattenSixes | index.js:194-205 | flattening blocks of six puts block `i` at paragraphs `6i` to `6i + 5` |
| Export.QuestionParagraphs | index.js:194-205 | there are six paragraphs per question, and question `i` of the sorted list occupies paragraphs `6i` to `6i + 5` |
| Export.AnswerEntries | index.js:207 | one `N.K` entry per question, in list order |
| Export.AnswerKey | index.js:194-207 | the key is the entries of the questions in a number-sorted rearrangement that keeps questions sharing a number in their original order (a stable sort), two spaces apart; it is empty without questions, one entry for one question, and opens with the entry of a question whose number is least |
| Export.SortedArrangementUnique | index.js:194 | there is only one such stable sorted rearrangement, `SortByNumber`, so the key is fixed by the questions |
| Export.AnswerKeyExample | index.js:207 | numbers 3, 1, 2 with answers C, A, B give the key `"1.A  2.B  3.C"` |
| Export.SortExample | index.js:207 | questions numbered 3, 1, 2 sort to 1, 2, 3 |
| Export.Document | index.js:209-219 | the document is the passage heading, one paragraph per passage line, the questions heading, the question paragraphs in number order, the answers heading and the key |
| Export.DecodeQuestion | index.js:194-207 | a decoded question has the object's safe-integer `blankNumber`, its string options A–D, and its string or absent `correctAnswer`; conversely every value with fields of those types decodes, whatever other fields it holds |
| Export.DecodeAll | index.js:194 | a list decodes to one value per item, each that item's decoding, and fails exactly when some item fails |
| Export.DecodeAllPointwise | index.js:194 | items that decode one by one decode together to the list of results |
| Export.Decode | index.js:183-207 | a decoded quiz has the value's string `passage` and the decodings of its `questions` array; conversely a value with a string `passage` and a `questions` array whose every item decodes is decoded |
| Export.DecodeEncode | index.js:183-207 | decoding the JSON form of a quiz with safe-integer numbers and A–D options gives the quiz back |
| Export.DecodeEncodeQuestion | index.js:194-207 | the same for one question |
| Export.DecodeEncodeQuestionExtended | index.js:194-207 | an encoded question with further fields, such as `originalWord`, still decodes to that question |
| App.EditText | index.js:39-41 | typing sets the text and empties the selection when the text changed; nothing else changes |
| App.SetBlankCount | index.js:329 | the slider sets the blank count to a value from 1 to 20 and nothing else |
| App.ToggleWordType | index.js:49-59 | the chosen type flips membership, the other types keep theirs, and the set stays duplicate-free |
| App.ToggleEditMode | index.js:43-47 | the mode flips; switching it off empties the selection; nothing else changes |
| App.ClickWord | index.js:227-237 | the clicked index flips membership, the other indices keep theirs, and nothing else changes |
| App.CanGenerate | index.js:62-63 | generation may start exactly when no request is running and there is a selection in edit mode or text that is not all white space in automatic mode |
| App.Generate | index.js:62-69 | without sufficient input, or while loading, nothing changes; otherwise loading is set and the error, quiz, answer and question-edit flags are cleared, with every other field kept |
| App.GenerateNoOps | index.js:62-63 | generation does nothing while loading, in edit mode with an empty selection, or in automatic mode with all-white-space text; in automatic mode with visible text and no request running, it starts |
| App.SelectedWords | index.js:73 | the chosen words are, in selection order, the words at the selected indices |
| App.Prompt | index.js:72-137 | manual mode takes as many words as are selected, in selection order, with their quoted list; automatic mode takes the blank count and the selected type names joined by `", "`; both carry the input text |
| App.QuotedList | index.js:84 | the list opens and closes with a double quote; no words give `""`, one word is that word in quotes, and a longer list is the first word in quotes, `, ` and the list of the rest |
| App.QuotedListExample | index.js:84 | two chosen words are quoted as `"river", "boat"` |
| App.InitialTypeList | index.js:25-26 | with the initial settings the automatic prompt asks for 10 blanks of types `Noun, Verb, Adjective` |
| App.Finish | index.js:151-177 | after the reply, loading is off; an accepted reply becomes the quiz; a failure sets the error message and keeps the quiz; nothing else changes |
| App.GenerateThenSuccess | index.js:62-69 | a request answered with a well-shaped reply shows that quiz with no error, the answers hidden and the editor closed |
| App.GenerateThenShapeError | index.js:158-172 | a reply that parses to a non-null value of the wrong shape, such as `{"foo": 1}`, leaves no quiz and the message is exactly the failure prefix, the detail label and the shape error, with no hint |
| App.GenerateThenFailure | index.js:65-67 | a failed request leaves no quiz and an error starting with the failure prefix |
| App.ToggleShowAnswers | index.js:381 | the answer flag flips and nothing else changes |
| App.ToggleEditingQuestions | index.js:378 | the question-edit flag flips and nothing else changes |
| App.EditQuestion | index.js:261-286 | a question edit changes only the quiz, to the quiz edit of the stored quiz, keeps it present or absent and well shaped, and throws exactly when the stored quiz holds a `null` question |
| App.ExportQuiz | index.js:180-219 | without a quiz nothing is exported; a quiz that decodes is always exported, as the document of the decoded quiz; the outcome is outside the model only for a quiz that does not decode |
| App.Step | index.js:23-47 | every transition the interface offers keeps the state invariant: a well-shaped quiz, duplicate-free sets, selected indices that name words of the text, a blank count from 1 to 20, and an empty selection in automatic mode |
| App.SettingStep | index.js:39-59 | the input-panel actions keep the invariant |
| App.QuizStep | index.js:62-177 | the generation and view actions keep the invariant |
| App.TypeTextInv | index.js:39-41 | typing keeps the selection within the new word list |
| App.ClickInv | index.js:227-237 | clicking a word of the text keeps the selection within the word list |
| App.InitialInv | index.js:24-33 | the initial state satisfies the invariant |

## Left out

- React rendering, the JSX, CSS classes and the `useMemo`/`useEffect` mechanics. Only the state changes they cause are modelled (`App`).
- The `GoogleGenAI` request is network I/O. Its result is the `CallOutcome` parameter of `App.Finish`.
- `JSON.parse` is a foreign parser. It is the `parse` parameter, and only the shape of its value is modelled.
- docx `Document`, `Packer` and `saveAs`, and the heading, indent and spacing options. The document is the ordered list of text and bold descriptors.
- The prompt prose. Only the values interpolated into it are modelled (`App.Prompt`): the selected words, their count and quoted list, the blank count, the type list, and the input text.
- The `async`/`finally` lifecycle and `console.error`. `Finish` clears the loading flag in both outcomes, as `finally` does.
- Export.SortByNumber: `Array.prototype.sort` sorts the stored questions in place, so the state's question order changes as a side effect of export and rendering. The model sorts a copy and leaves the stored order alone.
- Strings.ToLower: only ASCII letters are lowered. That is all the test for "json" needs, but other characters of `toLowerCase` are not modelled.
- Strings are sequences of code points, not UTF-16 code units.
- `===` on an object or array `blankNumber` compares references; the model's `QuizEdits.Matches` compares values.
- App.ExportQuiz: a stored quiz that does not decode gives `OutsideModel`; these are cases the model declines to compute. The source handles several of them: `${…}` prints a fractional number such as 1.5 as "1.5", and a non-string option prints through `String`. A question whose `options` is missing or `null` makes `handleExportToWord` itself throw a TypeError at `q.options.A` (index.js:199); a string, number, boolean or array `options` prints "undefined" for the options it lacks. The model computes none of these outcomes.
- Export.DecodeQuestion: `blankNumber` is read only as an integer-valued Number within the safe-integer range, which `${…}` prints as plain decimal. Other numbers lead to `OutsideModel`.
- Response.NullPassageMessage and QuizEdits.NullQuestionMessage: the text of the TypeError thrown on a `null` value is engine-specific. The model uses the V8 wording; other engines word it differently.
- The Chinese interface labels other than the document headings and the error texts.
- A reply whose `text` is `undefined`: `response.text.trim()` would throw a TypeError. The outcome type carries a string, so this case is not modelled.
- App.Step: a question edit whose updater throws is an error result. The model does not say how React reports it.

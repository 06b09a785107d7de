/**
 The application state and the transitions the interface triggers: text and
 setting changes, word clicks, the two phases of generation (the request
 and the reply), the view toggles, the question edits and the export.
 */
module App {
  import opened Strings
  import opened Tokenizer
  import opened OrderedSets
  import opened Json
  import opened Response
  import opened QuizEdits
  import opened Export

  /** The word types offered for automatic mode, in declaration order. */
  datatype WordType = Noun | Verb | Adjective | Adverb | Preposition | Conjunction

  /** The English key under which a word type appears in the prompt. */
  function TypeName(t: WordType): string {
    match t
    case Noun => "Noun"
    case Verb => "Verb"
    case Adjective => "Adjective"
    case Adverb => "Adverb"
    case Preposition => "Preposition"
    case Conjunction => "Conjunction"
  }

  /** The component state: the ten `useState` hooks. Both `Set`s are
      insertion-ordered sequences without duplicates. */
  datatype AppState = AppState(
    inputText: string,
    numBlanks: int,
    wordTypes: seq<WordType>,
    clozeTest: Option<JValue>,
    isLoading: bool,
    error: string,
    showAnswers: bool,
    isEditMode: bool,
    selection: seq<nat>,
    isEditingQuestions: bool)

  const Initial: AppState :=
    AppState("", 10, [Noun, Verb, Adjective], None, false, "", false, false, [], false)

  /** What holds in every state the interface can reach. */
  predicate Inv(st: AppState) {
    && (st.clozeTest.Some? ==> Shaped(st.clozeTest.value))
    && NoDuplicates(st.wordTypes)
    && NoDuplicates(st.selection)
    && (forall i :: 0 <= i < |st.selection| ==> st.selection[i] < |Words(st.inputText)|)
    && 1 <= st.numBlanks <= 20
    && (!st.isEditMode ==> st.selection == [])
  }

  // ---------------------------------------------------------------------
  // Settings and selection.
  // ---------------------------------------------------------------------

  /** Typing in the text area; the effect on `inputText` then empties the
      selection when the text actually changed. */
  function EditText(st: AppState, text: string): (r: AppState)
    ensures r.inputText == text
    ensures r.selection == (if text == st.inputText then st.selection else [])
    ensures r.(inputText := st.inputText, selection := st.selection) == st
  {
    if text == st.inputText then st else st.(inputText := text, selection := [])
  }

  /** The range slider, which only produces 1 to 20. */
  function SetBlankCount(st: AppState, n: int): (r: AppState)
    requires 1 <= n <= 20
    ensures r.numBlanks == n && r.(numBlanks := st.numBlanks) == st
  {
    st.(numBlanks := n)
  }

  /** `handleWordTypeChange`. */
  function ToggleWordType(st: AppState, t: WordType): (r: AppState)
    requires NoDuplicates(st.wordTypes)
    ensures NoDuplicates(r.wordTypes)
    ensures t in r.wordTypes <==> t !in st.wordTypes
    ensures forall u :: u != t ==> (u in r.wordTypes <==> u in st.wordTypes)
    ensures r.(wordTypes := st.wordTypes) == st
  {
    st.(wordTypes := Toggle(st.wordTypes, t))
  }

  /** The mode switch; the effect on `isEditMode` empties the selection when
      the switch is turned off. */
  function ToggleEditMode(st: AppState): (r: AppState)
    ensures r.isEditMode == !st.isEditMode
    ensures r.selection == (if st.isEditMode then [] else st.selection)
    ensures r.(isEditMode := st.isEditMode, selection := st.selection) == st
  {
    var on := !st.isEditMode;
    st.(isEditMode := on, selection := if on then st.selection else [])
  }

  /** `toggleWordSelection(index)`. */
  function ClickWord(st: AppState, index: nat): (r: AppState)
    requires NoDuplicates(st.selection)
    ensures NoDuplicates(r.selection)
    ensures index in r.selection <==> index !in st.selection
    ensures forall j :: j != index ==> (j in r.selection <==> j in st.selection)
    ensures r.(selection := st.selection) == st
  {
    st.(selection := Toggle(st.selection, index))
  }

  // ---------------------------------------------------------------------
  // Generation.
  // ---------------------------------------------------------------------

  /** `hasSufficientInput && !isLoading`: a selection in edit mode, some
      non-blank text in automatic mode, and no request in flight. */
  function CanGenerate(st: AppState): (b: bool)
    ensures b <==> && !st.isLoading
                   && (st.isEditMode ==> st.selection != [])
                   && (!st.isEditMode ==> !AllSpace(st.inputText))
  {
    TrimEmptyIffAllSpace(st.inputText);
    && (if st.isEditMode then |st.selection| > 0 else Trim(st.inputText) != [])
    && !st.isLoading
  }

  /** The synchronous part of `handleGenerate`: return early, or mark the
      request as running and clear the previous result. */
  function Generate(st: AppState): (r: AppState)
    ensures !CanGenerate(st) ==> r == st
    ensures CanGenerate(st) ==>
              && r.isLoading && r.error == [] && r.clozeTest.None?
              && !r.showAnswers && !r.isEditingQuestions
    ensures r.(isLoading := st.isLoading, error := st.error, clozeTest := st.clozeTest,
               showAnswers := st.showAnswers, isEditingQuestions := st.isEditingQuestions) == st
  {
    if !CanGenerate(st) then st
    else st.(isLoading := true, error := "", clozeTest := None, showAnswers := false, isEditingQuestions := false)
  }

  /** Generation does nothing while a request runs, in edit mode without a
      selection, and in automatic mode when the text is all white space. */
  lemma GenerateNoOps(st: AppState)
    ensures st.isLoading ==> Generate(st) == st
    ensures st.isEditMode && st.selection == [] ==> Generate(st) == st
    ensures !st.isEditMode && AllSpace(st.inputText) ==> Generate(st) == st
    ensures !st.isLoading && !st.isEditMode && !AllSpace(st.inputText) ==> Generate(st).isLoading
  {
    TrimEmptyIffAllSpace(st.inputText);
  }

  /** The values interpolated into the prompt: the chosen words, their count
      and the quoted list in manual mode; the count and type list in
      automatic mode; the passage text in both. */
  datatype PromptArgs =
    | Manual(words: seq<string>, expectedCount: nat, quotedList: string, text: string)
    | Auto(numBlanks: int, typeList: string, text: string)

  /** `wordsInText[i]` as `join` prints it: an index past the end reads
      `undefined`, which `join` prints as nothing. */
  function WordAt(words: seq<string>, i: nat): string {
    if i < |words| then words[i] else ""
  }

  /** `Array.from(selectedWordIndices).map(i => wordsInText[i])`. */
  function SelectedWords(words: seq<string>, selection: seq<nat>): (r: seq<string>)
    ensures |r| == |selection|
    ensures forall k :: 0 <= k < |selection| && selection[k] < |words| ==> r[k] == words[selection[k]]
  {
    seq(|selection|, k requires 0 <= k < |selection| => WordAt(words, selection[k]))
  }

  /** `"${words.join('", "')}"`: the words in double quotes, a quote opening
      the list and one closing it. */
  function QuotedList(words: seq<string>): (r: string)
    ensures |r| >= 2 && r[0] == '"' && r[|r| - 1] == '"'
    ensures words == [] ==> r == "\"\""
    ensures |words| == 1 ==> r == "\"" + words[0] + "\""
    ensures words != [] ==> "\"" + words[0] <= r
    ensures |words| >= 2 ==> r == "\"" + words[0] + "\", " + QuotedList(words[1..])
  {
    if words != [] then
      JoinPrefix(words, "\", \"");
      "\"" + Join(words, "\", \"") + "\""
    else
      "\"" + Join(words, "\", \"") + "\""
  }

  function TypeNames(ts: seq<WordType>): (r: seq<string>)
    ensures |r| == |ts| && forall i :: 0 <= i < |ts| ==> r[i] == TypeName(ts[i])
  {
    seq(|ts|, i requires 0 <= i < |ts| => TypeName(ts[i]))
  }

  /** The prompt branch `handleGenerate` takes once the guard passed. */
  function Prompt(st: AppState): (r: PromptArgs)
    requires CanGenerate(st)
    ensures r.Manual? <==> st.isEditMode
    ensures r.Manual? ==> r.expectedCount == |st.selection| == |r.words|
    ensures r.Manual? && Inv(st) ==> forall k :: 0 <= k < |st.selection| ==> r.words[k] == Words(st.inputText)[st.selection[k]]
    ensures r.Auto? ==> r.numBlanks == st.numBlanks
    ensures r.Manual? ==> r.quotedList == QuotedList(r.words)
    ensures r.Auto? ==> r.typeList == Join(TypeNames(st.wordTypes), ", ")
    ensures r.text == st.inputText
  {
    if st.isEditMode && |st.selection| > 0 then
      var words := SelectedWords(Words(st.inputText), st.selection);
      Manual(words, |words|, QuotedList(words), st.inputText)
    else
      Auto(st.numBlanks, Join(TypeNames(st.wordTypes), ", "), st.inputText)
  }

  /** Two chosen words appear as `"river", "boat"`. */
  lemma QuotedListExample()
    ensures QuotedList(["river", "boat"]) == "\"river\", \"boat\""
  {
    assert ["river", "boat"][1..] == ["boat"];
  }

  /** With the initial settings and some text, the automatic prompt asks
      for 10 blanks of the types `Noun, Verb, Adjective`. */
  lemma InitialTypeList(text: string)
    requires Trim(text) != []
    ensures Prompt(Initial.(inputText := text)) == Auto(10, "Noun, Verb, Adjective", text)
  {
    InitialNames();
  }

  lemma InitialNames()
    ensures Join(TypeNames(Initial.wordTypes), ", ") == "Noun, Verb, Adjective"
  {
    var names := TypeNames([Noun, Verb, Adjective]);
    assert names == ["Noun", "Verb", "Adjective"];
    JoinThree("Noun", "Verb", "Adjective", ", ");
  }

  lemma JoinThree(a: string, b: string, c: string, sep: string)
    ensures Join([a, b, c], sep) == a + sep + b + sep + c
  {
    assert [a, b, c][1..] == [b, c] && [b, c][1..] == [c];
  }

  /** How the request ended: the reply text, or what the call threw. */
  datatype CallOutcome = Replied(text: string) | Failed(thrown: Thrown)

  /** The asynchronous part of `handleGenerate`: store the checked quiz or
      the error message, then clear the loading flag. */
  function Finish(st: AppState, outcome: CallOutcome, parse: string -> Result<JValue>): (r: AppState)
    ensures !r.isLoading
    ensures outcome.Failed? ==> r.error == ErrorMessage(outcome.thrown) && r.clozeTest == st.clozeTest
    ensures outcome.Replied? ==>
              match ProcessReply(outcome.text, parse)
              case Ok(v) => r.clozeTest == Some(v) && Shaped(v) && r.error == st.error
              case Err(e) => r.error == ErrorMessage(e) && r.clozeTest == st.clozeTest
    ensures r.(isLoading := st.isLoading, error := st.error, clozeTest := st.clozeTest) == st
  {
    var done := st.(isLoading := false);
    match outcome
    case Failed(e) => done.(error := ErrorMessage(e))
    case Replied(text) =>
      match ProcessReply(text, parse)
      case Ok(v) => done.(clozeTest := Some(v))
      case Err(e) => done.(error := ErrorMessage(e))
  }

  /** A request that was started and answered with a well-shaped reply
      leaves the quiz on screen, no error, the answers hidden and the editor
      closed. */
  lemma GenerateThenSuccess(st: AppState, text: string, parse: string -> Result<JValue>)
    requires CanGenerate(st)
    requires ProcessReply(text, parse).Ok?
    ensures var r := Finish(Generate(st), Replied(text), parse);
            && r.clozeTest == Some(parse(StripFence(text)).value)
            && r.error == [] && !r.isLoading && !r.showAnswers && !r.isEditingQuestions
            && r.inputText == st.inputText && r.selection == st.selection
  {
  }

  /** A reply that parses to a value of the wrong shape, such as
      `{"foo": 1}`, shows the shape error after the failure prefix, with no
      hint. */
  lemma GenerateThenShapeError(st: AppState, text: string, parse: string -> Result<JValue>)
    requires CanGenerate(st)
    requires parse(StripFence(text)).Ok?
    requires parse(StripFence(text)).value != JNull && !Shaped(parse(StripFence(text)).value)
    ensures var r := Finish(Generate(st), Replied(text), parse);
            && r.clozeTest.None? && !r.isLoading
            && r.error == FailurePrefix + DetailLabel + InvalidShapeMessage
  {
    ShapeErrorHasNoHint();
  }

  /** A failed request leaves no quiz and a message that starts with the
      failure prefix. */
  lemma GenerateThenFailure(st: AppState, outcome: CallOutcome, parse: string -> Result<JValue>)
    requires CanGenerate(st)
    requires outcome.Failed? || ProcessReply(outcome.text, parse).Err?
    ensures var r := Finish(Generate(st), outcome, parse);
            && r.clozeTest.None? && !r.isLoading
            && FailurePrefix <= r.error
  {
  }

  // ---------------------------------------------------------------------
  // The quiz view.
  // ---------------------------------------------------------------------

  function ToggleShowAnswers(st: AppState): (r: AppState)
    ensures r.showAnswers == !st.showAnswers && r.(showAnswers := st.showAnswers) == st
  {
    st.(showAnswers := !st.showAnswers)
  }

  function ToggleEditingQuestions(st: AppState): (r: AppState)
    ensures r.isEditingQuestions == !st.isEditingQuestions
    ensures r.(isEditingQuestions := st.isEditingQuestions) == st
  {
    st.(isEditingQuestions := !st.isEditingQuestions)
  }

  /** `handleOptionChange` and `handleCorrectAnswerChange`: only the quiz
      changes; a `null` question makes the updater throw. */
  function EditQuestion(st: AppState, n: Option<JValue>, e: Edit): (r: Result<AppState>)
    requires st.clozeTest.Some? ==> Shaped(st.clozeTest.value)
    ensures r.Ok? ==> r.value.(clozeTest := st.clozeTest) == st
    ensures r.Ok? ==> (r.value.clozeTest.Some? <==> st.clozeTest.Some?)
    ensures r.Ok? && r.value.clozeTest.Some? ==> Shaped(r.value.clozeTest.value)
    ensures r.Err? ==> r.error == JsError(NullQuestionMessage)
    ensures r.Err? <==> st.clozeTest.Some? && JNull in st.clozeTest.value.fields["questions"].items
    ensures r.Ok? ==> EditQuiz(st.clozeTest, n, e).Ok? && r.value.clozeTest == EditQuiz(st.clozeTest, n, e).value
  {
    match EditQuiz(st.clozeTest, n, e)
    case Ok(q) => Ok(st.(clozeTest := q))
    case Err(err) => Err(err)
  }

  /** What pressing the export button yields. */
  datatype ExportOutcome =
    | NothingToExport
    | Exported(paragraphs: seq<Paragraph>)
    | OutsideModel

  /** `handleExportToWord`: nothing without a quiz; the document for a quiz
      whose fields decode; `OutsideModel` for the rest. */
  function ExportQuiz(st: AppState): (r: ExportOutcome)
    ensures st.clozeTest.None? ==> r == NothingToExport
    ensures r.Exported? ==> exists ct :: Decode(st.clozeTest.value) == Some(ct) && r.paragraphs == Document(ct)
    ensures st.clozeTest.Some? && Decode(st.clozeTest.value).Some? ==>
              r == Exported(Document(Decode(st.clozeTest.value).value))
    ensures r.OutsideModel? ==> st.clozeTest.Some? && Decode(st.clozeTest.value).None?
  {
    if st.clozeTest.None? then NothingToExport
    else
      match Decode(st.clozeTest.value)
      case Some(ct) => Exported(Document(ct))
      case None => OutsideModel
  }

  // ---------------------------------------------------------------------
  // Reachable states.
  // ---------------------------------------------------------------------

  datatype Action =
    | TypeText(text: string)
    | Slide(n: int)
    | ClickType(t: WordType)
    | SwitchMode
    | Click(index: nat)
    | StartGenerate
    | Complete(outcome: CallOutcome)
    | ShowAnswers
    | EditQuestions
    | ChangeQuestion(blankNumber: Option<JValue>, edit: Edit)

  /** The actions the interface offers in a state: the slider gives 1 to
      20, and clickable words exist only in edit mode. */
  predicate Enabled(st: AppState, a: Action) {
    match a
    case Slide(n) => 1 <= n <= 20
    case Click(index) => st.isEditMode && index < |Words(st.inputText)|
    case _ => true
  }

  /** One transition; a question edit that throws stops the application. */
  function Step(st: AppState, a: Action, parse: string -> Result<JValue>): (r: Result<AppState>)
    requires Inv(st) && Enabled(st, a)
    ensures r.Ok? ==> Inv(r.value)
  {
    if IsSetting(a) then Ok(SettingStep(st, a))
    else if a.ChangeQuestion? then EditQuestion(st, a.blankNumber, a.edit)
    else Ok(QuizStep(st, a, parse))
  }

  /** The actions of the input panel. */
  predicate IsSetting(a: Action) {
    a.TypeText? || a.Slide? || a.ClickType? || a.SwitchMode? || a.Click?
  }

  function SettingStep(st: AppState, a: Action): (r: AppState)
    requires Inv(st) && Enabled(st, a) && IsSetting(a)
    ensures Inv(r)
  {
    if a.TypeText? then
      TypeTextInv(st, a.text);
      EditText(st, a.text)
    else if a.Slide? then SetBlankCount(st, a.n)
    else if a.ClickType? then ToggleWordType(st, a.t)
    else if a.SwitchMode? then ToggleEditMode(st)
    else
      ClickInv(st, a.index);
      ClickWord(st, a.index)
  }

  /** The actions that request, show or change the quiz, other than edits
      of a question. */
  function QuizStep(st: AppState, a: Action, parse: string -> Result<JValue>): (r: AppState)
    requires Inv(st) && !IsSetting(a) && !a.ChangeQuestion?
    ensures Inv(r)
  {
    if a.StartGenerate? then Generate(st)
    else if a.Complete? then Finish(st, a.outcome, parse)
    else if a.ShowAnswers? then ToggleShowAnswers(st)
    else ToggleEditingQuestions(st)
  }

  /** Changing the text keeps the selection valid: it is emptied unless the
      text (and so its word list) is unchanged. */
  lemma TypeTextInv(st: AppState, text: string)
    requires Inv(st)
    ensures Inv(EditText(st, text))
  {
  }

  /** A word clicked in edit mode is a word of the text. */
  lemma ClickInv(st: AppState, index: nat)
    requires Inv(st) && st.isEditMode && index < |Words(st.inputText)|
    ensures Inv(ClickWord(st, index))
  {
    var r := ClickWord(st, index);
    forall i | 0 <= i < |r.selection| ensures r.selection[i] < |Words(st.inputText)| {
      assert r.selection[i] in r.selection;
    }
  }

  lemma InitialInv()
    ensures Inv(Initial)
  {
  }
}

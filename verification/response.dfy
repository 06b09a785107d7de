/**
 Handling of the model's text reply: trimming, removal of an optional
 Markdown code fence, the shape check on the parsed value, and the
 user-facing error message built from whatever was thrown.
 */
module Response {
  import opened Strings
  import opened Json

  /** What a `catch` clause can receive: an `Error` with its `message`, or
      some other thrown value. */
  datatype Thrown = JsError(message: string) | NonError

  datatype Result<T> = Ok(value: T) | Err(error: Thrown)

  /** The error the shape check throws. */
  const InvalidShapeMessage: string := "Received invalid data structure from API."

  /** The TypeError V8 raises for `null.passage`. */
  const NullPassageMessage: string := "Cannot read properties of null (reading 'passage')"

  const Fence: string := "```"

  const FailurePrefix: string := "生成失败。请检查输入或稍后重试。"
  const DetailLabel: string := " 错误详情: "
  const FormatHint: string := " (这通常意味着AI返回的数据格式不正确，可能是因为原文中的特殊字符（如引号）导致的。请尝试修改原文或重试。)"

  /** The regular-expression class `\w`: ASCII letters, digits, underscore. */
  predicate IsRegexWordChar(c: char) {
    IsAsciiLetter(c) || IsDigit(c) || c == '_'
  }

  /** Length of the longest `\w*` prefix. */
  function WordPrefixLength(s: string): (n: nat)
    ensures n <= |s|
    ensures forall j :: 0 <= j < n ==> IsRegexWordChar(s[j])
    ensures n == |s| || !IsRegexWordChar(s[n])
  {
    if s == [] || !IsRegexWordChar(s[0]) then 0 else 1 + WordPrefixLength(s[1..])
  }

  /** Whether a trimmed reply matches `/^```(\w*)?\s*\n?(.*?)\n?\s*```$/s`:
      it opens and closes with three backticks that do not overlap. */
  function IsFenced(t: string): (b: bool)
    ensures b <==> exists a :: t == Fence + a + Fence
  {
    FenceIff(t);
    |t| >= 6 && t[..3] == Fence && t[|t| - 3..] == Fence
  }

  lemma FenceIff(t: string)
    ensures (|t| >= 6 && t[..3] == Fence && t[|t| - 3..] == Fence) <==> exists a :: t == Fence + a + Fence
  {
    if exists a :: t == Fence + a + Fence {
      var a :| t == Fence + a + Fence;
      assert t[..3] == Fence && t[|t| - 3..] == Fence;
    }
    if |t| >= 6 && t[..3] == Fence && t[|t| - 3..] == Fence {
      assert t == Fence + t[3..|t| - 3] + Fence;
    }
  }

  /** Capture group 2 of the fence pattern. The greedy `(\w*)?` takes the
      whole word run after the opening fence as the language tag, the greedy
      `\s*` the white space after it, and the lazy `(.*?)` stops before the
      trailing white space: the rest between the fences, trimmed. */
  function FenceBody(t: string): (g: string)
    requires IsFenced(t)
    ensures g == [] || (!IsSpace(g[0]) && !IsSpace(g[|g| - 1]))
  {
    var inner := t[3..|t| - 3];
    Trim(inner[WordPrefixLength(inner)..])
  }

  /** `jsonStr` after the fence handling: the trimmed reply, replaced by the
      fence body when the pattern matches and the body is non-empty
      (`match && match[2]`). The result never starts or ends with white
      space. */
  function StripFence(raw: string): (r: string)
    ensures r == [] || (!IsSpace(r[0]) && !IsSpace(r[|r| - 1]))
  {
    var t := Trim(raw);
    if IsFenced(t) && FenceBody(t) != [] then FenceBody(t) else t
  }

  /** A trimmed reply that does not match the fence pattern is passed on
      unchanged, and a fenced one with a non-empty body becomes the body. */
  lemma StripFenceCases(raw: string)
    ensures !IsFenced(Trim(raw)) ==> StripFence(raw) == Trim(raw)
    ensures IsFenced(Trim(raw)) && FenceBody(Trim(raw)) != [] ==> StripFence(raw) == FenceBody(Trim(raw))
    ensures IsFenced(Trim(raw)) && FenceBody(Trim(raw)) == [] ==> StripFence(raw) == Trim(raw)
  {
  }

  /** The reply the prompt forbids but the code tolerates:
      "```json\n" + body + "\n```" yields the trimmed body. */
  lemma JsonFenceStripped(body: string)
    requires body != [] && body[0] == '{'
    ensures StripFence("```json\n" + body + "\n```") == Trim(body)
  {
    var rest := "\n" + body + "\n";
    assert "```json\n" + body + "\n```" == Fence + "json" + rest + Fence;
    TrimSurrounded("\n", body, "\n");
    TrimEmptyIffAllSpace(body);
    assert !IsSpace(body[0]);
    StripTaggedFence("json", rest);
  }

  /** Fence, language tag, then content not starting with a word character,
      then fence: the trimmed content comes out. */
  lemma StripTaggedFence(tag: string, rest: string)
    requires forall j :: 0 <= j < |tag| ==> IsRegexWordChar(tag[j])
    requires rest != [] && !IsRegexWordChar(rest[0]) && Trim(rest) != []
    ensures StripFence(Fence + tag + rest + Fence) == Trim(rest)
  {
    var raw := Fence + tag + rest + Fence;
    FencedIsTrimmed(Fence + tag, rest);
    TaggedFenceBody(tag, rest);
    StripFenceOfFenced(raw);
  }

  lemma TaggedFenceBody(tag: string, rest: string)
    requires forall j :: 0 <= j < |tag| ==> IsRegexWordChar(tag[j])
    requires rest != [] && !IsRegexWordChar(rest[0])
    ensures IsFenced(Fence + tag + rest + Fence)
    ensures FenceBody(Fence + tag + rest + Fence) == Trim(rest)
  {
    var raw := Fence + tag + rest + Fence;
    assert raw[..3] == Fence;
    assert raw[|raw| - 3..] == Fence;
    var inner := raw[3..|raw| - 3];
    assert inner == tag + rest;
    WordPrefixOfTagged(tag, rest);
    assert inner[|tag|..] == rest;
  }

  lemma StripFenceOfFenced(raw: string)
    requires IsFenced(raw) && Trim(raw) == raw && FenceBody(raw) != []
    ensures StripFence(raw) == FenceBody(raw)
  {
  }

  /** A string wrapped in fences starts and ends with a backtick, so trimming
      leaves it alone. */
  lemma FencedIsTrimmed(a: string, b: string)
    requires |a| >= 3 && a[..3] == Fence
    ensures Trim(a + b + Fence) == a + b + Fence
  {
    var t := a + b + Fence;
    assert t[0] == '`' && t[|t| - 1] == '`';
    TrimOfTrimmed(t);
  }

  /** A language tag ends at the first non-word character. */
  lemma WordPrefixOfTagged(tag: string, rest: string)
    requires forall j :: 0 <= j < |tag| ==> IsRegexWordChar(tag[j])
    requires rest != [] && !IsRegexWordChar(rest[0])
    ensures WordPrefixLength(tag + rest) == |tag|
  {
    var t := tag + rest;
    assert forall j :: 0 <= j < |tag| ==> IsRegexWordChar(t[j]) by {
      forall j | 0 <= j < |tag| ensures IsRegexWordChar(t[j]) {
        assert t[j] == tag[j];
      }
    }
    assert t[|tag|] == rest[0];
  }

  /** A fenced reply whose whole content is word characters is taken for a
      language tag, so the fence stays and the text goes to the parser
      unchanged. */
  lemma BareWordFenceKept(w: string)
    requires forall j :: 0 <= j < |w| ==> IsRegexWordChar(w[j])
    ensures StripFence(Fence + w + Fence) == Fence + w + Fence
  {
    var t := Fence + w + Fence;
    FencedIsTrimmed(Fence, w);
    assert t[..3] == Fence && t[|t| - 3..] == Fence;
    var inner := t[3..|t| - 3];
    assert inner == w;
    WholeWordPrefix(w);
    assert inner[|w|..] == [];
  }

  /** A run of word characters is all prefix. */
  lemma WholeWordPrefix(w: string)
    requires forall j :: 0 <= j < |w| ==> IsRegexWordChar(w[j])
    ensures WordPrefixLength(w) == |w|
  {
  }

  /** `"```42```"` and `"``````"` reach the parser as they are. */
  lemma BareWordFenceExamples()
    ensures StripFence("```42```") == "```42```"
    ensures StripFence("``````") == "``````"
  {
    var w := "42";
    assert IsRegexWordChar(w[0]) && IsRegexWordChar(w[1]);
    BareWordFenceKept(w);
    assert Fence + w + Fence == "```42```";
    BareWordFenceKept([]);
    assert Fence + [] + Fence == "``````";
  }

  /** The shape the code accepts: an object whose `passage` is truthy and
      whose `questions` is an array. */
  predicate Shaped(v: JValue) {
    && v.JObj?
    && "passage" in v.fields && Truthy(Some(v.fields["passage"]))
    && "questions" in v.fields && v.fields["questions"].JArr?
  }

  /** `if (!resultData.passage || !Array.isArray(resultData.questions)) throw …`.
      Reading a property of `null` throws a TypeError before the test. */
  function CheckShape(v: JValue): (r: Result<JValue>)
    ensures r.Ok? <==> Shaped(v)
    ensures r.Ok? ==> r.value == v
    ensures r.Err? && v != JNull ==> r.error == JsError(InvalidShapeMessage)
    ensures v == JNull ==> r.Err? && r.error.JsError?
  {
    if v == JNull then Err(JsError(NullPassageMessage))
    else if !Truthy(Get(v, "passage")) || !IsArray(Get(v, "questions")) then Err(JsError(InvalidShapeMessage))
    else Ok(v)
  }

  /** A missing or empty `passage` is rejected even when `questions` is an
      array, and `{"foo": 1}` is rejected with the shape error. */
  lemma ShapeRejections(qs: seq<JValue>)
    ensures CheckShape(JObj(map["passage" := JStr(""), "questions" := JArr(qs)])).Err?
    ensures CheckShape(JObj(map["questions" := JArr(qs)])).Err?
    ensures CheckShape(JObj(map["foo" := JNum(1.0)])) == Err(JsError(InvalidShapeMessage))
  {
  }

  /** The path from the reply text to an accepted value: fence handling,
      the foreign parser `parse` (which may throw), then the shape check. */
  function ProcessReply(text: string, parse: string -> Result<JValue>): (r: Result<JValue>)
    ensures r.Ok? <==> parse(StripFence(text)).Ok? && Shaped(parse(StripFence(text)).value)
    ensures r.Ok? ==> r.value == parse(StripFence(text)).value
    ensures parse(StripFence(text)).Err? ==> r == parse(StripFence(text))
    ensures parse(StripFence(text)).Ok? ==> r == CheckShape(parse(StripFence(text)).value)
  {
    match parse(StripFence(text))
    case Ok(v) => CheckShape(v)
    case Err(e) => Err(e)
  }

  /** Whether the formatting hint is added for an error message: some four
      consecutive characters spell `json` in any mix of ASCII cases. */
  function MentionsJson(message: string): (b: bool)
    ensures b <==> exists i :: JsonAt(message, i)
  {
    JsonAtIffLower(message);
    Contains(ToLower(message), "json")
  }

  /** `message` spells `json` from `i`, ignoring ASCII case. */
  predicate JsonAt(message: string, i: int) {
    && 0 <= i && i + 4 <= |message|
    && AsciiLower(message[i]) == 'j' && AsciiLower(message[i + 1]) == 's'
    && AsciiLower(message[i + 2]) == 'o' && AsciiLower(message[i + 3]) == 'n'
  }

  lemma JsonAtIffLower(message: string)
    ensures Contains(ToLower(message), "json") <==> exists i :: JsonAt(message, i)
  {
    var l := ToLower(message);
    forall i | 0 <= i <= |l| - 4 ensures OccursAt(l, "json", i) <==> JsonAt(message, i) {
      assert l[i..i + 4] == [l[i], l[i + 1], l[i + 2], l[i + 3]];
    }
  }

  /** The user-facing message set in the `catch` clause. */
  function ErrorMessage(e: Thrown): (r: string)
    ensures FailurePrefix <= r
    ensures e.NonError? ==> r == FailurePrefix
    ensures e.JsError? ==> FailurePrefix + DetailLabel + e.message <= r
    ensures e.JsError? ==> (|r| > |FailurePrefix + DetailLabel + e.message| <==> MentionsJson(e.message))
    ensures e.JsError? && MentionsJson(e.message) ==> r[|FailurePrefix + DetailLabel + e.message|..] == FormatHint
  {
    match e
    case NonError => FailurePrefix
    case JsError(m) =>
      var detailed := FailurePrefix + DetailLabel + m;
      if MentionsJson(m) then detailed + FormatHint else detailed
  }

  /** A message naming JSON in any letter case gets the hint, as parser
      errors such as `... is not valid JSON` do. */
  lemma UpperCaseJsonGetsHint(m: string)
    requires Contains(m, "JSON")
    ensures MentionsJson(m)
  {
    var i :| 0 <= i <= |m| - 4 && OccursAt(m, "JSON", i);
    LowerOccurrence(m, i);
  }

  lemma LowerOccurrence(m: string, i: nat)
    requires i + 4 <= |m| && m[i..i + 4] == "JSON"
    ensures OccursAt(ToLower(m), "json", i)
  {
    ToLowerSlice(m, i, i + 4);
    LowerJson();
  }

  lemma LowerJson()
    ensures ToLower("JSON") == "json"
  {
    var u := ToLower("JSON");
    assert u[0] == 'j' && u[1] == 's' && u[2] == 'o' && u[3] == 'n';
  }

  /** A message without the letter j never gets the hint. */
  lemma NoLetterJNoHint(m: string)
    requires 'j' !in m && 'J' !in m
    ensures !MentionsJson(m)
  {
    var l := ToLower(m);
    forall i | 0 <= i <= |l| - 4 ensures !OccursAt(l, "json", i) {
      assert l[i] == AsciiLower(m[i]);
      assert m[i] in m;
      assert l[i..i + 4][0] == l[i];
    }
  }

  /** The shape error's own message never triggers the hint. */
  lemma ShapeErrorHasNoHint()
    ensures ErrorMessage(JsError(InvalidShapeMessage)) == FailurePrefix + DetailLabel + InvalidShapeMessage
  {
    ShapeMessageHasNoSmallJ();
    ShapeMessageHasNoCapitalJ();
    NoLetterJNoHint(InvalidShapeMessage);
  }

  lemma ShapeMessageHasNoSmallJ()
    ensures 'j' !in InvalidShapeMessage
  {
  }

  lemma ShapeMessageHasNoCapitalJ()
    ensures 'J' !in InvalidShapeMessage
  {
  }
}

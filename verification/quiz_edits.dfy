/**
 The two copy-on-write edits of the generated quiz: changing one option of
 a question and changing its correct answer. Both rebuild the quiz with
 object spreads, touching only the questions whose `blankNumber` is the one
 edited.
 */
module QuizEdits {
  import opened Strings
  import opened Json
  import opened Response

  /** The TypeError V8 raises for `null.blankNumber` while mapping the
      questions. */
  const NullQuestionMessage: string := "Cannot read properties of null (reading 'blankNumber')"

  /** The edits the question editor issues: `handleOptionChange(n, key,
      value)` and `handleCorrectAnswerChange(n, value)`. */
  datatype Edit = SetOption(key: string, value: string) | SetAnswer(answer: string)

  /** A key made of decimal digits: what spreading a string or array yields. */
  predicate IsIndexKey(k: string) {
    k != [] && forall i :: 0 <= i < |k| ==> IsDigit(k[i])
  }

  lemma NatToStringInjective(i: nat, j: nat)
    requires NatToString(i) == NatToString(j)
    ensures i == j
  {
    NatToStringValue(i);
    NatToStringValue(j);
  }

  /** The own enumerable properties `{...v}` copies: an object's fields, a
      string's characters and an array's elements under their indices, and
      nothing for `null`, booleans and numbers. */
  function Spread(v: JValue): (r: map<string, JValue>)
    ensures v.JObj? ==> r == v.fields
    ensures !v.JObj? ==> forall k :: k in r ==> IsIndexKey(k)
    ensures v.JNull? || v.JBool? || v.JNum? ==> r == map[]
    ensures v.JArr? ==> r == IndexMap(v.items)
  {
    match v
    case JObj(m) => m
    case JStr(s) => IndexMap(seq(|s|, i requires 0 <= i < |s| => JStr([s[i]])))
    case JArr(items) => IndexMap(items)
    case _ => map[]
  }

  /** A string spreads exactly the keys "0" to its length minus one, each
      to its one-character string. */
  lemma SpreadString(t: string)
    ensures Spread(JStr(t)).Keys == IndexKeys(|t|)
    ensures forall i: nat :: i < |t| ==> NatToString(i) in Spread(JStr(t)) && Spread(JStr(t))[NatToString(i)] == JStr([t[i]])
  {
  }

  /** Elements under the keys "0", "1", …; a string spreads its characters
      as one-character strings. */
  function IndexMap(items: seq<JValue>): (r: map<string, JValue>)
    ensures forall k :: k in r ==> IsIndexKey(k)
    ensures forall i: nat :: i < |items| ==> NatToString(i) in r && r[NatToString(i)] == items[i]
    ensures r.Keys == IndexKeys(|items|)
  {
    if items == [] then map[]
    else
      var n := |items| - 1;
      var prev := IndexMap(items[..n]);
      var r := prev[NatToString(n) := items[n]];
      assert r.Keys == prev.Keys + {NatToString(n)};
      assert prev.Keys == IndexKeys(n) by { assert |items[..n]| == n; }
      assert forall i: nat :: i < n ==> NatToString(i) != NatToString(n) by {
        forall i: nat | i < n ensures NatToString(i) != NatToString(n) {
          if NatToString(i) == NatToString(n) { NatToStringInjective(i, n); }
        }
      }
      r
  }

  /** The keys "0", …, the decimal form of `n - 1`. */
  function IndexKeys(n: nat): set<string> {
    if n == 0 then {} else IndexKeys(n - 1) + {NatToString(n - 1)}
  }

  /** The index keys below `n` are exactly the decimal forms of the numbers
      below `n`. */
  lemma IndexKeysMembers(n: nat, k: string)
    ensures k in IndexKeys(n) <==> exists i: nat :: i < n && k == NatToString(i)
  {
    if k in IndexKeys(n) {
      var i := IndexOfKey(n, k);
    }
    if exists i: nat :: i < n && k == NatToString(i) {
      var i: nat :| i < n && k == NatToString(i);
      KeyOfIndex(n, i);
    }
  }

  lemma {:induction false} KeyOfIndex(n: nat, i: nat)
    requires i < n
    ensures NatToString(i) in IndexKeys(n)
  {
    if i < n - 1 {
      KeyOfIndex(n - 1, i);
    }
  }

  lemma {:induction false} IndexOfKey(n: nat, k: string) returns (i: nat)
    requires k in IndexKeys(n)
    ensures i < n && k == NatToString(i)
  {
    if k == NatToString(n - 1) {
      i := n - 1;
    } else {
      i := IndexOfKey(n - 1, k);
    }
  }

  /** `{...undefined}` is `{}` as well. */
  function SpreadRead(v: Option<JValue>): map<string, JValue> {
    if v.Some? then Spread(v.value) else map[]
  }

  /** `q.blankNumber === blankNumber`, where the edited number is `None` when
      it was `undefined`. Object and array numbers are compared by value
      here, where JavaScript compares references. */
  predicate Matches(q: JValue, n: Option<JValue>) {
    Get(q, "blankNumber") == n
  }

  /** The question a matching `q` is replaced with: its spread with only the
      edited entry changed. An option edit keeps every other field and every
      other option and sets `options[key]`; an answer edit keeps every other
      field and sets `correctAnswer`. */
  function Apply(e: Edit, q: JValue): (r: JValue)
    ensures r.JObj?
    ensures e.SetOption? ==>
              && SameExcept(r.fields, Spread(q), "options")
              && "options" in r.fields && r.fields["options"].JObj?
              && SameExcept(r.fields["options"].fields, SpreadRead(Get(q, "options")), e.key)
              && e.key in r.fields["options"].fields
              && r.fields["options"].fields[e.key] == JStr(e.value)
    ensures e.SetAnswer? ==>
              && SameExcept(r.fields, Spread(q), "correctAnswer")
              && "correctAnswer" in r.fields && r.fields["correctAnswer"] == JStr(e.answer)
  {
    match e
    case SetOption(key, value) =>
      JObj(Spread(q)["options" := JObj(SpreadRead(Get(q, "options"))[key := JStr(value)])])
    case SetAnswer(answer) =>
      JObj(Spread(q)["correctAnswer" := JStr(answer)])
  }

  /** `a` and `b` agree on every key except `k`. */
  predicate SameExcept(a: map<string, JValue>, b: map<string, JValue>, k: string) {
    && (forall f :: f in a && f != k ==> f in b && a[f] == b[f])
    && (forall f :: f in b && f != k ==> f in a)
  }

  /** `prev.questions.map(...)`: each question replaced when it matches,
      kept otherwise; a `null` entry throws. */
  function EditQuestions(qs: seq<JValue>, n: Option<JValue>, e: Edit): (r: Result<seq<JValue>>)
    ensures r.Err? <==> JNull in qs
    ensures r.Err? ==> r.error == JsError(NullQuestionMessage)
    ensures r.Ok? ==> |r.value| == |qs|
    ensures r.Ok? ==> forall i :: 0 <= i < |qs| ==>
              r.value[i] == (if Matches(qs[i], n) then Apply(e, qs[i]) else qs[i])
  {
    if qs == [] then Ok([])
    else if qs[0] == JNull then Err(JsError(NullQuestionMessage))
    else
      var q := if Matches(qs[0], n) then Apply(e, qs[0]) else qs[0];
      match EditQuestions(qs[1..], n, e)
      case Ok(rest) =>
        EditedCons(qs, n, e, q, rest);
        Ok([q] + rest)
      case Err(err) =>
        assert JNull in qs;
        Err(err)
  }

  /** The edited head before the edited tail edits the whole list. */
  lemma EditedCons(qs: seq<JValue>, n: Option<JValue>, e: Edit, q: JValue, rest: seq<JValue>)
    requires qs != [] && q == (if Matches(qs[0], n) then Apply(e, qs[0]) else qs[0])
    requires |rest| == |qs| - 1
    requires forall i :: 0 <= i < |qs| - 1 ==>
               rest[i] == (if Matches(qs[1..][i], n) then Apply(e, qs[1..][i]) else qs[1..][i])
    ensures forall i :: 0 <= i < |qs| ==>
              ([q] + rest)[i] == (if Matches(qs[i], n) then Apply(e, qs[i]) else qs[i])
  {
    forall i | 1 <= i < |qs|
      ensures ([q] + rest)[i] == (if Matches(qs[i], n) then Apply(e, qs[i]) else qs[i])
    {
      assert qs[i] == qs[1..][i - 1];
    }
  }

  /** The state updater both handlers pass to `setClozeTest`: `null` stays
      `null`; otherwise only `questions` is replaced, by a list of the same
      length, and the quiz keeps its shape. */
  function EditQuiz(prev: Option<JValue>, n: Option<JValue>, e: Edit): (r: Result<Option<JValue>>)
    requires prev.Some? ==> Shaped(prev.value)
    ensures prev.None? ==> r == Ok(None)
    ensures prev.Some? ==> (r.Err? <==> JNull in prev.value.fields["questions"].items)
    ensures r.Ok? && prev.Some? ==> r.value.Some? && Shaped(r.value.value)
    ensures r.Ok? && prev.Some? ==>
              && SameExcept(r.value.value.fields, prev.value.fields, "questions")
              && r.value.value.fields["passage"] == prev.value.fields["passage"]
              && |r.value.value.fields["questions"].items| == |prev.value.fields["questions"].items|
    ensures r.Ok? && prev.Some? ==>
              var qs := prev.value.fields["questions"].items;
              var edited := r.value.value.fields["questions"].items;
              forall i :: 0 <= i < |qs| ==>
                edited[i] == (if Matches(qs[i], n) then Apply(e, qs[i]) else qs[i])
  {
    if prev.None? then Ok(None)
    else
      var p := prev.value;
      match EditQuestions(p.fields["questions"].items, n, e)
      case Ok(qs) => Ok(Some(JObj(p.fields["questions" := JArr(qs)])))
      case Err(err) => Err(err)
  }

  /** An edited question differs from the original only in the edited
      entry: for an option edit, every other field and every other option
      key keeps its value and `options[key]` is the new string; for an
      answer edit, only `correctAnswer` changes. */
  lemma ApplyChangesOnlyTarget(e: Edit, q: JValue)
    requires q.JObj?
    ensures e.SetOption? ==>
              && SameExcept(Apply(e, q).fields, q.fields, "options")
              && "options" in Apply(e, q).fields
              && Apply(e, q).fields["options"].JObj?
              && SameExcept(Apply(e, q).fields["options"].fields, SpreadRead(Get(q, "options")), e.key)
              && e.key in Apply(e, q).fields["options"].fields
              && Apply(e, q).fields["options"].fields[e.key] == JStr(e.value)
    ensures e.SetOption? && "options" in q.fields && q.fields["options"].JObj? ==>
              SameExcept(Apply(e, q).fields["options"].fields, q.fields["options"].fields, e.key)
    ensures e.SetAnswer? ==>
              && SameExcept(Apply(e, q).fields, q.fields, "correctAnswer")
              && "correctAnswer" in Apply(e, q).fields
              && Apply(e, q).fields["correctAnswer"] == JStr(e.answer)
  {
  }

  /** An edited question still carries the edited number, so a second edit
      finds it again. */
  lemma ApplyKeepsMatch(e: Edit, q: JValue, n: Option<JValue>)
    requires q != JNull && Matches(q, n)
    ensures Matches(Apply(e, q), n)
  {
    if !q.JObj? {
      assert !IsIndexKey("blankNumber") by { assert !IsDigit("blankNumber"[0]); }
    }
  }

  /** Editing an already edited question changes nothing. */
  lemma ApplyTwice(e: Edit, q: JValue)
    ensures Apply(e, Apply(e, q)) == Apply(e, q)
  {
    var q1 := Apply(e, q);
    match e
    case SetOption(key, value) =>
      var opts := SpreadRead(Get(q, "options"))[key := JStr(value)];
      assert Get(q1, "options") == Some(JObj(opts));
      assert opts[key := JStr(value)] == opts;
      assert q1.fields["options" := JObj(opts)] == q1.fields;
    case SetAnswer(answer) =>
      assert q1.fields["correctAnswer" := JStr(answer)] == q1.fields;
  }

  /** Applying the same edit twice equals applying it once. */
  lemma EditQuizTwice(prev: Option<JValue>, n: Option<JValue>, e: Edit)
    requires prev.Some? ==> Shaped(prev.value)
    requires EditQuiz(prev, n, e).Ok?
    ensures EditQuiz(EditQuiz(prev, n, e).value, n, e) == EditQuiz(prev, n, e)
  {
    if prev.Some? {
      var qs := prev.value.fields["questions"].items;
      var once := EditQuestions(qs, n, e).value;
      assert JNull !in once by {
        forall i | 0 <= i < |once| ensures once[i] != JNull {
        }
      }
      var twice := EditQuestions(once, n, e).value;
      forall i | 0 <= i < |qs| ensures twice[i] == once[i] {
        if Matches(qs[i], n) {
          ApplyKeepsMatch(e, qs[i], n);
          ApplyTwice(e, qs[i]);
        }
      }
      assert twice == once;
      var p1 := EditQuiz(prev, n, e).value.value;
      assert p1.fields["questions" := JArr(once)] == p1.fields;
    }
  }
}

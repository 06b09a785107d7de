/**
 The clickable passage shown in manual mode: the same split as the word
 list, with every word part numbered 0, 1, 2, … as the walk meets it, and
 marked when its number is in the selection.
 */
module Clickable {
  import opened Strings
  import opened Tokenizer

  /** One rendered `<span>`: plain text, or a clickable word with its number
      and whether it is selected. */
  datatype Span = Plain(text: string) | Word(text: string, index: nat, selected: bool)

  /** The span part `i` should become: a word part gets the number of word
      parts before it. */
  function SpanAt(parts: seq<string>, selection: seq<nat>, i: nat): Span
    requires i < |parts|
  {
    if IsWordPart(parts[i]) then
      var n := |WordParts(parts[..i])|;
      Word(parts[i], n, n in selection)
    else Plain(parts[i])
  }

  /** The spans of the first `n` parts. */
  function SpansUpTo(parts: seq<string>, selection: seq<nat>, n: nat): (r: seq<Span>)
    requires n <= |parts|
    ensures |r| == n && forall i :: 0 <= i < n ==> r[i] == SpanAt(parts, selection, i)
  {
    if n == 0 then [] else SpansUpTo(parts, selection, n - 1) + [SpanAt(parts, selection, n - 1)]
  }

  /** Some span carries word number `k`. */
  predicate Numbered(spans: seq<Span>, k: nat) {
    exists i :: 0 <= i < |spans| && spans[i].Word? && spans[i].index == k
  }

  /** `renderClickableText`: the spans of the split of the text, numbered
      as the word list is. */
  method RenderClickable(text: string, selection: seq<nat>) returns (spans: seq<Span>)
    ensures |spans| == |Split(text)|
    ensures forall i :: 0 <= i < |spans| ==> spans[i].text == Split(text)[i]
    ensures forall i :: 0 <= i < |spans| ==> (spans[i].Word? <==> IsWordPart(Split(text)[i]))
    ensures forall i :: 0 <= i < |spans| && spans[i].Word? ==>
              && spans[i].index < |Words(text)|
              && Words(text)[spans[i].index] == spans[i].text
              && (spans[i].selected <==> spans[i].index in selection)
    ensures forall i, j :: 0 <= i < j < |spans| && spans[i].Word? && spans[j].Word?
              ==> spans[i].index < spans[j].index
    ensures forall k: nat :: k < |Words(text)| ==> Numbered(spans, k)
  {
    var parts := Split(text);
    spans := NumberParts(parts, selection);
    SpansFacts(parts, selection, spans);
  }

  /** The walk over the parts with a counter that starts at -1 and is
      incremented before each word part is numbered. */
  method NumberParts(parts: seq<string>, selection: seq<nat>) returns (spans: seq<Span>)
    ensures |spans| == |parts|
    ensures forall i :: 0 <= i < |spans| ==> spans[i] == SpanAt(parts, selection, i)
  {
    var wordIdx := -1;
    spans := [];
    var i := 0;
    while i < |parts|
      invariant 0 <= i <= |parts|
      invariant |spans| == i
      invariant wordIdx + 1 == |WordParts(parts[..i])|
      invariant spans == SpansUpTo(parts, selection, i)
    {
      var part := parts[i];
      SpanAtStep(parts, selection, i);
      if IsWordPart(part) {
        wordIdx := wordIdx + 1;
        spans := spans + [Word(part, wordIdx, wordIdx in selection)];
      } else {
        spans := spans + [Plain(part)];
      }
      i := i + 1;
    }
  }

  /** The span of part `i` and the count of word parts after it. */
  lemma SpanAtStep(parts: seq<string>, selection: seq<nat>, i: nat)
    requires i < |parts|
    ensures var n := |WordParts(parts[..i])|;
            && SpanAt(parts, selection, i) == (if IsWordPart(parts[i]) then Word(parts[i], n, n in selection) else Plain(parts[i]))
            && |WordParts(parts[..i + 1])| == n + (if IsWordPart(parts[i]) then 1 else 0)
  {
    WordPartsSnoc(parts, i);
  }

  /** What the reference numbering promises, for any parts. */
  lemma SpansFacts(parts: seq<string>, selection: seq<nat>, spans: seq<Span>)
    requires |spans| == |parts|
    requires forall i :: 0 <= i < |spans| ==> spans[i] == SpanAt(parts, selection, i)
    ensures forall i :: 0 <= i < |spans| ==> spans[i].text == parts[i]
    ensures forall i :: 0 <= i < |spans| ==> (spans[i].Word? <==> IsWordPart(parts[i]))
    ensures forall i :: 0 <= i < |spans| && spans[i].Word? ==>
              && spans[i].index < |WordParts(parts)|
              && WordParts(parts)[spans[i].index] == spans[i].text
              && (spans[i].selected <==> spans[i].index in selection)
    ensures forall i, j :: 0 <= i < j < |spans| && spans[i].Word? && spans[j].Word?
              ==> spans[i].index < spans[j].index
    ensures forall k: nat :: k < |WordParts(parts)| ==> Numbered(spans, k)
  {
    forall i | 0 <= i < |spans| && spans[i].Word?
      ensures spans[i].index < |WordParts(parts)| && WordParts(parts)[spans[i].index] == spans[i].text
    {
      WordPartsIndex(parts, i);
    }
    forall i, j | 0 <= i < j < |spans| && spans[i].Word? && spans[j].Word?
      ensures spans[i].index < spans[j].index
    {
      WordCountGrows(parts, i, j);
    }
    forall k: nat | k < |WordParts(parts)| ensures Numbered(spans, k) {
      var j := WordNumbered(parts, k);
      assert spans[j].Word? && spans[j].index == k;
    }
  }

  /** A word part before position `j` makes the count before `j` larger
      than the count before it. */
  lemma WordCountGrows(parts: seq<string>, i: nat, j: nat)
    requires i < j <= |parts| && IsWordPart(parts[i])
    ensures |WordParts(parts[..i])| < |WordParts(parts[..j])|
  {
    WordPartsSnoc(parts, i);
    WordPartsPrefix(parts[..j], i + 1);
    assert parts[..j][..i + 1] == parts[..i + 1];
  }

  /** Every word number belongs to some word part. */
  lemma {:induction false} WordNumbered(parts: seq<string>, k: nat) returns (j: nat)
    requires k < |WordParts(parts)|
    ensures j < |parts| && IsWordPart(parts[j]) && |WordParts(parts[..j])| == k
  {
    var n := |parts| - 1;
    var init := parts[..n];
    WordPartsSnoc(parts, n);
    assert parts[..n + 1] == parts;
    if k < |WordParts(init)| {
      j := WordNumbered(init, k);
      assert init[..j] == parts[..j];
    } else {
      j := n;
    }
  }
}

/**
 Word tokenisation of the passage: `text.split(/([^\w'-]+)/)` followed by the
 filter `part.trim() !== '' && part.match(/[a-zA-Z]/)`.

 Because the separator pattern is a greedy character-class run inside a
 capturing group, the split alternates a (possibly empty) run of word
 characters with a maximal non-empty run of separator characters, starting and
 ending with a word-character run.
 */
module Tokenizer {
  import opened Strings

  /** The class `[\w'-]`: ASCII letters, digits, underscore, apostrophe, hyphen. */
  predicate IsWordChar(c: char) {
    IsAsciiLetter(c) || IsDigit(c) || c == '_' || c == '\'' || c == '-'
  }

  predicate AllWordChars(t: string) {
    forall j :: 0 <= j < |t| ==> IsWordChar(t[j])
  }

  predicate AllSeparatorChars(t: string) {
    forall j :: 0 <= j < |t| ==> !IsWordChar(t[j])
  }

  predicate HasLetter(t: string) {
    exists j :: 0 <= j < |t| && IsAsciiLetter(t[j])
  }

  /** The filter applied to every split part:
      `part.trim() !== '' && part.match(/[a-zA-Z]/)`. */
  predicate IsWordPart(p: string) {
    Trim(p) != [] && HasLetter(p)
  }

  /** Length of the longest prefix of `s` whose characters are all word
      characters (`word`) or all separator characters (`!word`). */
  function RunLength(s: string, word: bool): (n: nat)
    ensures n <= |s|
    ensures forall j :: 0 <= j < n ==> IsWordChar(s[j]) == word
    ensures n == |s| || IsWordChar(s[n]) != word
  {
    if s == [] || IsWordChar(s[0]) != word then 0 else 1 + RunLength(s[1..], word)
  }

  /** What the split of a string must look like: a word-character run, then
      zero or more pairs of a non-empty separator run and a word-character
      run, where every word run other than the last is non-empty (so that
      every separator run is maximal). */
  predicate IsSplitShape(p: seq<string>)
    decreases |p|
  {
    && |p| >= 1
    && AllWordChars(p[0])
    && (|p| == 1
        || (&& |p| >= 3
            && p[1] != [] && AllSeparatorChars(p[1])
            && (|p| > 3 ==> p[2] != [])
            && IsSplitShape(p[2..])))
  }

  /** `s.split(/([^\w'-]+)/)`: alternating word and separator runs that
      concatenate back to `s`. */
  function Split(s: string): (r: seq<string>)
    ensures IsSplitShape(r) && Concat(r) == s
    ensures s != [] && IsWordChar(s[0]) ==> r[0] != []
    decreases |s|
  {
    var w := RunLength(s, true);
    if w == |s| then
      assert Concat([s]) == s + Concat([]);
      [s]
    else
      var k := RunLength(s[w..], false);
      var tail := Split(s[w + k..]);
      SplitStep(s, w, k, tail);
      [s[..w], s[w..w + k]] + tail
  }

  /** One step of the split: the leading word run and the separator run
      after it, put in front of the split of the rest. */
  lemma SplitStep(s: string, w: nat, k: nat, tail: seq<string>)
    requires w == RunLength(s, true) < |s|
    requires k == RunLength(s[w..], false)
    requires IsSplitShape(tail) && Concat(tail) == s[w + k..]
    requires w + k < |s| ==> tail[0] != []
    ensures IsSplitShape([s[..w], s[w..w + k]] + tail)
    ensures Concat([s[..w], s[w..w + k]] + tail) == s
  {
    var rest := s[w..];
    RunsAreRuns(s, w, k);
    assert rest[..k] == s[w..w + k] && rest[k..] == s[w + k..];
    ShapeCons(s[..w], s[w..w + k], tail);
    SliceThree(s, w, w + k);
    ConcatCons(s[..w], s[w..w + k], tail);
  }

  lemma RunsAreRuns(s: string, w: nat, k: nat)
    requires w == RunLength(s, true) < |s|
    requires k == RunLength(s[w..], false)
    ensures AllWordChars(s[..w])
    ensures s[w..][..k] != [] && AllSeparatorChars(s[w..][..k])
    ensures k < |s[w..]| ==> IsWordChar(s[w..][k..][0])
  {
    assert !IsWordChar(s[w..][0]);
  }

  lemma ShapeCons(a: string, b: string, tail: seq<string>)
    requires AllWordChars(a) && b != [] && AllSeparatorChars(b)
    requires IsSplitShape(tail) && (|tail| > 1 ==> tail[0] != [])
    ensures IsSplitShape([a, b] + tail)
  {
    assert ([a, b] + tail)[2..] == tail;
  }

  /** The split is the only decomposition of that shape. */
  lemma {:induction false} SplitUnique(p: seq<string>, s: string)
    requires IsSplitShape(p) && Concat(p) == s
    ensures p == Split(s)
    decreases |p|
  {
    if |p| == 1 {
      assert s == p[0] by { assert Concat(p) == p[0] + Concat(p[1..]); }
      assert RunLength(s, true) == |s|;
    } else {
      var tail := p[2..];
      var t := Concat(tail);
      assert p == [p[0], p[1]] + tail;
      ConcatCons(p[0], p[1], tail);
      var rest := p[1] + t;
      assert s == p[0] + rest;
      assert s[|p[0]|] == p[1][0];
      assert RunLength(s, true) == |p[0]|;
      assert s[|p[0]|..] == rest;
      if t != [] {
        assert tail[0] != [] by {
          if |tail| == 1 {
            assert t == tail[0] + Concat(tail[1..]);
            assert tail[1..] == [];
          }
        }
        assert t == tail[0] + Concat(tail[1..]);
        assert rest[|p[1]|] == tail[0][0];
      } else {
        assert rest == p[1];
      }
      assert RunLength(rest, false) == |p[1]|;
      assert rest[|p[1]|..] == t;
      SplitUnique(tail, t);
    }
  }

  /** In a split, a part holding a letter is a run of word characters. */
  lemma {:induction false} LetterPartsAreWordRuns(p: seq<string>)
    requires IsSplitShape(p)
    ensures forall i :: 0 <= i < |p| && HasLetter(p[i]) ==> AllWordChars(p[i])
    decreases |p|
  {
    if |p| > 1 {
      LetterPartsAreWordRuns(p[2..]);
      forall i | 0 <= i < |p| && HasLetter(p[i]) ensures AllWordChars(p[i]) {
        if i >= 2 {
          assert p[i] == p[2..][i - 2];
        }
      }
    }
  }

  /** The word parts among `parts`, in order (the `.filter` of the source). */
  function WordParts(parts: seq<string>): (r: seq<string>)
    ensures |r| <= |parts|
    ensures forall k :: 0 <= k < |r| ==> IsWordPart(r[k]) && r[k] in parts
  {
    if parts == [] then []
    else
      var init := WordParts(parts[..|parts| - 1]);
      var last := parts[|parts| - 1];
      if IsWordPart(last) then init + [last] else init
  }

  /** `wordsInText`: the words of the passage, in order. Every word is a
      part of the split that is a run of word characters holding a letter,
      and every part of the split holding a letter is a word. */
  function Words(s: string): (r: seq<string>)
    ensures forall k :: 0 <= k < |r| ==> r[k] in Split(s) && AllWordChars(r[k]) && HasLetter(r[k])
    ensures forall i :: 0 <= i < |Split(s)| && HasLetter(Split(s)[i]) ==> Split(s)[i] in r
  {
    LetterRunsAreWords(Split(s));
    WordParts(Split(s))
  }

  /** Whitespace carries no letter, so the blank test adds nothing to the
      letter test. */
  lemma WordPartIffLetter(p: string)
    ensures IsWordPart(p) <==> HasLetter(p)
  {
    TrimEmptyIffAllSpace(p);
    if HasLetter(p) {
      var j :| 0 <= j < |p| && IsAsciiLetter(p[j]);
      assert !IsSpace(p[j]);
    }
  }

  /** Every part of a split is a run of word characters or a non-empty run
      of separator characters. */
  lemma {:induction false} PartsAreRuns(p: seq<string>)
    requires IsSplitShape(p)
    ensures forall i :: 0 <= i < |p| ==> AllWordChars(p[i]) || (p[i] != [] && AllSeparatorChars(p[i]))
    decreases |p|
  {
    if |p| > 1 {
      PartsAreRuns(p[2..]);
      forall i | 2 <= i < |p| ensures AllWordChars(p[i]) || (p[i] != [] && AllSeparatorChars(p[i])) {
        assert p[i] == p[2..][i - 2];
      }
    }
  }

  /** Separator parts never hold a letter, so they are never counted as words. */
  lemma SeparatorsAreNotWords(s: string)
    ensures forall i :: 0 <= i < |Split(s)| && !AllWordChars(Split(s)[i])
                      ==> AllSeparatorChars(Split(s)[i]) && !IsWordPart(Split(s)[i])
  {
    var p := Split(s);
    PartsAreRuns(p);
    forall i | 0 <= i < |p| && !AllWordChars(p[i]) ensures AllSeparatorChars(p[i]) && !IsWordPart(p[i]) {
      SeparatorRunIsNotWord(p[i]);
    }
  }

  /** A run of separator characters is never counted as a word. */
  lemma SeparatorRunIsNotWord(t: string)
    requires AllSeparatorChars(t)
    ensures !IsWordPart(t)
  {
    WordPartIffLetter(t);
  }

  /** In a split, the word parts are runs of word characters holding a
      letter, and every part holding a letter is a word part. */
  lemma LetterRunsAreWords(p: seq<string>)
    requires IsSplitShape(p)
    ensures forall k :: 0 <= k < |WordParts(p)| ==> AllWordChars(WordParts(p)[k]) && HasLetter(WordParts(p)[k])
    ensures forall i :: 0 <= i < |p| && HasLetter(p[i]) ==> p[i] in WordParts(p)
  {
    LetterPartsAreWordRuns(p);
    forall k | 0 <= k < |WordParts(p)|
      ensures AllWordChars(WordParts(p)[k]) && HasLetter(WordParts(p)[k])
    {
      WordPartIffLetter(WordParts(p)[k]);
    }
    forall i | 0 <= i < |p| && HasLetter(p[i]) ensures p[i] in WordParts(p) {
      WordPartIffLetter(p[i]);
      WordPartsIndex(p, i);
    }
  }

  /** Adding one part to the end only appends to the word list. */
  lemma WordPartsSnoc(parts: seq<string>, i: nat)
    requires i < |parts|
    ensures WordParts(parts[..i + 1])
         == WordParts(parts[..i]) + (if IsWordPart(parts[i]) then [parts[i]] else [])
  {
    assert parts[..i + 1][..i] == parts[..i];
  }

  /** The word list of a prefix is a prefix of the word list. */
  lemma {:induction false} WordPartsPrefix(parts: seq<string>, i: nat)
    requires i <= |parts|
    ensures WordParts(parts[..i]) <= WordParts(parts)
    decreases |parts| - i
  {
    if i < |parts| {
      var a := WordParts(parts[..i]);
      var b := WordParts(parts[..i + 1]);
      var c := WordParts(parts);
      WordPartsSnoc(parts, i);
      WordPartsPrefix(parts, i + 1);
      assert a <= b && b <= c;
      assert c[..|a|] == b[..|a|];
    } else {
      assert parts[..i] == parts;
    }
  }

  /** The word part at position `i` is word number "count of word parts
      before `i`" — the numbering the clickable view uses. */
  lemma WordPartsIndex(parts: seq<string>, i: nat)
    requires i < |parts| && IsWordPart(parts[i])
    ensures |WordParts(parts[..i])| < |WordParts(parts)|
    ensures WordParts(parts)[|WordParts(parts[..i])|] == parts[i]
  {
    WordPartsSnoc(parts, i);
    WordPartsPrefix(parts, i + 1);
  }

  /** Contractions and hyphenated words stay whole; spaces and punctuation
      are separators. */
  lemma DontStopGo()
    ensures Split("don't stop-go!") == ["don't", " ", "stop-go", "!", ""]
    ensures Words("don't stop-go!") == ["don't", "stop-go"]
  {
    var p: seq<string> := ["don't", " ", "stop-go", "!", ""];
    DontStopGoSplit(p);
    SplitUnique(p, "don't stop-go!");
    DontStopGoWords(p);
  }

  lemma DontStopGoSplit(p: seq<string>)
    requires p == ["don't", " ", "stop-go", "!", ""]
    ensures IsSplitShape(p) && Concat(p) == "don't stop-go!"
  {
    var s1 := "don't";
    var s3 := "stop-go";
    assert AllWordChars(s1) by {
      forall j | 0 <= j < |s1| ensures IsWordChar(s1[j]) {
      }
    }
    assert AllWordChars(s3) by {
      forall j | 0 <= j < |s3| ensures IsWordChar(s3[j]) {
      }
    }
    assert AllSeparatorChars(" ") && AllSeparatorChars("!");
    assert IsSplitShape(p[4..]);
    ShapeCons(s3, "!", p[4..]);
    assert p[2..] == [s3, "!"] + p[4..];
    ShapeCons(s1, " ", p[2..]);
    assert p == [s1, " "] + p[2..];
    ConcatCons(s3, "!", p[4..]);
    ConcatCons(s1, " ", p[2..]);
    assert Concat(p[4..]) == "" + Concat([]);
  }

  lemma DontStopGoWords(p: seq<string>)
    requires p == ["don't", " ", "stop-go", "!", ""]
    ensures WordParts(p) == ["don't", "stop-go"]
  {
    var a, b, c, d, e := p[0], p[1], p[2], p[3], p[4];
    assert a == "don't" && c == "stop-go";
    assert b == " " && d == "!" && e == "";
    LetterPartIsWord(a, 0);
    LetterPartIsWord(c, 0);
    assert AllSeparatorChars(b) && AllSeparatorChars(d) && AllSeparatorChars(e);
    SeparatorRunIsNotWord(b);
    SeparatorRunIsNotWord(d);
    SeparatorRunIsNotWord(e);
    WordPartsOfFive(p);
  }

  lemma WordPartsOfFive(p: seq<string>)
    requires |p| == 5
    requires IsWordPart(p[0]) && !IsWordPart(p[1]) && IsWordPart(p[2])
    requires !IsWordPart(p[3]) && !IsWordPart(p[4])
    ensures WordParts(p) == [p[0], p[2]]
  {
    WordPartsSnoc(p, 0);
    assert WordParts(p[..1]) == [p[0]] by { assert p[..0] == []; }
    WordPartsSnoc(p, 1);
    WordPartsSnoc(p, 2);
    WordPartsSnoc(p, 3);
    WordPartsSnoc(p, 4);
    assert p[..5] == p;
  }

  lemma LetterPartIsWord(t: string, j: nat)
    requires j < |t| && IsAsciiLetter(t[j])
    ensures IsWordPart(t)
  {
    WordPartIffLetter(t);
  }
}

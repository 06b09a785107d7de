/**
 The Word export as data: the paragraphs the document is built from, each
 either plain text (optionally a heading) or a list of text runs that may be
 bold. The document is built from a quiz decoded from the stored JSON value.
 */
module Export {
  import opened Strings
  import opened Json

  /** One question, as the export reads it. The number is an integer-valued
      Number of safe magnitude; options and answer are strings, where an
      absent answer is `None`. */
  datatype Question = Question(blankNumber: int, options: map<string, string>, correctAnswer: Option<string>)

  datatype ClozeTest = ClozeTest(passage: string, questions: seq<Question>)

  datatype Run = Run(text: string, bold: bool)

  datatype Paragraph = TextPara(text: string, heading: bool) | RunsPara(runs: seq<Run>)

  const MaxSafeInteger: int := 9007199254740991

  /** A JSON number the export can print with `${…}` as plain decimal. */
  predicate IsSafeInteger(n: real) {
    n == n.Floor as real && -MaxSafeInteger <= n.Floor <= MaxSafeInteger
  }

  // ---------------------------------------------------------------------
  // Passage: `line.split(/(___\d+___)/g)` with the markers bold.
  // ---------------------------------------------------------------------

  /** `s` starts with a match of `___\d+___` of length `n`. */
  predicate IsMarkerMatch(s: string, n: nat) {
    && 7 <= n <= |s|
    && s[..3] == "___"
    && s[n - 3..n] == "___"
    && forall j :: 3 <= j < n - 3 ==> IsDigit(s[j])
  }

  /** The length of the match of `___\d+___` anchored at the start of `s`,
      or 0 when there is none. */
  function MarkerLength(s: string): (n: nat)
    ensures n == 0 || 7 <= n <= |s|
  {
    if |s| >= 3 && s[..3] == "___" then CloseAfterDigits(s, 3) else 0
  }

  /** The digits of `\d+` run from 3 to `i`; the greedy run goes on while
      digits follow, and the match then needs the closing `___`. Giving
      back digits cannot help, since `_` is no digit. */
  function CloseAfterDigits(s: string, i: nat): (n: nat)
    requires 3 <= i <= |s|
    ensures n == 0 || 7 <= n <= |s|
    decreases |s| - i
  {
    if i < |s| && IsDigit(s[i]) then CloseAfterDigits(s, i + 1)
    else if i > 3 && i + 3 <= |s| && s[i..i + 3] == "___" then i + 3
    else 0
  }

  lemma {:induction false} CloseAfterDigitsMatches(s: string, i: nat)
    requires 3 <= i <= |s| && s[..3] == "___"
    requires forall j :: 3 <= j < i ==> IsDigit(s[j])
    ensures CloseAfterDigits(s, i) == 0 || IsMarkerMatch(s, CloseAfterDigits(s, i))
    decreases |s| - i
  {
    if i < |s| && IsDigit(s[i]) {
      CloseAfterDigitsMatches(s, i + 1);
    }
  }

  lemma {:induction false} CloseAfterDigitsUnique(s: string, i: nat, n: nat)
    requires IsMarkerMatch(s, n) && 3 <= i <= n - 3
    ensures CloseAfterDigits(s, i) == n
    decreases |s| - i
  {
    if i < n - 3 {
      CloseAfterDigitsUnique(s, i + 1, n);
    } else {
      assert s[i] == s[n - 3..n][0];
    }
  }

  /** A non-zero length is the length of a match. */
  lemma MarkerLengthMatches(s: string)
    ensures MarkerLength(s) == 0 || IsMarkerMatch(s, MarkerLength(s))
  {
    if |s| >= 3 && s[..3] == "___" {
      CloseAfterDigitsMatches(s, 3);
    }
  }

  /** An anchored match has one possible length. */
  lemma MarkerMatchUnique(s: string, n: nat)
    requires IsMarkerMatch(s, n)
    ensures MarkerLength(s) == n
  {
    CloseAfterDigitsUnique(s, 3, n);
  }

  /** `part.match(/___\d+___/)`: a match starts somewhere in `part`. */
  predicate ContainsMarker(s: string) {
    ContainsMatch(MarkerLength, s)
  }

  /** The whole part is one marker. */
  predicate IsMarker(s: string) {
    WholeMatch(MarkerLength, s)
  }

  /** A match at the start of a prefix of `u` is a match of `u`, and a match
      of `u` that fits in the prefix is a match of the prefix. */
  lemma MarkerOfPrefix(u: string, m: nat)
    requires m <= |u|
    ensures MarkerLength(u[..m]) > 0 ==> MarkerLength(u) == MarkerLength(u[..m])
    ensures 0 < MarkerLength(u) <= m ==> MarkerLength(u[..m]) == MarkerLength(u)
  {
    var t := u[..m];
    var nt := MarkerLength(t);
    var nu := MarkerLength(u);
    MarkerLengthMatches(t);
    MarkerLengthMatches(u);
    if nt > 0 {
      assert IsMarkerMatch(u, nt) by {
        assert u[..3] == t[..3];
        assert u[nt - 3..nt] == t[nt - 3..nt];
      }
      MarkerMatchUnique(u, nt);
    }
    if 0 < nu <= m {
      assert IsMarkerMatch(t, nu) by {
        assert u[..3] == t[..3];
        assert u[nu - 3..nu] == t[nu - 3..nu];
      }
      MarkerMatchUnique(t, nu);
    }
  }

  // `split` with a capturing pattern, for any pattern given by its anchored
  // match length.

  /** `m(u)` is the length of a prefix of `u`. */
  ghost predicate Bounded(m: string -> nat) {
    forall u {:trigger m(u)} :: m(u) <= |u|
  }

  /** An anchored matcher: `m(u)` is the length of the match at the start of
      `u`, or 0 when there is none. A match that fits in a prefix of `u` is
      the same match in the prefix and in `u`. */
  ghost predicate Matcher(m: string -> nat) {
    && Bounded(m)
    && (forall u, l {:trigger m(u[..l])} :: 0 <= l <= |u| && m(u[..l]) > 0 ==> m(u) == m(u[..l]))
    && (forall u, l {:trigger m(u[..l])} :: 0 <= l <= |u| && 0 < m(u) <= l ==> m(u[..l]) == m(u))
  }

  /** The first position at or after `from` where a match starts, or `|s|`. */
  function FindMatch(m: string -> nat, s: string, from: nat): (j: nat)
    requires from <= |s|
    ensures from <= j <= |s|
    ensures j < |s| ==> m(s[j..]) > 0
    decreases |s| - from
  {
    if from == |s| || m(s[from..]) > 0 then from else FindMatch(m, s, from + 1)
  }

  /** No match starts before the one `FindMatch` finds. */
  lemma {:induction false} FindMatchFirst(m: string -> nat, s: string, from: nat)
    requires from <= |s|
    ensures forall k {:trigger m(s[k..])} :: from <= k < FindMatch(m, s, from) ==> m(s[k..]) == 0
    decreases |s| - from
  {
    if from < |s| && m(s[from..]) == 0 {
      FindMatchFirst(m, s, from + 1);
    }
  }

  /** No match starts anywhere in `s`. */
  predicate NoMatch(m: string -> nat, s: string) {
    forall k {:trigger m(s[k..])} :: 0 <= k < |s| ==> m(s[k..]) == 0
  }

  /** `s.match(pattern)`: a match starts somewhere in `s`. */
  predicate ContainsMatch(m: string -> nat, s: string) {
    exists j {:trigger m(s[j..])} :: 0 <= j < |s| && m(s[j..]) > 0
  }

  /** The whole of `s` is one match. */
  predicate WholeMatch(m: string -> nat, s: string) {
    s != [] && m(s) == |s|
  }

  /** The shape of a split with a capturing group: text, match, text, …,
      match, text. The text pieces hold no match and the others are whole
      matches. */
  predicate Alternates(m: string -> nat, p: seq<string>) {
    && |p| % 2 == 1
    && forall i :: 0 <= i < |p| ==> if i % 2 == 0 then NoMatch(m, p[i]) else WholeMatch(m, p[i])
  }

  /** The result of a split, built front to back: the text before a match,
      the match, and the rest; or the final text. */
  datatype Pieces = Last(text: string) | Piece(text: string, matched: string, rest: Pieces)

  function PiecesSeq(p: Pieces): seq<string> {
    match p
    case Last(t) => [t]
    case Piece(t, mt, r) => [t, mt] + PiecesSeq(r)
  }

  /** `s.slice(from).split(pattern)` for a pattern in a capturing group: the
      text before the first match, the match, then the pieces after it. */
  function SplitWith(m: string -> nat, s: string, from: nat): Pieces
    requires Bounded(m) && from <= |s|
    decreases |s| - from
  {
    var j := FindMatch(m, s, from);
    if j == |s| then Last(s[from..])
    else
      var n := m(s[j..]);
      Piece(s[from..j], s[j..j + n], SplitWith(m, s, j + n))
  }

  /** Text pieces hold no match and match pieces are whole matches. */
  predicate PiecesShape(m: string -> nat, p: Pieces) {
    match p
    case Last(t) => NoMatch(m, t)
    case Piece(t, mt, r) => NoMatch(m, t) && WholeMatch(m, mt) && PiecesShape(m, r)
  }

  /** No match starts inside `t` when `rest` follows it. The match is
      measured on the rest of the line, so one that would run past the end
      of `t` counts too. */
  predicate NoMatchBefore(m: string -> nat, t: string, rest: string) {
    forall k {:trigger m(t[k..] + rest)} :: 0 <= k < |t| ==> m(t[k..] + rest) == 0
  }

  /** Every match is the leftmost one: no match starts in the text before
      it, in the line as it continues. */
  predicate PiecesLeftmost(m: string -> nat, p: Pieces) {
    match p
    case Last(t) => NoMatchBefore(m, t, [])
    case Piece(t, mt, r) => NoMatchBefore(m, t, mt + PiecesConcat(r)) && PiecesLeftmost(m, r)
  }

  function PiecesConcat(p: Pieces): string {
    match p
    case Last(t) => t
    case Piece(t, mt, r) => t + mt + PiecesConcat(r)
  }

  /** The split alternates match-free text with whole matches, takes every
      match at the leftmost position, and concatenates back to the input. */
  lemma {:induction false} SplitWithShape(m: string -> nat, s: string, from: nat)
    requires Matcher(m) && from <= |s|
    ensures SplitShaped(m, s, from)
    decreases |s| - from
  {
    var j := FindMatch(m, s, from);
    if j < |s| {
      SplitWithShape(m, s, j + m(s[j..]));
      SplitWithPieceStep(m, s, from);
    } else {
      SplitWithLastStep(m, s, from);
    }
  }

  /** The split of `s` from `from` is well shaped, leftmost, and gives back
      the rest of `s`. */
  ghost predicate SplitShaped(m: string -> nat, s: string, from: nat)
    requires Bounded(m) && from <= |s|
  {
    GoodPieces(m, SplitWith(m, s, from), s[from..])
  }

  /** `p` is well shaped, leftmost, and concatenates to `t`. */
  ghost predicate GoodPieces(m: string -> nat, p: Pieces, t: string) {
    PiecesShape(m, p) && PiecesLeftmost(m, p) && PiecesConcat(p) == t
  }

  /** A match is found: the text before it and the match itself are good
      pieces, so a good split after the match gives a good split. */
  lemma SplitWithPieceStep(m: string -> nat, s: string, from: nat)
    requires Matcher(m) && from <= |s| && FindMatch(m, s, from) < |s|
    requires SplitShaped(m, s, FindMatch(m, s, from) + m(s[FindMatch(m, s, from)..]))
    ensures SplitShaped(m, s, from)
  {
    var j := FindMatch(m, s, from);
    ShapedStep(m, s, from, j, m(s[j..]));
  }

  /** The search finds a match at `j`: no match starts in the text before
      it, and the match itself is whole. */
  lemma MatchFound(m: string -> nat, s: string, from: nat, j: nat)
    requires Matcher(m) && from <= |s| && j == FindMatch(m, s, from) < |s|
    ensures NoMatch(m, s[from..j]) && WholeMatch(m, s[j..j + m(s[j..])])
    ensures NoMatchBefore(m, s[from..j], s[j..])
  {
    FindMatchFirst(m, s, from);
    FirstMatchPieces(m, s, from, j);
    TextBeforeMatch(m, s, from, j);
  }

  /** A split that finds a match at `j` of length `n` is the text up to it,
      the match, and the split after it. */
  lemma SplitWithPiece(m: string -> nat, s: string, from: nat, j: nat, n: nat)
    requires Bounded(m) && from <= |s| && j == FindMatch(m, s, from) < |s| && n == m(s[j..])
    ensures j + n <= |s|
    ensures SplitWith(m, s, from) == Piece(s[from..j], s[j..j + n], SplitWith(m, s, j + n))
  {
    SplitWithUnfold(m, s, from);
  }

  /** The split at a match is shaped when its tail is. */
  lemma ShapedStep(m: string -> nat, s: string, from: nat, j: nat, n: nat)
    requires Matcher(m) && from <= |s| && j == FindMatch(m, s, from) < |s| && n == m(s[j..])
    requires SplitShaped(m, s, j + n)
    ensures SplitShaped(m, s, from)
  {
    SplitWithPiece(m, s, from, j, n);
    MatchFound(m, s, from, j);
    PiecesStep(m, s, from, j, j + n, SplitWith(m, s, j + n), SplitWith(m, s, from));
  }

  lemma PiecesStep(m: string -> nat, s: string, i: nat, j: nat, k: nat, rest: Pieces, p: Pieces)
    requires i <= j <= k <= |s|
    requires p == Piece(s[i..j], s[j..k], rest)
    requires NoMatch(m, s[i..j])
    requires WholeMatch(m, s[j..k])
    requires NoMatchBefore(m, s[i..j], s[j..])
    requires GoodPieces(m, rest, s[k..])
    ensures GoodPieces(m, p, s[i..])
  {
    SliceThreeFrom(s, i, j, k);
    assert s[j..k] + PiecesConcat(rest) == s[j..];
  }

  /** No match is left: the rest is one good piece. */
  lemma SplitWithLastStep(m: string -> nat, s: string, from: nat)
    requires Bounded(m) && from <= |s| && FindMatch(m, s, from) == |s|
    ensures SplitShaped(m, s, from)
  {
    SplitWithUnfold(m, s, from);
    FindMatchFirst(m, s, from);
    SplitWithNone(m, s, from);
    TextBeforeMatch(m, s, from, |s|);
    assert s[from..|s|] == s[from..] && s[|s|..] == [];
  }

  /** Where no match starts from `i` up to `j`, none starts in `s[i..j]`
      followed by the rest of `s`. */
  lemma TextBeforeMatch(m: string -> nat, s: string, i: nat, j: nat)
    requires i <= j <= |s|
    requires forall k {:trigger m(s[k..])} :: i <= k < j ==> m(s[k..]) == 0
    ensures NoMatchBefore(m, s[i..j], s[j..])
  {
    forall k | 0 <= k < j - i ensures m(s[i..j][k..] + s[j..]) == 0 {
      assert s[i..j][k..] + s[j..] == s[i + k..];
    }
  }

  lemma SplitWithUnfold(m: string -> nat, s: string, from: nat)
    requires Bounded(m) && from <= |s|
    ensures FindMatch(m, s, from) == |s| ==> SplitWith(m, s, from) == Last(s[from..])
    ensures FindMatch(m, s, from) < |s| ==>
            var j := FindMatch(m, s, from);
            var n := m(s[j..]);
            SplitWith(m, s, from) == Piece(s[from..j], s[j..j + n], SplitWith(m, s, j + n))
  {
  }

  /** The search stops at the first position where a match starts. */
  lemma {:induction false} FindMatchIs(m: string -> nat, s: string, from: nat, j: nat)
    requires from <= j <= |s| && (j < |s| ==> m(s[j..]) > 0)
    requires forall k {:trigger m(s[k..])} :: from <= k < j ==> m(s[k..]) == 0
    ensures FindMatch(m, s, from) == j
    decreases j - from
  {
    if from < j {
      FindMatchIs(m, s, from + 1, j);
    }
  }

  /** Leftmost pieces that concatenate to the rest of `s` are the split of
      `s`: the split is the only leftmost decomposition. */
  lemma {:induction false} PiecesUnique(m: string -> nat, s: string, from: nat, p: Pieces)
    requires Matcher(m) && from <= |s|
    requires PiecesShape(m, p) && PiecesLeftmost(m, p) && PiecesConcat(p) == s[from..]
    ensures p == SplitWith(m, s, from)
    decreases p
  {
    match p
    case Last(t) =>
      LastIsFound(m, s, from, t);
      SplitWithUnfold(m, s, from);
    case Piece(t, mt, r) =>
      PieceIsFound(m, s, from, t, mt, PiecesConcat(r));
      PiecesUnique(m, s, from + |t| + |mt|, r);
      PieceIsSplit(m, s, from, t, mt, r);
  }

  lemma PieceIsSplit(m: string -> nat, s: string, from: nat, t: string, mt: string, r: Pieces)
    requires Bounded(m) && from + |t| < |s|
    requires FindMatch(m, s, from) == from + |t| && m(s[from + |t|..]) == |mt|
    requires s[from..from + |t|] == t && s[from + |t|..from + |t| + |mt|] == mt
    requires r == SplitWith(m, s, from + |t| + |mt|)
    ensures Piece(t, mt, r) == SplitWith(m, s, from)
  {
    SplitWithUnfold(m, s, from);
  }

  lemma LastIsFound(m: string -> nat, s: string, from: nat, t: string)
    requires from <= |s| && t == s[from..] && NoMatchBefore(m, t, [])
    ensures FindMatch(m, s, from) == |s|
  {
    forall k | from <= k < |s| ensures m(s[k..]) == 0 {
      assert t[k - from..] + [] == s[k..];
    }
    FindMatchIs(m, s, from, |s|);
  }

  lemma PieceIsFound(m: string -> nat, s: string, from: nat, t: string, mt: string, rest: string)
    requires Matcher(m) && from <= |s| && s[from..] == t + mt + rest
    requires WholeMatch(m, mt) && NoMatchBefore(m, t, mt + rest)
    ensures var j := from + |t|;
            && j < |s| && FindMatch(m, s, from) == j && m(s[j..]) == |mt|
            && s[from..j] == t && s[j..j + |mt|] == mt && s[j + |mt|..] == rest
  {
    var j := from + |t|;
    var u := s[j..];
    assert u == mt + rest;
    assert u[..|mt|] == mt;
    assert m(u) == |mt|;
    forall k | from <= k < j ensures m(s[k..]) == 0 {
      assert t[k - from..] + (mt + rest) == s[k..];
    }
    FindMatchIs(m, s, from, j);
    assert s[from..j] == s[from..][..|t|];
    assert s[j..j + |mt|] == u[..|mt|];
  }

  /** The sequence of pieces alternates, is leftmost and concatenates like
      the pieces. */
  lemma {:induction false} PiecesSeqShape(m: string -> nat, p: Pieces)
    requires PiecesShape(m, p) && PiecesLeftmost(m, p)
    ensures Alternates(m, PiecesSeq(p)) && LeftmostSplit(m, PiecesSeq(p))
    ensures Concat(PiecesSeq(p)) == PiecesConcat(p)
  {
    match p
    case Last(t) =>
      assert Concat([t]) == t + Concat([]);
      assert [t][1..] == [];
    case Piece(t, mt, r) =>
      PiecesSeqShape(m, r);
      AlternatesCons(m, t, mt, PiecesSeq(r));
      ConcatCons(t, mt, PiecesSeq(r));
      LeftmostCons(m, t, mt, PiecesSeq(r));
  }

  /** A list of pieces, text and matches alternating, where every match is
      the leftmost one in the line as it continues. */
  predicate LeftmostSplit(m: string -> nat, p: seq<string>) {
    && Alternates(m, p)
    && forall i :: 0 <= i < |p| && i % 2 == 0 ==> NoMatchBefore(m, p[i], Concat(p[i + 1..]))
  }

  lemma LeftmostCons(m: string -> nat, a: string, b: string, rest: seq<string>)
    requires NoMatch(m, a) && WholeMatch(m, b) && LeftmostSplit(m, rest)
    requires NoMatchBefore(m, a, b + Concat(rest))
    ensures LeftmostSplit(m, [a, b] + rest)
  {
    var p := [a, b] + rest;
    AlternatesCons(m, a, b, rest);
    ConcatCons(a, b, rest);
    assert p[1..] == [b] + rest && ([b] + rest)[1..] == rest;
    assert Concat(p[1..]) == b + Concat(rest);
    LeftmostConsTail(m, p, rest);
  }

  lemma LeftmostConsTail(m: string -> nat, p: seq<string>, rest: seq<string>)
    requires |p| >= 2 && p[2..] == rest && LeftmostSplit(m, rest)
    ensures forall i :: 2 <= i < |p| && i % 2 == 0 ==> NoMatchBefore(m, p[i], Concat(p[i + 1..]))
  {
    forall i | 2 <= i < |p| && i % 2 == 0 ensures NoMatchBefore(m, p[i], Concat(p[i + 1..])) {
      assert p[i] == rest[i - 2] && p[i + 1..] == rest[i - 1..];
    }
  }

  /** The pieces a list of odd length stands for. */
  function ToPieces(p: seq<string>): Pieces
    requires |p| % 2 == 1
    decreases |p|
  {
    if |p| == 1 then Last(p[0]) else Piece(p[0], p[1], ToPieces(p[2..]))
  }

  lemma {:induction false} ToPiecesFacts(m: string -> nat, p: seq<string>)
    requires LeftmostSplit(m, p)
    ensures PiecesSeq(ToPieces(p)) == p && PiecesConcat(ToPieces(p)) == Concat(p)
    ensures PiecesShape(m, ToPieces(p)) && PiecesLeftmost(m, ToPieces(p))
    decreases |p|
  {
    if |p| == 1 {
      assert p == [p[0]] && p[1..] == [];
      assert Concat(p) == p[0] + Concat([]);
    } else {
      var rest := p[2..];
      LeftmostTail(m, p);
      ToPiecesFacts(m, rest);
      assert p == [p[0], p[1]] + rest;
      ConcatCons(p[0], p[1], rest);
    }
  }

  lemma LeftmostTail(m: string -> nat, p: seq<string>)
    requires LeftmostSplit(m, p) && |p| > 1
    ensures LeftmostSplit(m, p[2..])
    ensures NoMatch(m, p[0]) && WholeMatch(m, p[1]) && NoMatchBefore(m, p[0], p[1] + Concat(p[2..]))
  {
    var rest := p[2..];
    forall i | 0 <= i < |rest| ensures if i % 2 == 0 then NoMatch(m, rest[i]) else WholeMatch(m, rest[i]) {
      assert rest[i] == p[i + 2];
    }
    forall i | 0 <= i < |rest| && i % 2 == 0 ensures NoMatchBefore(m, rest[i], Concat(rest[i + 1..])) {
      assert rest[i] == p[i + 2] && rest[i + 1..] == p[i + 3..];
    }
    assert p[1..] == [p[1]] + rest && ([p[1]] + rest)[1..] == rest;
  }

  /** A rest without matches is one piece. */
  lemma SplitWithNone(m: string -> nat, s: string, from: nat)
    requires from <= |s|
    requires forall k {:trigger m(s[k..])} :: from <= k < |s| ==> m(s[k..]) == 0
    ensures NoMatch(m, s[from..])
  {
    forall k | 0 <= k < |s[from..]| ensures m(s[from..][k..]) == 0 {
      assert s[from..][k..] == s[from + k..];
    }
  }

  lemma AlternatesCons(m: string -> nat, a: string, b: string, rest: seq<string>)
    requires NoMatch(m, a) && WholeMatch(m, b) && Alternates(m, rest)
    ensures Alternates(m, [a, b] + rest)
  {
    var p := [a, b] + rest;
    forall i | 2 <= i < |p| ensures if i % 2 == 0 then NoMatch(m, p[i]) else WholeMatch(m, p[i]) {
      assert p[i] == rest[i - 2];
    }
  }

  /** Before the first match there is no match, and the first match, cut
      out, is a whole match on its own. */
  lemma FirstMatchPieces(m: string -> nat, s: string, from: nat, j: nat)
    requires Matcher(m)
    requires from <= j < |s| && m(s[j..]) > 0
    requires forall k {:trigger m(s[k..])} :: from <= k < j ==> m(s[k..]) == 0
    ensures NoMatch(m, s[from..j])
    ensures WholeMatch(m, s[j..j + m(s[j..])])
  {
    forall k | 0 <= k < j - from ensures m(s[from..j][k..]) == 0 {
      var u := s[from + k..];
      assert s[from..j][k..] == u[..j - from - k];
    }
    var n := m(s[j..]);
    assert s[j..j + n] == s[j..][..n];
  }

  /** In a split, a piece contains a match exactly when it is a whole
      match. */
  lemma ContainsIffWhole(m: string -> nat, p: seq<string>)
    requires Alternates(m, p)
    ensures forall i :: 0 <= i < |p| ==> (ContainsMatch(m, p[i]) <==> WholeMatch(m, p[i]))
  {
    forall i | 0 <= i < |p| ensures ContainsMatch(m, p[i]) <==> WholeMatch(m, p[i]) {
      if p[i] != [] {
        assert p[i][0..] == p[i];
      }
    }
  }

  // The markers.

  /** `MarkerLength` is an anchored matcher. */
  lemma MarkerMatcher()
    ensures Matcher(MarkerLength)
  {
    forall u: string, l | 0 <= l <= |u| ensures MarkerLength(u[..l]) > 0 ==> MarkerLength(u) == MarkerLength(u[..l]) {
      MarkerOfPrefix(u, l);
    }
    forall u: string, l | 0 <= l <= |u| ensures 0 < MarkerLength(u) <= l ==> MarkerLength(u[..l]) == MarkerLength(u) {
      MarkerOfPrefix(u, l);
    }
  }

  /** `line.split(/(___\d+___)/g)`: text without markers and whole markers
      alternate, every marker is taken at the leftmost position, and the
      pieces concatenate back to the line. */
  function SplitMarkers(line: string): (r: seq<string>)
    ensures LeftmostSplit(MarkerLength, r) && Concat(r) == line
  {
    MarkerMatcher();
    SplitWithShape(MarkerLength, line, 0);
    PiecesSeqShape(MarkerLength, SplitWith(MarkerLength, line, 0));
    assert line[0..] == line;
    PiecesSeq(SplitWith(MarkerLength, line, 0))
  }

  /** Any leftmost split of a line into text and markers is the split. */
  lemma SplitMarkersUnique(line: string, p: seq<string>)
    requires LeftmostSplit(MarkerLength, p) && Concat(p) == line
    ensures p == SplitMarkers(line)
  {
    MarkerMatcher();
    ToPiecesFacts(MarkerLength, p);
    assert line[0..] == line;
    PiecesUnique(MarkerLength, line, 0, ToPieces(p));
  }

  /** The source makes a segment bold when `/___\d+___/` matches anywhere in
      it; in a split that is exactly when the segment is a marker. */
  lemma BoldIffMarker(line: string)
    ensures forall i :: 0 <= i < |SplitMarkers(line)| ==>
              (ContainsMarker(SplitMarkers(line)[i]) <==> IsMarker(SplitMarkers(line)[i]))
  {
    ContainsIffWhole(MarkerLength, SplitMarkers(line));
  }

  function MarkerRuns(parts: seq<string>): (r: seq<Run>)
    ensures |r| == |parts|
    ensures forall i :: 0 <= i < |parts| ==> r[i] == Run(parts[i], ContainsMarker(parts[i]))
  {
    if parts == [] then [] else [Run(parts[0], ContainsMarker(parts[0]))] + MarkerRuns(parts[1..])
  }

  /** The runs of one passage line: their texts are the pieces of the line
      and concatenate back to it, and a run is bold exactly when its text is
      a whole `___N___` marker. */
  function LineRuns(line: string): (r: seq<Run>)
    ensures RunTexts(r) == SplitMarkers(line) && Concat(RunTexts(r)) == line
    ensures forall i :: 0 <= i < |r| ==> (r[i].bold <==> IsMarker(r[i].text))
  {
    var parts := SplitMarkers(line);
    BoldIffMarker(line);
    var r := MarkerRuns(parts);
    assert RunTexts(r) == parts;
    r
  }

  function RunTexts(runs: seq<Run>): (r: seq<string>)
    ensures |r| == |runs| && forall i :: 0 <= i < |runs| ==> r[i] == runs[i].text
  {
    if runs == [] then [] else [runs[0].text] + RunTexts(runs[1..])
  }

  /** `passage.split('\n').map(...)`: one run paragraph per line. */
  function PassageParagraphs(passage: string): (r: seq<Paragraph>)
    ensures |r| == |SplitOn(passage, '\n')|
    ensures forall i :: 0 <= i < |r| ==> r[i] == RunsPara(LineRuns(SplitOn(passage, '\n')[i]))
  {
    LinesParagraphs(SplitOn(passage, '\n'))
  }

  function LinesParagraphs(lines: seq<string>): (r: seq<Paragraph>)
    ensures |r| == |lines|
    ensures forall i :: 0 <= i < |r| ==> r[i] == RunsPara(LineRuns(lines[i]))
  {
    if lines == [] then [] else [RunsPara(LineRuns(lines[0]))] + LinesParagraphs(lines[1..])
  }

  // ---------------------------------------------------------------------
  // Questions: `questions.sort((a, b) => a.blankNumber - b.blankNumber)`.
  // ---------------------------------------------------------------------

  predicate Sorted(qs: seq<Question>) {
    forall i, j :: 0 <= i < j < |qs| ==> qs[i].blankNumber <= qs[j].blankNumber
  }

  /** The questions numbered `k`, in order. */
  function WithNumber(qs: seq<Question>, k: int): (r: seq<Question>)
    ensures |r| <= |qs|
  {
    if qs == [] then []
    else if qs[0].blankNumber == k then [qs[0]] + WithNumber(qs[1..], k)
    else WithNumber(qs[1..], k)
  }

  /** Puts `x` before the first question whose number is not smaller. */
  function Insert(x: Question, s: seq<Question>): (r: seq<Question>)
    ensures multiset(r) == multiset(s) + multiset{x}
  {
    if s == [] || x.blankNumber <= s[0].blankNumber then [x] + s
    else
      assert s == [s[0]] + s[1..];
      [s[0]] + Insert(x, s[1..])
  }

  /** No number below `b` comes out of inserting into numbers at least `b`. */
  lemma {:induction false} InsertLowerBound(x: Question, s: seq<Question>, b: int)
    requires x.blankNumber >= b
    requires forall i :: 0 <= i < |s| ==> s[i].blankNumber >= b
    ensures forall i :: 0 <= i < |Insert(x, s)| ==> Insert(x, s)[i].blankNumber >= b
  {
    if s != [] && x.blankNumber > s[0].blankNumber {
      InsertLowerBound(x, s[1..], b);
    }
  }

  lemma {:induction false} InsertSorted(x: Question, s: seq<Question>)
    requires Sorted(s)
    ensures Sorted(Insert(x, s))
  {
    if s != [] && x.blankNumber > s[0].blankNumber {
      var rest := Insert(x, s[1..]);
      InsertSorted(x, s[1..]);
      InsertLowerBound(x, s[1..], s[0].blankNumber);
      var r := [s[0]] + rest;
      assert forall j :: 1 <= j < |r| ==> r[j] == rest[j - 1];
    }
  }

  /** A stable sort by `blankNumber`, as `Array.prototype.sort` is. */
  function SortByNumber(qs: seq<Question>): (r: seq<Question>)
    ensures Sorted(r)
    ensures multiset(r) == multiset(qs)
  {
    if qs == [] then []
    else
      assert qs == [qs[0]] + qs[1..];
      InsertSorted(qs[0], SortByNumber(qs[1..]));
      Insert(qs[0], SortByNumber(qs[1..]))
  }

  lemma {:induction false} InsertWithNumber(x: Question, s: seq<Question>, k: int)
    ensures WithNumber(Insert(x, s), k) == WithNumber([x] + s, k)
  {
    if s == [] || x.blankNumber <= s[0].blankNumber {
    } else {
      InsertWithNumber(x, s[1..], k);
      assert ([s[0]] + Insert(x, s[1..]))[1..] == Insert(x, s[1..]);
      assert ([x] + s)[1..] == s;
      assert ([x] + s[1..])[1..] == s[1..];
    }
  }

  /** Questions sharing a number keep their relative order. */
  lemma {:induction false} SortIsStable(qs: seq<Question>, k: int)
    ensures WithNumber(SortByNumber(qs), k) == WithNumber(qs, k)
  {
    if qs != [] {
      SortIsStable(qs[1..], k);
      InsertWithNumber(qs[0], SortByNumber(qs[1..]), k);
      assert ([qs[0]] + SortByNumber(qs[1..]))[1..] == SortByNumber(qs[1..]);
    }
  }

  /** A question numbered `k` is present when the questions numbered `k`
      are not none. */
  lemma {:induction false} WithNumberWitness(s: seq<Question>, k: int)
    requires WithNumber(s, k) != []
    ensures exists i :: 0 <= i < |s| && s[i].blankNumber == k
  {
    if s[0].blankNumber != k {
      WithNumberWitness(s[1..], k);
      var i :| 0 <= i < |s[1..]| && s[1..][i].blankNumber == k;
      assert s[i + 1] == s[1..][i];
    }
  }

  lemma HeadCounted(s: seq<Question>)
    requires s != []
    ensures WithNumber(s, s[0].blankNumber) != []
  {
  }

  /** Two sorted lists holding, number by number, the same questions in the
      same order are equal. */
  lemma {:induction false} SortedStableEqual(a: seq<Question>, b: seq<Question>)
    requires Sorted(a) && Sorted(b)
    requires forall k :: WithNumber(a, k) == WithNumber(b, k)
    ensures a == b
    decreases |a| + |b|
  {
    if a == [] || b == [] {
      if a != [] { HeadCounted(a); }
      if b != [] { HeadCounted(b); }
    } else {
      var m, n := a[0].blankNumber, b[0].blankNumber;
      assert WithNumber(a, n) != [];
      WithNumberWitness(a, n);
      assert WithNumber(b, m) != [];
      WithNumberWitness(b, m);
      assert m == n;
      assert a[0] == WithNumber(a, m)[0] == WithNumber(b, m)[0] == b[0];
      forall k ensures WithNumber(a[1..], k) == WithNumber(b[1..], k) {
        var wa, wb := WithNumber(a, k), WithNumber(b, k);
        assert wa == wb;
        if k == m {
          assert WithNumber(a[1..], k) == wa[1..];
          assert WithNumber(b[1..], k) == wb[1..];
        }
      }
      SortedStableEqual(a[1..], b[1..]);
      assert a == [a[0]] + a[1..] && b == [b[0]] + b[1..];
    }
  }

  /** Any sorted rearrangement that keeps questions with equal numbers in
      their original order — what a stable `sort` with this comparator
      returns — is `SortByNumber`. */
  lemma StableSortIsSortByNumber(qs: seq<Question>, r: seq<Question>)
    requires Sorted(r)
    requires forall k :: WithNumber(r, k) == WithNumber(qs, k)
    ensures r == SortByNumber(qs)
  {
    forall k ensures WithNumber(r, k) == WithNumber(SortByNumber(qs), k) {
      SortIsStable(qs, k);
    }
    SortedStableEqual(r, SortByNumber(qs));
  }

  // ---------------------------------------------------------------------
  // Question paragraphs and answer key.
  // ---------------------------------------------------------------------

  const OptionKeys: seq<string> := ["A", "B", "C", "D"]

  /** `${x}` for a string or `undefined`. */
  function Show(x: Option<string>): string {
    if x.Some? then x.value else "undefined"
  }

  /** `q.options[key]`. */
  function OptionOf(q: Question, key: string): Option<string> {
    if key in q.options then Some(q.options[key]) else None
  }

  /** The six paragraphs of one question: its number in bold, the four
      options indented, an empty spacer. */
  function QuestionBlock(q: Question): (r: seq<Paragraph>)
    ensures |r| == 6
  {
    [ RunsPara([Run(IntToString(q.blankNumber) + ". ", true)]),
      TextPara("   A. " + Show(OptionOf(q, "A")), false),
      TextPara("   B. " + Show(OptionOf(q, "B")), false),
      TextPara("   C. " + Show(OptionOf(q, "C")), false),
      TextPara("   D. " + Show(OptionOf(q, "D")), false),
      TextPara("", false) ]
  }

  /** Concatenation of blocks (`flatMap` after `map`). */
  function Flatten<T>(bs: seq<seq<T>>): seq<T> {
    if bs == [] then [] else bs[0] + Flatten(bs[1..])
  }

  /** Blocks of six lay out back to back: block `i` at `6i`. */
  lemma {:induction false} FlattenSixes<T>(bs: seq<seq<T>>)
    requires forall k :: 0 <= k < |bs| ==> |bs[k]| == 6
    ensures |Flatten(bs)| == 6 * |bs|
    ensures forall i :: 0 <= i < |bs| ==> Flatten(bs)[6 * i..6 * i + 6] == bs[i]
  {
    if bs != [] {
      var t := Flatten(bs[1..]);
      FlattenSixes(bs[1..]);
      var r := Flatten(bs);
      assert r == bs[0] + t;
      assert r[..6] == bs[0];
      forall i | 1 <= i < |bs| ensures r[6 * i..6 * i + 6] == bs[i] {
        var j := i - 1;
        assert r[6 * j + 6..6 * j + 12] == t[6 * j..6 * j + 6];
        assert bs[1..][j] == bs[i];
      }
    }
  }

  function Blocks(qs: seq<Question>): (r: seq<seq<Paragraph>>)
    ensures |r| == |qs| && forall i :: 0 <= i < |qs| ==> r[i] == QuestionBlock(qs[i])
  {
    seq(|qs|, i requires 0 <= i < |qs| => QuestionBlock(qs[i]))
  }

  /** `questions.flatMap(...)`: six paragraphs per question, question `i`
      at paragraphs `6i` to `6i + 5`. */
  function QuestionParagraphs(qs: seq<Question>): (r: seq<Paragraph>)
    ensures |r| == 6 * |qs|
    ensures forall i :: 0 <= i < |qs| ==> r[6 * i..6 * i + 6] == QuestionBlock(qs[i])
  {
    FlattenSixes(Blocks(qs));
    Flatten(Blocks(qs))
  }

  /** `${q.blankNumber}.${q.correctAnswer}` */
  function AnswerEntry(q: Question): string {
    IntToString(q.blankNumber) + "." + Show(q.correctAnswer)
  }

  function AnswerEntries(qs: seq<Question>): (r: seq<string>)
    ensures |r| == |qs|
    ensures forall i :: 0 <= i < |qs| ==> r[i] == AnswerEntry(qs[i])
  {
    if qs == [] then [] else [AnswerEntry(qs[0])] + AnswerEntries(qs[1..])
  }

  /** The answer key line: the entries in number order, two spaces apart.
      It opens with the entry of a lowest-numbered question and closes with
      the entry of a highest-numbered one. */
  function AnswerKey(qs: seq<Question>): (r: string)
    ensures qs == [] ==> r == []
    ensures |qs| == 1 ==> r == AnswerEntry(qs[0])
    ensures qs != [] ==> LowestFirst(qs, r)
    ensures exists sorted :: SortedArrangement(sorted, qs) && r == Join(AnswerEntries(sorted), "  ")
  {
    var entries := AnswerEntries(SortByNumber(qs));
    SortArranges(qs);
    if qs != [] then
      KeyEnds(qs, SortByNumber(qs), entries);
      Join(entries, "  ")
    else
      Join(entries, "  ")
  }

  lemma SortArranges(qs: seq<Question>)
    ensures SortedArrangement(SortByNumber(qs), qs)
  {
    forall k ensures WithNumber(SortByNumber(qs), k) == WithNumber(qs, k) {
      SortIsStable(qs, k);
    }
  }

  /** The key opens with the entry of a question whose number is least. */
  ghost predicate LowestFirst(qs: seq<Question>, key: string) {
    exists q {:trigger Lowest(q, qs)} :: Lowest(q, qs) && AnswerEntry(q) <= key
  }

  /** `sorted` holds the questions of `qs`, each as often, in number order,
      and questions sharing a number keep their order in `qs`, as a stable
      `sort` leaves them. */
  ghost predicate SortedArrangement(sorted: seq<Question>, qs: seq<Question>) {
    && Sorted(sorted)
    && multiset(sorted) == multiset(qs)
    && forall k :: WithNumber(sorted, k) == WithNumber(qs, k)
  }

  /** There is one sorted arrangement, so the key is fixed by its questions. */
  lemma SortedArrangementUnique(sorted: seq<Question>, qs: seq<Question>)
    requires SortedArrangement(sorted, qs)
    ensures sorted == SortByNumber(qs)
  {
    StableSortIsSortByNumber(qs, sorted);
  }

  predicate Lowest(q: Question, qs: seq<Question>) {
    q in qs && forall x :: x in qs ==> q.blankNumber <= x.blankNumber
  }

  lemma KeyEnds(qs: seq<Question>, sorted: seq<Question>, entries: seq<string>)
    requires qs != [] && sorted == SortByNumber(qs) && entries == AnswerEntries(sorted)
    ensures |qs| == 1 ==> Join(entries, "  ") == AnswerEntry(qs[0])
    ensures LowestFirst(qs, Join(entries, "  "))
  {
    SortedLength(qs);
    SortedBounds(qs, sorted);
    JoinPrefix(entries, "  ");
    KeyFirst(qs, sorted, entries, Join(entries, "  "));
    if |qs| == 1 {
      assert qs == [sorted[0]];
    }
  }

  lemma KeyFirst(qs: seq<Question>, sorted: seq<Question>, entries: seq<string>, key: string)
    requires |sorted| == |qs| > 0 && entries == AnswerEntries(sorted)
    requires Lowest(sorted[0], qs) && entries[0] <= key
    ensures LowestFirst(qs, key)
  {
    assert entries[0] == AnswerEntry(sorted[0]);
  }

  /** A sorted rearrangement starts with a least element. */
  lemma SortedBounds(qs: seq<Question>, sorted: seq<Question>)
    requires Sorted(sorted) && multiset(sorted) == multiset(qs) && |sorted| == |qs| > 0
    ensures Lowest(sorted[0], qs)
  {
    assert sorted[0] in multiset(sorted);
    forall x | x in qs ensures sorted[0].blankNumber <= x.blankNumber {
      assert x in multiset(qs);
      var k :| 0 <= k < |sorted| && sorted[k] == x;
    }
  }

  // ---------------------------------------------------------------------
  // The document.
  // ---------------------------------------------------------------------

  const PassageHeading: string := "完形填空"
  const QuestionsHeading: string := "选择题"
  const AnswersHeading: string := "答案"

  /** The paragraphs of the exported document: the passage heading, one
      paragraph per passage line, the questions heading, the question
      paragraphs in number order, the answers heading and the key. */
  function Document(ct: ClozeTest): (doc: seq<Paragraph>)
    ensures var pp := PassageParagraphs(ct.passage);
            var qp := QuestionParagraphs(SortByNumber(ct.questions));
            && |doc| == |pp| + |qp| + 4
            && doc[0] == TextPara(PassageHeading, true)
            && doc[1..1 + |pp|] == pp
            && doc[1 + |pp|] == TextPara(QuestionsHeading, true)
            && doc[2 + |pp|..2 + |pp| + |qp|] == qp
            && doc[|doc| - 2] == TextPara(AnswersHeading, true)
            && doc[|doc| - 1] == TextPara(AnswerKey(ct.questions), false)
  {
    var pp := PassageParagraphs(ct.passage);
    var qp := QuestionParagraphs(SortByNumber(ct.questions));
    var h1, h2, h3 := TextPara(PassageHeading, true), TextPara(QuestionsHeading, true), TextPara(AnswersHeading, true);
    var last := TextPara(AnswerKey(ct.questions), false);
    SectionsLayout(h1, pp, h2, qp, h3, last);
    [h1] + pp + [h2] + qp + [h3, last]
  }

  lemma SectionsLayout<T>(h1: T, pp: seq<T>, h2: T, qp: seq<T>, h3: T, last: T)
    ensures var doc := [h1] + pp + [h2] + qp + [h3, last];
            && |doc| == |pp| + |qp| + 4
            && doc[0] == h1 && doc[1..1 + |pp|] == pp && doc[1 + |pp|] == h2
            && doc[2 + |pp|..2 + |pp| + |qp|] == qp
            && doc[|doc| - 2] == h3 && doc[|doc| - 1] == last
  {
  }

  /** Sorting keeps the number of questions. */
  lemma SortedLength(qs: seq<Question>)
    ensures |SortByNumber(qs)| == |qs|
  {
    assert |multiset(SortByNumber(qs))| == |multiset(qs)|;
  }

  /** Numbers 3, 1, 2 with answers C, A, B give the key "1.A  2.B  3.C". */
  lemma AnswerKeyExample(opts: map<string, string>)
    ensures AnswerKey([Question(3, opts, Some("C")), Question(1, opts, Some("A")), Question(2, opts, Some("B"))])
         == "1.A  2.B  3.C"
  {
    var q3, q1, q2 := Question(3, opts, Some("C")), Question(1, opts, Some("A")), Question(2, opts, Some("B"));
    SortExample(q3, q1, q2);
    EntriesExample(q1, q2, q3);
    JoinExample(["1.A", "2.B", "3.C"]);
  }

  lemma SortExample(q3: Question, q1: Question, q2: Question)
    requires q1.blankNumber == 1 && q2.blankNumber == 2 && q3.blankNumber == 3
    ensures SortByNumber([q3, q1, q2]) == [q1, q2, q3]
  {
    SortTwoExample(q1, q2);
    assert [q3, q1, q2][1..] == [q1, q2];
    InsertExample(q3, q1, q2);
  }

  lemma SortTwoExample(q1: Question, q2: Question)
    requires q1.blankNumber == 1 && q2.blankNumber == 2
    ensures SortByNumber([q1, q2]) == [q1, q2]
  {
    assert [q1, q2][1..] == [q2];
    assert [q2][1..] == [];
    assert SortByNumber([q2]) == [q2];
  }

  lemma InsertExample(q3: Question, q1: Question, q2: Question)
    requires q1.blankNumber == 1 && q2.blankNumber == 2 && q3.blankNumber == 3
    ensures Insert(q3, [q1, q2]) == [q1, q2, q3]
  {
    assert [q1, q2][1..] == [q2];
    assert [q2][1..] == [];
    assert Insert(q3, [q2]) == [q2, q3];
  }

  lemma EntriesExample(q1: Question, q2: Question, q3: Question)
    requires q1.blankNumber == 1 && q2.blankNumber == 2 && q3.blankNumber == 3
    requires q1.correctAnswer == Some("A") && q2.correctAnswer == Some("B") && q3.correctAnswer == Some("C")
    ensures AnswerEntries([q1, q2, q3]) == ["1.A", "2.B", "3.C"]
  {
    assert IntToString(1) == "1" && IntToString(2) == "2" && IntToString(3) == "3";
    assert AnswerEntry(q1) == "1.A" && AnswerEntry(q2) == "2.B" && AnswerEntry(q3) == "3.C";
    var r := AnswerEntries([q1, q2, q3]);
    assert |r| == 3 && r[0] == "1.A" && r[1] == "2.B" && r[2] == "3.C";
  }

  lemma JoinExample(entries: seq<string>)
    requires entries == ["1.A", "2.B", "3.C"]
    ensures Join(entries, "  ") == "1.A  2.B  3.C"
  {
    assert entries[1..] == ["2.B", "3.C"] && entries[1..][1..] == ["3.C"];
  }

  // ---------------------------------------------------------------------
  // Reading the stored quiz.
  // ---------------------------------------------------------------------

  /** Option keys A–D of an `options` object whose values there are strings. */
  predicate StringOptions(m: map<string, JValue>) {
    forall k :: k in m && k in OptionKeys ==> m[k].JStr?
  }

  /** The question fields the export reads, when they have the types it can
      print: a safe-integer `blankNumber`, an `options` object with string
      options, and a string or absent `correctAnswer`. */
  function DecodeQuestion(q: JValue): (r: Option<Question>)
    ensures r.Some? ==> q.JObj?
    ensures r.Some? ==> Get(q, "blankNumber") == Some(JNum(r.value.blankNumber as real))
    ensures r.Some? ==> -MaxSafeInteger <= r.value.blankNumber <= MaxSafeInteger
    ensures r.Some? ==> && q.JObj? && "options" in q.fields
                        && forall k :: k in OptionKeys ==>
                             Get(q.fields["options"], k) == (if OptionOf(r.value, k).Some? then Some(JStr(OptionOf(r.value, k).value)) else None)
    ensures r.Some? ==> Get(q, "correctAnswer") == (if r.value.correctAnswer.Some? then Some(JStr(r.value.correctAnswer.value)) else None)
    ensures (var bn, opts, ans := Get(q, "blankNumber"), Get(q, "options"), Get(q, "correctAnswer");
             && bn.Some? && bn.value.JNum? && IsSafeInteger(bn.value.n)
             && opts.Some? && opts.value.JObj? && StringOptions(opts.value.fields)
             && (ans.None? || ans.value.JStr?)) ==> r.Some?
  {
    var bn := Get(q, "blankNumber");
    var opts := Get(q, "options");
    var ans := Get(q, "correctAnswer");
    if bn.Some? && bn.value.JNum? && IsSafeInteger(bn.value.n)
       && opts.Some? && opts.value.JObj? && StringOptions(opts.value.fields)
       && (ans.None? || ans.value.JStr?)
    then
      var m := opts.value.fields;
      Some(Question(
        bn.value.n.Floor,
        map k | k in m && k in OptionKeys :: m[k].s,
        if ans.Some? then Some(ans.value.s) else None))
    else None
  }

  /** Decodes every item, or gives `None` when one of them does not decode. */
  function DecodeAll<A, B>(decode: A -> Option<B>, items: seq<A>): (r: Option<seq<B>>)
    ensures r.Some? ==> |r.value| == |items|
    ensures r.Some? ==> forall i :: 0 <= i < |items| ==> decode(items[i]) == Some(r.value[i])
    ensures r.None? ==> exists i :: 0 <= i < |items| && decode(items[i]).None?
  {
    if items == [] then Some([])
    else
      match (decode(items[0]), DecodeAll(decode, items[1..]))
      case (Some(q), Some(rest)) =>
        assert forall i :: 1 <= i < |items| ==> items[i] == items[1..][i - 1];
        Some([q] + rest)
      case (None, _) => None
      case (_, None) =>
        var i :| 0 <= i < |items[1..]| && decode(items[1..][i]).None?;
        assert items[i + 1] == items[1..][i];
        None
  }

  /** Items that decode one by one decode together. */
  lemma DecodeAllPointwise<A, B>(decode: A -> Option<B>, items: seq<A>, vs: seq<B>)
    requires |items| == |vs|
    requires forall i :: 0 <= i < |items| ==> decode(items[i]) == Some(vs[i])
    ensures DecodeAll(decode, items) == Some(vs)
  {
    var r := DecodeAll(decode, items);
    assert r.Some?;
    assert forall i :: 0 <= i < |vs| ==> r.value[i] == vs[i];
    assert r.value == vs;
  }

  /** The quiz as the export reads it; `None` when the passage is not a
      string or a question does not decode. */
  function Decode(v: JValue): (r: Option<ClozeTest>)
    ensures r.Some? ==> Get(v, "passage") == Some(JStr(r.value.passage))
    ensures r.Some? ==> Get(v, "questions").Some? && Get(v, "questions").value.JArr?
    ensures r.Some? ==> DecodeAll(DecodeQuestion, Get(v, "questions").value.items) == Some(r.value.questions)
    ensures (var p, qs := Get(v, "passage"), Get(v, "questions");
             && p.Some? && p.value.JStr? && qs.Some? && qs.value.JArr?
             && forall i :: 0 <= i < |qs.value.items| ==> DecodeQuestion(qs.value.items[i]).Some?) ==> r.Some?
  {
    var p := Get(v, "passage");
    var qs := Get(v, "questions");
    if p.Some? && p.value.JStr? && qs.Some? && qs.value.JArr? then
      match DecodeAll(DecodeQuestion, qs.value.items)
      case Some(questions) => Some(ClozeTest(p.value.s, questions))
      case None => None
    else None
  }

  /** A quiz whose numbers are safe integers and whose options use the keys
      A–D: what a well-formed reply decodes to. */
  predicate Encodable(ct: ClozeTest) {
    forall i :: 0 <= i < |ct.questions| ==>
      && -MaxSafeInteger <= ct.questions[i].blankNumber <= MaxSafeInteger
      && ct.questions[i].options.Keys <= set k | k in OptionKeys
  }

  function EncodeQuestion(q: Question): JValue {
    var fields := map[
      "blankNumber" := JNum(q.blankNumber as real),
      "options" := JObj(map k | k in q.options :: JStr(q.options[k]))];
    JObj(if q.correctAnswer.Some? then fields["correctAnswer" := JStr(q.correctAnswer.value)] else fields)
  }

  /** The JSON text a well-formed reply parses to, for a given quiz. */
  function Encode(ct: ClozeTest): JValue {
    JObj(map[
      "passage" := JStr(ct.passage),
      "questions" := JArr(seq(|ct.questions|, i requires 0 <= i < |ct.questions| => EncodeQuestion(ct.questions[i])))])
  }

  lemma DecodeEncodeQuestion(q: Question)
    requires -MaxSafeInteger <= q.blankNumber <= MaxSafeInteger
    requires q.options.Keys <= set k | k in OptionKeys
    ensures DecodeQuestion(EncodeQuestion(q)) == Some(q)
  {
    var e := EncodeQuestion(q);
    assert (q.blankNumber as real).Floor == q.blankNumber;
    var m := e.fields["options"].fields;
    var decoded := map k | k in m && k in OptionKeys :: m[k].s;
    assert decoded == q.options;
  }

  /** Decoding reads only `blankNumber`, `options` and `correctAnswer`: an
      encoded question with further fields, such as the `originalWord` a
      reply carries, decodes to the same question. */
  lemma DecodeEncodeQuestionExtended(q: Question, fields: map<string, JValue>)
    requires -MaxSafeInteger <= q.blankNumber <= MaxSafeInteger
    requires q.options.Keys <= set k | k in OptionKeys
    requires forall k :: k in EncodeQuestion(q).fields ==> k in fields && fields[k] == EncodeQuestion(q).fields[k]
    requires "correctAnswer" in fields ==> q.correctAnswer.Some?
    ensures DecodeQuestion(JObj(fields)) == Some(q)
  {
    DecodeEncodeQuestion(q);
    var e := EncodeQuestion(q);
    assert Get(JObj(fields), "blankNumber") == Get(e, "blankNumber");
    assert Get(JObj(fields), "options") == Get(e, "options");
    assert Get(JObj(fields), "correctAnswer") == Get(e, "correctAnswer");
  }

  /** Decoding reads back exactly the quiz that was encoded. */
  lemma DecodeEncode(ct: ClozeTest)
    requires Encodable(ct)
    ensures Decode(Encode(ct)) == Some(ct)
  {
    var items := Encode(ct).fields["questions"].items;
    forall i | 0 <= i < |items| ensures DecodeQuestion(items[i]) == Some(ct.questions[i]) {
      DecodeEncodeQuestion(ct.questions[i]);
    }
    DecodeAllPointwise(DecodeQuestion, items, ct.questions);
  }
}

/**
 * The explanation step of app/utils/explainability.py: a resume is cut into
 * sentences after '.', '!' or '?', short sentences are dropped, and the
 * sentences are ranked by a score per sentence, best first, keeping the
 * first `top_k`. The scores themselves come from a sentence-embedding model
 * and are a parameter here.
 */
module Explainability {
  import opened Text

  // ---------------------------------------------------------------------------
  // Sentence splitting (`split_into_sentences`)

  predicate IsTerminator(c: char) {
    c == '.' || c == '!' || c == '?'
  }

  /** `re.split(r'(?<=[.!?])\s+', s)` cuts `s` at `i`: a whitespace character
      directly after a terminator starts a separator there. */
  predicate SplitsAt(s: string, i: int) {
    0 < i < |s| && IsTerminator(s[i - 1]) && IsSpace(s[i])
  }

  /** The first cut of `s` at or after `j`, or `|s|` when there is none. */
  function SplitFrom(s: string, j: nat): (i: nat)
    ensures i <= |s|
    ensures j <= |s| ==> j <= i
    ensures i < |s| ==> SplitsAt(s, i)
    ensures forall k :: j <= k < i ==> !SplitsAt(s, k)
    decreases |s| - j
  {
    if j >= |s| then |s|
    else if SplitsAt(s, j) then j
    else SplitFrom(s, j + 1)
  }

  /** The list `re.split(r'(?<=[.!?])\s+', s)` returns: the text between the
      separators, where a separator is the whole whitespace run at a cut. */
  function SplitPieces(s: string): (r: seq<string>)
    ensures |r| >= 1
    decreases |s|
  {
    var i := SplitFrom(s, 1);
    if i >= |s| then [s]
    else [s[..i]] + SplitPieces(TrimStart(s[i..], IsSpace))
  }

  /** The whitespace runs `SplitPieces` cuts out, in order. */
  function Separators(s: string): seq<string>
    decreases |s|
  {
    var i := SplitFrom(s, 1);
    if i >= |s| then []
    else
      var rest := TrimStart(s[i..], IsSpace);
      [s[i..|s| - |rest|]] + Separators(rest)
  }

  /** The pieces with the separators put back between them. */
  function Interleave(pieces: seq<string>, seps: seq<string>): string
    requires |pieces| == |seps| + 1
    decreases |seps|
  {
    if seps == [] then pieces[0] else pieces[0] + seps[0] + Interleave(pieces[1..], seps[1..])
  }

  /** A run of whitespace, at least one character long. */
  predicate IsSeparator(sep: string) {
    sep != [] && forall i :: 0 <= i < |sep| ==> IsSpace(sep[i])
  }

  /** One cut: the head ends with a terminator and contains no cut, the
      separator is the whole whitespace run after it, and the text splits
      into head, separator and rest. */
  lemma SplitStep(s: string)
    requires SplitFrom(s, 1) < |s|
    ensures var i := SplitFrom(s, 1);
            var rest := TrimStart(s[i..], IsSpace);
            && 0 < i <= |s| - |rest|
            && s == s[..i] + s[i..|s| - |rest|] + rest
            && IsSeparator(s[i..|s| - |rest|])
            && IsTerminator(s[..i][i - 1])
            && (forall j :: !SplitsAt(s[..i], j))
            && (rest == [] || !IsSpace(rest[0]))
  {
    var i := SplitFrom(s, 1);
    var rest := TrimStart(s[i..], IsSpace);
    TrimStartSpec(s[i..], IsSpace);
    var sep := s[i..|s| - |rest|];
    assert rest == s[|s| - |rest|..];
    forall j | 0 <= j < |sep| ensures IsSpace(sep[j]) {
      assert sep[j] == s[i..][j];
    }
    forall j | true ensures !SplitsAt(s[..i], j) {
      if 0 < j < i {
        assert !SplitsAt(s, j);
      }
    }
  }

  /** The pieces and the separators alternate and give back the text. */
  lemma {:induction false} SplitPiecesInterleave(s: string)
    ensures |SplitPieces(s)| == |Separators(s)| + 1
    ensures Interleave(SplitPieces(s), Separators(s)) == s
    decreases |s|
  {
    var i := SplitFrom(s, 1);
    if i < |s| {
      SplitStep(s);
      var rest := TrimStart(s[i..], IsSpace);
      SplitPiecesInterleave(rest);
      assert SplitPieces(s)[1..] == SplitPieces(rest);
      assert Separators(s)[1..] == Separators(rest);
    }
  }

  /** Every separator is a whitespace run. */
  lemma {:induction false} SeparatorsAreWhitespace(s: string)
    ensures forall k :: 0 <= k < |Separators(s)| ==> IsSeparator(Separators(s)[k])
    decreases |s|
  {
    var i := SplitFrom(s, 1);
    if i < |s| {
      SplitStep(s);
      var rest := TrimStart(s[i..], IsSpace);
      SeparatorsAreWhitespace(rest);
      assert Separators(s) == [s[i..|s| - |rest|]] + Separators(rest);
    }
  }

  /** Every piece but the last ends with a terminator. */
  lemma {:induction false} SplitPiecesEndWithTerminator(s: string)
    ensures forall k :: 0 <= k < |SplitPieces(s)| - 1 ==>
              SplitPieces(s)[k] != [] && IsTerminator(SplitPieces(s)[k][|SplitPieces(s)[k]| - 1])
    decreases |s|
  {
    var i := SplitFrom(s, 1);
    if i < |s| {
      SplitStep(s);
      var rest := TrimStart(s[i..], IsSpace);
      SplitPiecesEndWithTerminator(rest);
      assert SplitPieces(s) == [s[..i]] + SplitPieces(rest);
      TerminatedCons(s[..i], SplitPieces(rest));
    }
  }

  /** A piece ending with a terminator, put in front of pieces that all but
      the last end with one, keeps that shape. */
  lemma TerminatedCons(head: string, ps: seq<string>)
    requires head != [] && IsTerminator(head[|head| - 1])
    requires forall k :: 0 <= k < |ps| - 1 ==> ps[k] != [] && IsTerminator(ps[k][|ps[k]| - 1])
    ensures forall k :: 0 <= k < |[head] + ps| - 1 ==>
              ([head] + ps)[k] != [] && IsTerminator(([head] + ps)[k][|([head] + ps)[k]| - 1])
  {
    var all := [head] + ps;
    forall k | 0 <= k < |all| - 1 ensures all[k] != [] && IsTerminator(all[k][|all[k]| - 1]) {
      if k > 0 { assert all[k] == ps[k - 1]; }
    }
  }

  /** No piece contains a cut. */
  lemma {:induction false} SplitPiecesNoCut(s: string)
    ensures forall k, j :: 0 <= k < |SplitPieces(s)| ==> !SplitsAt(SplitPieces(s)[k], j)
    decreases |s|
  {
    var i := SplitFrom(s, 1);
    if i < |s| {
      SplitStep(s);
      var rest := TrimStart(s[i..], IsSpace);
      SplitPiecesNoCut(rest);
      var pieces := SplitPieces(s);
      assert pieces == [s[..i]] + SplitPieces(rest);
      forall k, j | 1 <= k < |pieces| ensures !SplitsAt(pieces[k], j) {
        assert pieces[k] == SplitPieces(rest)[k - 1];
      }
    } else {
      assert SplitPieces(s) == [s];
      forall j ensures !SplitsAt(s, j) {
        if 1 <= j < |s| { assert !SplitsAt(s, j); }
      }
    }
  }

  /** The first piece starts the text. */
  lemma FirstPieceStarts(s: string)
    ensures SplitPieces(s)[0] == [] || (s != [] && SplitPieces(s)[0][0] == s[0])
  {
    var i := SplitFrom(s, 1);
    if i < |s| {
      assert SplitPieces(s)[0] == s[..i];
    }
  }

  /** No piece after the first starts with whitespace. */
  lemma {:induction false} SplitPiecesTrimmed(s: string)
    ensures forall k :: 1 <= k < |SplitPieces(s)| ==> SplitPieces(s)[k] == [] || !IsSpace(SplitPieces(s)[k][0])
    decreases |s|
  {
    var i := SplitFrom(s, 1);
    if i < |s| {
      SplitStep(s);
      var rest := TrimStart(s[i..], IsSpace);
      SplitPiecesTrimmed(rest);
      FirstPieceStarts(rest);
      var pieces := SplitPieces(s);
      assert pieces == [s[..i]] + SplitPieces(rest);
      forall k | 1 <= k < |pieces| ensures pieces[k] == [] || !IsSpace(pieces[k][0]) {
        assert pieces[k] == SplitPieces(rest)[k - 1];
      }
    }
  }

  /** The stripped pieces longer than 20 characters, in order. */
  function Sentences(pieces: seq<string>): (r: seq<string>)
    ensures |r| <= |pieces|
    ensures forall k :: 0 <= k < |r| ==> |r[k]| > 20
  {
    if pieces == [] then []
    else
      var t := Strip(pieces[0]);
      (if |t| > 20 then [t] else []) + Sentences(pieces[1..])
  }

  /** No sentence has whitespace at either end. */
  lemma {:induction false} SentencesStripped(pieces: seq<string>)
    ensures forall k :: 0 <= k < |Sentences(pieces)| ==>
              !IsSpace(Sentences(pieces)[k][0]) && !IsSpace(Sentences(pieces)[k][|Sentences(pieces)[k]| - 1])
  {
    if pieces != [] {
      SentencesStripped(pieces[1..]);
      StripEnds(pieces[0]);
      var t := Strip(pieces[0]);
      assert Sentences(pieces) == (if |t| > 20 then [t] else []) + Sentences(pieces[1..]);
    }
  }

  /** A sentence is exactly a stripped piece longer than 20 characters. */
  lemma {:induction false} SentencesMembers(pieces: seq<string>, x: string)
    ensures x in Sentences(pieces) <==>
            |x| > 20 && exists k :: 0 <= k < |pieces| && Strip(pieces[k]) == x
  {
    if pieces != [] {
      SentencesMembers(pieces[1..], x);
      var t := Strip(pieces[0]);
      assert Sentences(pieces) == (if |t| > 20 then [t] else []) + Sentences(pieces[1..]);
      if |x| > 20 && exists k :: 0 <= k < |pieces| && Strip(pieces[k]) == x {
        var k :| 0 <= k < |pieces| && Strip(pieces[k]) == x;
        if k > 0 {
          assert pieces[1..][k - 1] == pieces[k];
        }
      }
      if x in Sentences(pieces[1..]) {
        var k :| 0 <= k < |pieces[1..]| && Strip(pieces[1..][k]) == x;
        assert pieces[k + 1] == pieces[1..][k];
      }
    }
  }

  /** Every piece, stripped. */
  function Stripped(pieces: seq<string>): (r: seq<string>)
    ensures |r| == |pieces|
    ensures forall k :: 0 <= k < |r| ==> r[k] == Strip(pieces[k])
  {
    seq(|pieces|, k requires 0 <= k < |pieces| => Strip(pieces[k]))
  }

  /** The strings longer than 20 characters, in order. */
  function LongOnes(ts: seq<string>): seq<string> {
    if ts == [] then [] else (if |ts[0]| > 20 then [ts[0]] else []) + LongOnes(ts[1..])
  }

  /** `Sentences` filters the stripped pieces by length. */
  lemma {:induction false} SentencesAreLongOnes(pieces: seq<string>)
    ensures Sentences(pieces) == LongOnes(Stripped(pieces))
  {
    if pieces != [] {
      SentencesAreLongOnes(pieces[1..]);
      var ts := Stripped(pieces);
      assert ts[1..] == Stripped(pieces[1..]);
      assert ts[0] == Strip(pieces[0]);
    }
  }

  /** The positions, counted from `offset`, of the strings `LongOnes` keeps. */
  function KeptAt(ts: seq<string>, offset: nat): seq<nat> {
    if ts == [] then [] else (if |ts[0]| > 20 then [offset] else []) + KeptAt(ts[1..], offset + 1)
  }

  /** The kept positions increase. */
  lemma {:induction false} KeptAtIncreasing(ts: seq<string>, offset: nat)
    ensures forall k :: 0 <= k < |KeptAt(ts, offset)| ==> offset <= KeptAt(ts, offset)[k] < offset + |ts|
    ensures forall k, l :: 0 <= k < l < |KeptAt(ts, offset)| ==> KeptAt(ts, offset)[k] < KeptAt(ts, offset)[l]
  {
    if ts != [] {
      KeptAtIncreasing(ts[1..], offset + 1);
      var here: seq<nat> := if |ts[0]| > 20 then [offset] else [];
      assert KeptAt(ts, offset) == here + KeptAt(ts[1..], offset + 1);
    }
  }

  /** String `k` of `LongOnes(ts)` is the one at position `KeptAt(ts, offset)[k] - offset`. */
  lemma {:induction false} LongOnesInOrder(ts: seq<string>, offset: nat)
    ensures |KeptAt(ts, offset)| == |LongOnes(ts)|
    ensures forall k :: 0 <= k < |LongOnes(ts)| ==>
              offset <= KeptAt(ts, offset)[k] < offset + |ts| && LongOnes(ts)[k] == ts[KeptAt(ts, offset)[k] - offset]
  {
    if ts != [] {
      var tail := ts[1..];
      LongOnesInOrder(tail, offset + 1);
      var keep := |ts[0]| > 20;
      assert LongOnes(ts) == (if keep then [ts[0]] else []) + LongOnes(tail);
      assert KeptAt(ts, offset) == (if keep then [offset] else []) + KeptAt(tail, offset + 1);
      assert ts == [ts[0]] + tail;
      KeptStep(ts[0], tail, offset, keep, LongOnes(tail), KeptAt(tail, offset + 1));
    }
  }

  /** One step of `LongOnesInOrder`: prepending a string, kept or not, to the
      positions and strings kept of the ones after it. */
  lemma KeptStep(p: string, tail: seq<string>, offset: nat, keep: bool, rest: seq<string>, krest: seq<nat>)
    requires |krest| == |rest|
    requires forall k :: 0 <= k < |rest| ==>
               offset + 1 <= krest[k] < offset + 1 + |tail| && rest[k] == tail[krest[k] - (offset + 1)]
    ensures var ss := (if keep then [p] else []) + rest;
            var ks := (if keep then [offset] else []) + krest;
            && |ks| == |ss|
            && forall k :: 0 <= k < |ss| ==>
                 offset <= ks[k] < offset + 1 + |tail| && ss[k] == ([p] + tail)[ks[k] - offset]
  {
    var ss := (if keep then [p] else []) + rest;
    var ks := (if keep then [offset] else []) + krest;
    var h := if keep then 1 else 0;
    forall k | 0 <= k < |ss|
      ensures offset <= ks[k] < offset + 1 + |tail| && ss[k] == ([p] + tail)[ks[k] - offset]
    {
      if k >= h {
        assert ks[k] == krest[k - h] && ss[k] == rest[k - h];
        assert tail[krest[k - h] - (offset + 1)] == ([p] + tail)[ks[k] - offset];
      }
    }
  }

  /** The sentences keep the order of the pieces: sentence `k` is the
      stripped piece at the `k`-th kept position, and those positions increase. */
  lemma SentencesInOrder(pieces: seq<string>)
    ensures |KeptAt(Stripped(pieces), 0)| == |Sentences(pieces)|
    ensures forall k :: 0 <= k < |Sentences(pieces)| ==>
              KeptAt(Stripped(pieces), 0)[k] < |pieces| &&
              Sentences(pieces)[k] == Strip(pieces[KeptAt(Stripped(pieces), 0)[k]])
  {
    SentencesAreLongOnes(pieces);
    LongOnesInOrder(Stripped(pieces), 0);
  }

  /** Stripping a piece cannot create a cut. */
  lemma StripKeepsNoCut(p: string)
    requires forall j :: !SplitsAt(p, j)
    ensures forall j :: !SplitsAt(Strip(p), j)
  {
    StripSlice(p);
    var o :| OccursAt(p, Strip(p), o);
    var t := Strip(p);
    forall j | 0 < j < |t| ensures !SplitsAt(t, j) {
      assert t[j - 1] == p[o + j - 1] && t[j] == p[o + j];
      assert !SplitsAt(p, o + j);
    }
  }

  /** No sentence of pieces without cuts contains a cut. */
  lemma {:induction false} SentencesHaveNoCut(pieces: seq<string>)
    requires forall k, j :: 0 <= k < |pieces| ==> !SplitsAt(pieces[k], j)
    ensures forall k, j :: 0 <= k < |Sentences(pieces)| ==> !SplitsAt(Sentences(pieces)[k], j)
  {
    if pieces != [] {
      StripKeepsNoCut(pieces[0]);
      SentencesHaveNoCut(pieces[1..]);
      var t := Strip(pieces[0]);
      assert Sentences(pieces) == (if |t| > 20 then [t] else []) + Sentences(pieces[1..]);
    }
  }

  /** `split_into_sentences`: nothing for an empty text, otherwise the
      stripped pieces of the split longer than 20 characters. */
  function SplitIntoSentences(text: string): (r: seq<string>)
    ensures text == "" ==> r == []
    ensures forall k :: 0 <= k < |r| ==> |r[k]| > 20
  {
    if text == "" then [] else Sentences(SplitPieces(text))
  }

  /** Every sentence of a text is stripped: no whitespace at either end. */
  lemma SplitIntoSentencesStripped(text: string)
    ensures forall k :: 0 <= k < |SplitIntoSentences(text)| ==>
              var x := SplitIntoSentences(text)[k];
              !IsSpace(x[0]) && !IsSpace(x[|x| - 1])
  {
    if text != "" {
      SentencesStripped(SplitPieces(text));
    }
  }

  /** The sentences of a text are the stripped pieces of at least 21
      characters, and none of them contains a terminator followed by
      whitespace. */
  lemma SplitIntoSentencesSpec(text: string, x: string)
    ensures x in SplitIntoSentences(text) ==>
            text != "" && |x| > 20 && exists k :: 0 <= k < |SplitPieces(text)| && Strip(SplitPieces(text)[k]) == x
    ensures (text != "" && |x| > 20 && exists k :: 0 <= k < |SplitPieces(text)| && Strip(SplitPieces(text)[k]) == x) ==>
            x in SplitIntoSentences(text)
    ensures forall k, j :: 0 <= k < |SplitIntoSentences(text)| ==> !SplitsAt(SplitIntoSentences(text)[k], j)
  {
    if text != "" {
      SentencesMembers(SplitPieces(text), x);
      SplitPiecesNoCut(text);
      SentencesHaveNoCut(SplitPieces(text));
    }
  }

  /** A text without a terminator followed by whitespace is one piece, so it
      gives at most one sentence: itself, stripped. */
  lemma SingleSentence(text: string)
    requires text != "" && forall j :: !SplitsAt(text, j)
    ensures SplitPieces(text) == [text]
    ensures SplitIntoSentences(text) == (if |Strip(text)| > 20 then [Strip(text)] else [])
  {
    assert SplitFrom(text, 1) == |text|;
    assert Sentences([text]) == (if |Strip(text)| > 20 then [Strip(text)] else []) + Sentences([text][1..]);
  }

  // ---------------------------------------------------------------------------
  // Ranking (`explain_top_resume`)

  /** A sentence with its score. */
  datatype Scored = Scored(sentence: string, score: real)

  /** `zip(sentences, scores)`, where the score of a sentence is its cosine
      similarity to the job description. */
  function ScoreAll(sentences: seq<string>, jdText: string, similarity: (string, string) -> real): (r: seq<Scored>)
    ensures |r| == |sentences|
    ensures forall k :: 0 <= k < |r| ==> r[k] == Scored(sentences[k], similarity(sentences[k], jdText))
  {
    seq(|sentences|, k requires 0 <= k < |sentences| => Scored(sentences[k], similarity(sentences[k], jdText)))
  }

  predicate NonIncreasing(xs: seq<Scored>) {
    forall i, j :: 0 <= i < j < |xs| ==> xs[i].score >= xs[j].score
  }

  /** The entries of `xs` whose score is `v`, in order. */
  function WithScore(xs: seq<Scored>, v: real): seq<Scored> {
    if xs == [] then [] else (if xs[0].score == v then [xs[0]] else []) + WithScore(xs[1..], v)
  }

  lemma {:induction false} WithScoreAppend(a: seq<Scored>, b: seq<Scored>, v: real)
    ensures WithScore(a + b, v) == WithScore(a, v) + WithScore(b, v)
  {
    if a != [] {
      assert (a + b)[1..] == a[1..] + b;
      assert (a + b)[0] == a[0];
      WithScoreAppend(a[1..], b, v);
    } else {
      assert a + b == b;
    }
  }

  /** Puts `x` in front of the first entry whose score is not greater. */
  function Insert(x: Scored, ys: seq<Scored>): (r: seq<Scored>)
    ensures |r| == |ys| + 1
  {
    if ys == [] || x.score >= ys[0].score then [x] + ys else [ys[0]] + Insert(x, ys[1..])
  }

  /** Inserting adds exactly `x`. */
  lemma {:induction false} InsertPermutes(x: Scored, ys: seq<Scored>)
    ensures multiset(Insert(x, ys)) == multiset(ys) + multiset{x}
  {
    if ys != [] && x.score < ys[0].score {
      InsertPermutes(x, ys[1..]);
      assert ys == [ys[0]] + ys[1..];
    }
  }

  /** Inserting into an ordered list keeps it ordered. */
  lemma {:induction false} InsertOrdered(x: Scored, ys: seq<Scored>)
    requires NonIncreasing(ys)
    ensures NonIncreasing(Insert(x, ys))
  {
    if ys != [] && x.score < ys[0].score {
      InsertOrdered(x, ys[1..]);
      InsertPermutes(x, ys[1..]);
      var r := Insert(x, ys);
      assert r == [ys[0]] + Insert(x, ys[1..]);
      forall i, j | 0 <= i < j < |r| ensures r[i].score >= r[j].score {
        if i == 0 {
          assert r[j] in multiset(Insert(x, ys[1..]));
          assert r[j] in ys[1..] || r[j] == x;
        }
      }
    }
  }

  /** `x` lands before every entry with the same score: for each score, the
      entries with that score are those of `[x] + ys`, in that order. */
  lemma {:induction false} InsertStable(x: Scored, ys: seq<Scored>, v: real)
    ensures WithScore(Insert(x, ys), v) == WithScore([x] + ys, v)
  {
    if ys != [] && x.score < ys[0].score {
      InsertStable(x, ys[1..], v);
      var y := ys[0];
      var rest := ys[1..];
      assert Insert(x, ys) == [y] + Insert(x, rest);
      assert ys == [y] + rest;
      WithScoreCons(y, Insert(x, rest), v);
      WithScoreCons(x, rest, v);
      WithScoreCons(x, ys, v);
      WithScoreCons(y, rest, v);
      SwapAroundEmpty(if y.score == v then [y] else [], if x.score == v then [x] else [], WithScore(rest, v));
    }
  }

  /** `WithScore` of a list with a known first entry. */
  lemma WithScoreCons(y: Scored, ys: seq<Scored>, v: real)
    ensures WithScore([y] + ys, v) == (if y.score == v then [y] else []) + WithScore(ys, v)
  {
    assert ([y] + ys)[1..] == ys;
  }

  /** Two pieces of which one is empty can be put in either order. */
  lemma SwapAroundEmpty(a: seq<Scored>, b: seq<Scored>, c: seq<Scored>)
    requires a == [] || b == []
    ensures a + (b + c) == b + (a + c)
  {
  }


  /** Python's `sorted(..., key=score, reverse=True)`. */
  function SortByScore(xs: seq<Scored>): (r: seq<Scored>)
    ensures |r| == |xs|
  {
    if xs == [] then [] else Insert(xs[0], SortByScore(xs[1..]))
  }

  /** The sort orders by score, best first, and is a permutation. */
  lemma SortByScoreSpec(xs: seq<Scored>)
    ensures NonIncreasing(SortByScore(xs))
    ensures multiset(SortByScore(xs)) == multiset(xs)
  {
    SortByScoreOrdered(xs);
    SortByScorePermutes(xs);
  }

  lemma {:induction false} SortByScoreOrdered(xs: seq<Scored>)
    ensures NonIncreasing(SortByScore(xs))
  {
    if xs != [] {
      SortByScoreOrdered(xs[1..]);
      InsertOrdered(xs[0], SortByScore(xs[1..]));
    }
  }

  lemma {:induction false} SortByScorePermutes(xs: seq<Scored>)
    ensures multiset(SortByScore(xs)) == multiset(xs)
  {
    if xs != [] {
      SortByScorePermutes(xs[1..]);
      InsertPermutes(xs[0], SortByScore(xs[1..]));
      assert xs == [xs[0]] + xs[1..];
    }
  }

  /** The sort is stable: the entries with score `v` keep their order. */
  lemma {:induction false} SortByScoreStable(xs: seq<Scored>, v: real)
    ensures WithScore(SortByScore(xs), v) == WithScore(xs, v)
  {
    if xs != [] {
      SortByScoreStable(xs[1..], v);
      InsertStable(xs[0], SortByScore(xs[1..]), v);
      assert ([xs[0]] + SortByScore(xs[1..]))[1..] == SortByScore(xs[1..]);
      assert xs[1..] == xs[1..];
    }
  }

  /** How many entries `xs[:k]` keeps of a list of `n`, for any integer `k`. */
  function SliceEnd(n: nat, k: int): (m: nat)
    ensures m <= n
    ensures 0 <= k ==> m == (if k < n then k else n)
    ensures k < 0 ==> m == (if n + k > 0 then n + k else 0)
  {
    if k >= 0 then (if k < n then k else n) else if n + k > 0 then n + k else 0
  }

  /** The ranked sentences `explain_top_resume` reports, with the raw scores. */
  function Top(resumeText: string, jdText: string, similarity: (string, string) -> real, topK: int): seq<Scored> {
    var ranked := SortByScore(ScoreAll(SplitIntoSentences(resumeText), jdText, similarity));
    ranked[..SliceEnd(|ranked|, topK)]
  }

  /** The reported entries, scores scaled to percent. */
  function Percent(xs: seq<Scored>): (r: seq<Scored>)
    ensures |r| == |xs|
    ensures forall k :: 0 <= k < |r| ==> r[k] == Scored(xs[k].sentence, 100.0 * xs[k].score)
  {
    seq(|xs|, k requires 0 <= k < |xs| => Scored(xs[k].sentence, 100.0 * xs[k].score))
  }

  predicate IsPrefix(a: seq<Scored>, b: seq<Scored>) {
    |a| <= |b| && b[..|a|] == a
  }

  /** The first `m` entries of the sorted list are ordered and drawn from `all`. */
  lemma FirstRankedOrdered(all: seq<Scored>, m: nat)
    requires m <= |all|
    ensures |SortByScore(all)| == |all|
    ensures NonIncreasing(SortByScore(all)[..m])
    ensures multiset(SortByScore(all)[..m]) <= multiset(all)
  {
    SortByScoreSpec(all);
    PrefixOrdered(SortByScore(all), m);
  }

  /** A prefix of a list ordered best first is ordered and drawn from it. */
  lemma PrefixOrdered(ranked: seq<Scored>, m: nat)
    requires NonIncreasing(ranked) && m <= |ranked|
    ensures NonIncreasing(ranked[..m])
    ensures multiset(ranked[..m]) <= multiset(ranked)
  {
    assert ranked == ranked[..m] + ranked[m..];
  }

  /** Nothing outside the first `m` sorted entries scores above any of them. */
  lemma FirstRankedDominate(all: seq<Scored>, m: nat)
    requires m <= |all|
    ensures |SortByScore(all)| == |all|
    ensures forall x, y :: x in multiset(all) - multiset(SortByScore(all)[..m]) && y in SortByScore(all)[..m] ==>
              x.score <= y.score
  {
    var ranked := SortByScore(all);
    SortByScoreSpec(all);
    PrefixDominates(ranked, m);
    PrefixRemainder(ranked, m);
    forall x, y | x in multiset(all) - multiset(ranked[..m]) && y in ranked[..m] ensures x.score <= y.score {
      assert x in ranked[m..];
    }
  }

  /** In a list ordered best first, no entry after the first `m` scores
      above one of them. */
  lemma PrefixDominates(ranked: seq<Scored>, m: nat)
    requires NonIncreasing(ranked) && m <= |ranked|
    ensures forall x, y :: x in ranked[m..] && y in ranked[..m] ==> x.score <= y.score
  {
    forall x, y | x in ranked[m..] && y in ranked[..m] ensures x.score <= y.score {
      var i :| 0 <= i < |ranked[m..]| && ranked[m..][i] == x;
      var j :| 0 <= j < m && ranked[..m][j] == y;
      assert ranked[m + i] == x && ranked[j] == y;
    }
  }

  /** Taking away the first `m` entries leaves the others. */
  lemma PrefixRemainder(ranked: seq<Scored>, m: nat)
    requires m <= |ranked|
    ensures multiset(ranked) - multiset(ranked[..m]) == multiset(ranked[m..])
  {
    assert ranked == ranked[..m] + ranked[m..];
  }

  /** Among equal scores the first `m` sorted entries are the earliest ones of `all`. */
  lemma FirstRankedKeepTies(all: seq<Scored>, m: nat, v: real)
    requires m <= |SortByScore(all)|
    ensures IsPrefix(WithScore(SortByScore(all)[..m], v), WithScore(all, v))
  {
    var ranked := SortByScore(all);
    SortByScoreStable(all, v);
    assert ranked == ranked[..m] + ranked[m..];
    WithScoreAppend(ranked[..m], ranked[m..], v);
  }

  /** What `explain_top_resume` promises: `top_k` entries (as Python slices)
      drawn from the sentences with their own scores, best first. */
  lemma TopSpec(resumeText: string, jdText: string, similarity: (string, string) -> real, topK: int)
    ensures var sentences := SplitIntoSentences(resumeText);
            var top := Top(resumeText, jdText, similarity, topK);
            && |top| == SliceEnd(|sentences|, topK)
            && NonIncreasing(top)
            && multiset(top) <= multiset(ScoreAll(sentences, jdText, similarity))
            && (forall k :: 0 <= k < |top| ==>
                  top[k].sentence in sentences && top[k].score == similarity(top[k].sentence, jdText))
  {
    var sentences := SplitIntoSentences(resumeText);
    var all := ScoreAll(sentences, jdText, similarity);
    FirstRankedOrdered(all, SliceEnd(|all|, topK));
    var top := Top(resumeText, jdText, similarity, topK);
    forall k | 0 <= k < |top|
      ensures top[k].sentence in sentences && top[k].score == similarity(top[k].sentence, jdText)
    {
      assert top[k] in multiset(all);
      var j :| 0 <= j < |all| && all[j] == top[k];
    }
  }

  /** No sentence left out scores higher than a reported one. */
  lemma TopIsBest(resumeText: string, jdText: string, similarity: (string, string) -> real, topK: int)
    ensures var all := ScoreAll(SplitIntoSentences(resumeText), jdText, similarity);
            var top := Top(resumeText, jdText, similarity, topK);
            forall x, y :: x in multiset(all) - multiset(top) && y in top ==> x.score <= y.score
  {
    var all := ScoreAll(SplitIntoSentences(resumeText), jdText, similarity);
    FirstRankedDominate(all, SliceEnd(|all|, topK));
  }

  /** Among sentences with equal scores the earlier ones are reported, in
      text order (the sort is stable). */
  lemma TopKeepsTies(resumeText: string, jdText: string, similarity: (string, string) -> real, topK: int, v: real)
    ensures var all := ScoreAll(SplitIntoSentences(resumeText), jdText, similarity);
            IsPrefix(WithScore(Top(resumeText, jdText, similarity, topK), v), WithScore(all, v))
  {
    var all := ScoreAll(SplitIntoSentences(resumeText), jdText, similarity);
    FirstRankedOrdered(all, SliceEnd(|all|, topK));
    FirstRankedKeepTies(all, SliceEnd(|all|, topK), v);
  }

  /** Scaling to percent keeps the results best first. */
  lemma PercentOrdered(xs: seq<Scored>)
    requires NonIncreasing(xs)
    ensures NonIncreasing(Percent(xs))
  {
    var r := Percent(xs);
    forall i, j | 0 <= i < j < |r| ensures r[i].score >= r[j].score {
      assert xs[i].score >= xs[j].score;
    }
  }

  /** Scaling one more entry extends the scaled prefix by that entry. */
  lemma PercentStep(xs: seq<Scored>, i: nat)
    requires i < |xs|
    ensures Percent(xs[..i + 1]) == Percent(xs[..i]) + [Scored(xs[i].sentence, 100.0 * xs[i].score)]
  {
    var a := Percent(xs[..i + 1]);
    var b := Percent(xs[..i]) + [Scored(xs[i].sentence, 100.0 * xs[i].score)];
    assert |a| == |b|;
    forall k | 0 <= k < |a| ensures a[k] == b[k] {
      if k < i { assert xs[..i + 1][k] == xs[..i][k]; }
    }
  }

  /** `explain_top_resume`. The scores are `similarity(sentence, jd_text)`,
      the cosine similarity of the two texts' embeddings. */
  method ExplainTopResume(resumeText: string, jdText: string, similarity: (string, string) -> real, topK: int := 5)
    returns (results: seq<Scored>)
    ensures results == Percent(Top(resumeText, jdText, similarity, topK))
  {
    var sentences := SplitIntoSentences(resumeText);
    if sentences == [] {
      return [];
    }
    var ranked := SortByScore(ScoreAll(sentences, jdText, similarity));
    var top := ranked[..SliceEnd(|ranked|, topK)];
    results := [];
    for i := 0 to |top|
      invariant results == Percent(top[..i])
    {
      PercentStep(top, i);
      results := results + [Scored(top[i].sentence, 100.0 * top[i].score)];
    }
    assert top[..|top|] == top;
  }
}

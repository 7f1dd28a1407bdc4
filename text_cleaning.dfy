/**
 * The text normaliser of app/utils/text_cleaning.py: lower-casing, replacing
 * every character outside `[a-z0-9+#.-]` and whitespace by a space,
 * collapsing whitespace, tokenising into maximal runs of `[a-z0-9+#.-]`, and
 * dropping stopwords and one-character tokens.
 */
module TextCleaning {
  import opened Text

  /** The fixed stopword list (40 words). */
  const StopWords: set<string> := {
    "a", "an", "the", "and", "or", "in", "on", "for", "with", "to", "of", "is", "are", "was", "were",
    "i", "you", "he", "she", "it", "they", "we", "this", "that", "these", "those", "as", "by",
    "at", "from", "be", "been", "has", "have", "had", "but", "not", "will", "can", "may"
  }

  /** The character class `[a-z0-9+#.-]` that tokens are made of. */
  predicate IsTokenChar(c: char) {
    'a' <= c <= 'z' || '0' <= c <= '9' || c == '+' || c == '#' || c == '.' || c == '-'
  }

  lemma TokenCharIsNotSpace(c: char)
    ensures IsTokenChar(c) ==> !IsSpace(c) && !IsUpper(c)
  {
  }

  /** One character of `re.sub(r"[^a-z0-9\+\#\.\-\s]", " ", text.lower())`. */
  function CleanChar(c: char): (r: char)
    ensures IsTokenChar(r) || IsSpace(r)
    ensures IsTokenChar(LowerChar(c)) ==> r == LowerChar(c)
    ensures IsTokenChar(r) ==> r == LowerChar(c)
  {
    var l := LowerChar(c);
    if IsTokenChar(l) || IsSpace(l) then l else ' '
  }

  /** `re.sub(r"[^a-z0-9\+\#\.\-\s]", " ", text.lower())`. */
  function Blank(text: string): (r: string)
    ensures |r| == |text|
    ensures forall i :: 0 <= i < |text| ==> r[i] == CleanChar(text[i])
  {
    seq(|text|, i requires 0 <= i < |text| => CleanChar(text[i]))
  }

  lemma BlankChars(text: string)
    ensures forall c :: c in Blank(text) ==> IsTokenChar(c) || IsSpace(c)
  {
  }

  /** A slice of a collapsed string over token characters and spaces is again
      made of token characters and single spaces. */
  lemma CollapsedSlice(s: string, r: string, k: int)
    requires forall i :: 0 <= i < |s| ==> IsTokenChar(s[i]) || s[i] == ' '
    requires forall i :: 0 <= i < |s| - 1 ==> !(s[i] == ' ' && s[i + 1] == ' ')
    requires OccursAt(s, r, k)
    ensures forall i :: 0 <= i < |r| ==> IsTokenChar(r[i]) || r[i] == ' '
    ensures forall i :: 0 <= i < |r| - 1 ==> !(r[i] == ' ' && r[i + 1] == ' ')
  {
    assert forall i :: 0 <= i < |r| ==> r[i] == s[k + i];
  }

  /** `clean_text`: lower-cased, foreign characters blanked, whitespace
      collapsed and stripped. */
  function CleanText(text: string): (r: string)
    ensures text == "" ==> r == ""
    ensures forall i :: 0 <= i < |r| ==> IsTokenChar(r[i]) || r[i] == ' '
    ensures r == [] || (r[0] != ' ' && r[|r| - 1] != ' ')
    ensures forall i :: 0 <= i < |r| - 1 ==> !(r[i] == ' ' && r[i + 1] == ' ')
  {
    if text == "" then ""
    else
      var blanked := Blank(text);
      var collapsed := Collapse(blanked);
      BlankChars(text);
      CollapseSpec(blanked);
      assert forall i :: 0 <= i < |collapsed| ==> IsTokenChar(collapsed[i]) || collapsed[i] == ' ';
      var r := Strip(collapsed);
      StripEnds(collapsed);
      StripSlice(collapsed);
      var k :| OccursAt(collapsed, r, k);
      CollapsedSlice(collapsed, r, k);
      r
  }

  /** Tokens are `re.findall(r"[a-z0-9\+\#\.\-]+", s)` of an already
      lower-cased string: the maximal runs of token characters, in order. */
  function Tokens(s: string): (r: seq<string>)
    ensures s != [] && IsTokenChar(s[0]) ==> |r| > 0 && |r[0]| > 0 && r[0][0] == s[0]
    decreases |s|
  {
    if s == [] then []
    else if !IsTokenChar(s[0]) then Tokens(s[1..])
    else
      var rest := Tokens(s[1..]);
      if |s| > 1 && IsTokenChar(s[1]) then [[s[0]] + rest[0]] + rest[1..]
      else [[s[0]]] + rest
  }

  /** A non-empty run of token characters is a single token. */
  predicate IsRun(t: string) {
    |t| > 0 && forall i :: 0 <= i < |t| ==> IsTokenChar(t[i])
  }

  /** Every token is a non-empty run of token characters. */
  lemma {:induction false} TokensAreRuns(s: string)
    ensures forall k :: 0 <= k < |Tokens(s)| ==> IsRun(Tokens(s)[k])
    decreases |s|
  {
    if s != [] {
      TokensAreRuns(s[1..]);
      var rest := Tokens(s[1..]);
      if IsTokenChar(s[0]) && |s| > 1 && IsTokenChar(s[1]) {
        var t := [s[0]] + rest[0];
        assert IsRun(rest[0]);
        assert IsRun(t) by {
          forall i | 0 <= i < |t| ensures IsTokenChar(t[i]) {
            if i > 0 { assert t[i] == rest[0][i - 1]; }
          }
        }
        assert Tokens(s) == [t] + rest[1..];
      } else if IsTokenChar(s[0]) {
        assert Tokens(s) == [[s[0]]] + rest;
      }
    }
  }

  lemma {:induction false} TokensOfRun(t: string)
    requires IsRun(t)
    ensures Tokens(t) == [t]
    decreases |t|
  {
    if |t| == 1 {
      assert Tokens(t[1..]) == [];
      assert [t[0]] == t;
    } else {
      assert IsRun(t[1..]);
      TokensOfRun(t[1..]);
      assert IsTokenChar(t[1]);
      assert [t[0]] + t[1..] == t;
    }
  }

  /** A non-token character separates tokens: splitting at it splits the token list. */
  lemma {:induction false} TokensSplit(a: string, c: char, b: string)
    requires !IsTokenChar(c)
    ensures Tokens(a + [c] + b) == Tokens(a) + Tokens(b)
    decreases |a|
  {
    var s := a + [c] + b;
    if a == [] {
      assert s == [c] + b;
      assert s[1..] == b;
    } else {
      assert s[0] == a[0];
      assert s[1..] == a[1..] + [c] + b;
      TokensSplit(a[1..], c, b);
      var rest := Tokens(s[1..]);
      var ta := Tokens(a[1..]);
      assert rest == ta + Tokens(b);
      if !IsTokenChar(a[0]) {
      } else if |a| == 1 {
        assert s[1] == c;
        assert ta == [];
        assert Tokens(s) == [[a[0]]] + rest;
        assert Tokens(a) == [[a[0]]];
      } else if IsTokenChar(a[1]) {
        assert s[1] == a[1];
        assert |ta| > 0;
        assert Tokens(s) == [[a[0]] + rest[0]] + rest[1..];
        assert Tokens(a) == [[a[0]] + ta[0]] + ta[1..];
        assert rest[0] == ta[0];
        assert rest[1..] == ta[1..] + Tokens(b);
      } else {
        assert s[1] == a[1];
        assert Tokens(s) == [[a[0]]] + rest;
        assert Tokens(a) == [[a[0]]] + ta;
      }
    }
  }

  /** Appending a non-token character does not change the tokens. */
  lemma TokensAppendSeparator(a: string, c: char)
    requires !IsTokenChar(c)
    ensures Tokens(a + [c]) == Tokens(a)
  {
    TokensSplit(a, c, []);
    assert a + [c] + [] == a + [c];
  }

  /** Only the token characters matter: strings that agree wherever either
      has a token character have the same tokens. */
  lemma {:induction false} TokensAgree(x: string, y: string)
    requires |x| == |y|
    requires forall i :: 0 <= i < |x| && (IsTokenChar(x[i]) || IsTokenChar(y[i])) ==> x[i] == y[i]
    ensures Tokens(x) == Tokens(y)
    decreases |x|
  {
    if x != [] {
      TokensAgree(x[1..], y[1..]);
    }
  }

  /** Dropping leading whitespace does not change the tokens. */
  lemma {:induction false} TokensTrimStart(s: string)
    ensures Tokens(TrimStart(s, IsSpace)) == Tokens(s)
    decreases |s|
  {
    if s != [] && IsSpace(s[0]) {
      TokensTrimStart(s[1..]);
    }
  }

  /** Dropping trailing whitespace does not change the tokens. */
  lemma {:induction false} TokensTrimEnd(s: string)
    ensures Tokens(TrimEnd(s, IsSpace)) == Tokens(s)
    decreases |s|
  {
    if s != [] && IsSpace(s[|s| - 1]) {
      var p := s[..|s| - 1];
      TokensTrimEnd(p);
      assert p + [s[|s| - 1]] == s;
      TokensAppendSeparator(p, s[|s| - 1]);
    }
  }

  /** Collapsing whitespace runs does not change the tokens. */
  lemma {:induction false} TokensCollapse(s: string)
    ensures Tokens(Collapse(s)) == Tokens(s)
    decreases |s|
  {
    if s != [] {
      if IsSpace(s[0]) {
        var t := TrimStart(s, IsSpace);
        TokensCollapse(t);
        TokensTrimStart(s);
        assert Tokens(Collapse(s)) == Tokens(Collapse(t));
        assert Tokens(s) == Tokens(s[1..]);
        TokensTrimStart(s[1..]);
        assert TrimStart(s[1..], IsSpace) == t;
      } else {
        TokensCollapse(s[1..]);
        CollapseSpec(s[1..]);
        var c := Collapse(s[1..]);
        assert Collapse(s) == [s[0]] + c;
        assert ([s[0]] + c)[1..] == c;
        if |s| > 1 {
          assert IsTokenChar(c[0]) <==> IsTokenChar(s[1]);
        }
      }
    }
  }

  /** `tokenize`. */
  function Tokenize(text: string): (r: seq<string>)
    ensures forall k :: 0 <= k < |r| ==> IsRun(r[k])
  {
    TokensAreRuns(Lower(text));
    Tokens(Lower(text))
  }

  /** Cleaning first does not change what `tokenize` finds. */
  lemma TokenizeCleanText(text: string)
    ensures Tokenize(CleanText(text)) == Tokenize(text)
  {
    if text != "" {
      var blanked := seq(|text|, i requires 0 <= i < |text| => CleanChar(text[i]));
      var cleaned := CleanText(text);
      assert cleaned == Strip(Collapse(blanked));
      forall i | 0 <= i < |cleaned| ensures !IsUpper(cleaned[i]) {
        TokenCharIsNotSpace(cleaned[i]);
      }
      LowerOfLowercase(cleaned);
      TokensTrimStart(Collapse(blanked));
      TokensTrimEnd(TrimStart(Collapse(blanked), IsSpace));
      TokensCollapse(blanked);
      var lowered := Lower(text);
      forall i | 0 <= i < |blanked| && (IsTokenChar(blanked[i]) || IsTokenChar(lowered[i]))
        ensures blanked[i] == lowered[i]
      {
      }
      TokensAgree(blanked, lowered);
    }
  }

  /** The filter of `clean_and_remove_stopwords`: not a stopword and longer
      than one character. */
  predicate IsKept(w: string) {
    w !in StopWords && |w| > 1
  }

  /** The tokens of `ws` that pass the filter: every kept token passes it and
      comes from `ws`, and every token of `ws` that passes it is kept. */
  function KeepTokens(ws: seq<string>): (r: seq<string>)
    ensures forall k :: 0 <= k < |r| ==> IsKept(r[k]) && r[k] in ws
    ensures forall w :: w in ws && IsKept(w) ==> w in r
    ensures |r| <= |ws|
  {
    if ws == [] then []
    else if IsKept(ws[0]) then [ws[0]] + KeepTokens(ws[1..])
    else KeepTokens(ws[1..])
  }

  /** The filter keeps input order: filtering a concatenation filters each
      part, so kept tokens appear in the order of `ws`. */
  lemma {:induction false} KeepTokensAppend(a: seq<string>, b: seq<string>)
    ensures KeepTokens(a + b) == KeepTokens(a) + KeepTokens(b)
    decreases |a|
  {
    if a == [] {
      assert a + b == b;
    } else {
      var ab := a + b;
      assert ab[0] == a[0] && ab[1..] == a[1..] + b;
      var head := if IsKept(a[0]) then [a[0]] else [];
      assert KeepTokens(ab) == head + KeepTokens(a[1..] + b);
      assert KeepTokens(a) == head + KeepTokens(a[1..]);
      KeepTokensAppend(a[1..], b);
      SeqAssoc(head, KeepTokens(a[1..]), KeepTokens(b));
    }
  }

  /** Filtering an already filtered token list keeps all of it. */
  lemma {:induction false} KeepTokensKept(ws: seq<string>)
    requires forall k :: 0 <= k < |ws| ==> IsKept(ws[k])
    ensures KeepTokens(ws) == ws
  {
    if ws != [] {
      KeepTokensKept(ws[1..]);
    }
  }

  /** `clean_and_remove_stopwords`. */
  function CleanAndRemoveStopwords(text: string): (r: string)
    ensures text == "" ==> r == ""
  {
    Join(KeepTokens(Tokenize(CleanText(text))), " ")
  }

  /** Joining token runs with single spaces and tokenising again gives the runs back. */
  lemma {:induction false} TokensOfJoin(ts: seq<string>)
    requires forall k :: 0 <= k < |ts| ==> IsRun(ts[k])
    ensures Tokens(Join(ts, " ")) == ts
    decreases |ts|
  {
    if |ts| == 1 {
      TokensOfRun(ts[0]);
    } else if |ts| > 1 {
      TokensOfJoin(ts[1..]);
      TokensOfRun(ts[0]);
      TokensSplit(ts[0], ' ', Join(ts[1..], " "));
    }
  }

  /** The output of `clean_and_remove_stopwords`, tokenised, is exactly the
      input's tokens that are kept, in input order: every surviving token is
      longer than one character and not a stopword. */
  lemma CleanAndRemoveStopwordsTokens(text: string)
    ensures Tokenize(CleanAndRemoveStopwords(text)) == KeepTokens(Tokenize(text))
  {
    var kept := KeepTokens(Tokenize(CleanText(text)));
    TokenizeCleanText(text);
    var j := Join(kept, " ");
    JoinLowercase(kept);
    LowerOfLowercase(j);
    TokensOfJoin(kept);
  }

  /** A space-joined list of token runs has no upper-case letter. */
  lemma {:induction false} JoinLowercase(ts: seq<string>)
    requires forall k :: 0 <= k < |ts| ==> IsRun(ts[k])
    ensures forall i :: 0 <= i < |Join(ts, " ")| ==> !IsUpper(Join(ts, " ")[i])
    decreases |ts|
  {
    if |ts| == 1 {
      forall i | 0 <= i < |ts[0]| ensures !IsUpper(ts[0][i]) {
        TokenCharIsNotSpace(ts[0][i]);
      }
    } else if |ts| > 1 {
      JoinLowercase(ts[1..]);
      forall i | 0 <= i < |ts[0]| ensures !IsUpper(ts[0][i]) {
        TokenCharIsNotSpace(ts[0][i]);
      }
    }
  }

  /** `clean_and_remove_stopwords` is idempotent. */
  lemma CleanAndRemoveStopwordsIdempotent(text: string)
    ensures CleanAndRemoveStopwords(CleanAndRemoveStopwords(text)) == CleanAndRemoveStopwords(text)
  {
    var once := CleanAndRemoveStopwords(text);
    var kept := KeepTokens(Tokenize(CleanText(text)));
    CleanAndRemoveStopwordsTokens(text);
    TokenizeCleanText(text);
    TokenizeCleanText(once);
    assert Tokenize(CleanText(once)) == kept;
    KeepTokensKept(kept);
  }

  /** Inputs that agree up to ASCII letter case give the same output. */
  lemma CaseInsensitive(a: string, b: string)
    requires Lower(a) == Lower(b)
    ensures CleanText(a) == CleanText(b)
    ensures CleanAndRemoveStopwords(a) == CleanAndRemoveStopwords(b)
  {
    assert |a| == |Lower(a)| == |b|;
    var ba := seq(|a|, i requires 0 <= i < |a| => CleanChar(a[i]));
    var bb := seq(|b|, i requires 0 <= i < |b| => CleanChar(b[i]));
    assert forall i :: 0 <= i < |a| ==> LowerChar(a[i]) == Lower(a)[i] == Lower(b)[i] == LowerChar(b[i]);
    assert ba == bb;
  }
}

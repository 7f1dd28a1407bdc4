/**
 * The section segmenter and skill extractor of app/utils/section_extraction.py.
 * A resume is cut into lines; a line is a heading when its normalised form
 * starts with one of eleven fixed heading strings; each heading owns the
 * lines up to the next heading; heading text becomes a `[a-z0-9_]` key; keys
 * are folded onto `skills`, `experience` and `education`; and a `skills`
 * entry is always present for non-empty text.
 */
module SectionExtraction {
  import opened Wrappers
  import opened Text
  import opened OrderedDict

  /** The heading patterns `^experience`, ..., `^internships`, as prefixes. */
  const SectionHeadings: seq<string> := [
    "experience", "work experience", "professional experience", "employment history",
    "education", "academic qualifications", "skills", "technical skills",
    "projects", "certifications", "internships"
  ]

  /** The fixed skill vocabulary, in its declared order. */
  const CommonSkills: seq<string> := [
    "python", "java", "c++", "c", "sql", "mysql", "postgresql", "mongodb",
    "machine learning", "deep learning", "data structures", "algorithms",
    "pandas", "numpy", "scikit-learn", "tensorflow", "pytorch", "nlp",
    "docker", "aws", "azure", "html", "css", "javascript", "react", "git", "linux"
  ]

  /** The skill vocabulary has no repeated term; checked nine terms against
      nine at a time. */
  lemma CommonSkillsDistinct()
    ensures Distinct(CommonSkills)
  {
    SkillsDistinct00(); SkillsDistinct01(); SkillsDistinct02();
    SkillsDistinct11(); SkillsDistinct12(); SkillsDistinct22();
    forall i, j | 0 <= i < j < |CommonSkills| ensures CommonSkills[i] != CommonSkills[j] {
      if i < 9 {
        if j < 9 {
          assert DistinctAcross(CommonSkills, 0, 9, 0, 9);
        } else if j < 18 {
          assert DistinctAcross(CommonSkills, 0, 9, 9, 18);
        } else {
          assert DistinctAcross(CommonSkills, 0, 9, 18, 27);
        }
      } else if i < 18 {
        if j < 18 {
          assert DistinctAcross(CommonSkills, 9, 18, 9, 18);
        } else {
          assert DistinctAcross(CommonSkills, 9, 18, 18, 27);
        }
      } else {
        assert DistinctAcross(CommonSkills, 18, 27, 18, 27);
      }
    }
  }

  /** No term at a position in `[a, b)` recurs at a later position in `[c, d)`. */
  predicate DistinctAcross(s: seq<string>, a: nat, b: nat, c: nat, d: nat) {
    forall i, j :: a <= i < b && c <= j < d && i < j && j < |s| ==> s[i] != s[j]
  }

  lemma SkillsDistinct00() ensures DistinctAcross(CommonSkills, 0, 9, 0, 9) {}
  lemma SkillsDistinct01() ensures DistinctAcross(CommonSkills, 0, 9, 9, 18) {}
  lemma SkillsDistinct02() ensures DistinctAcross(CommonSkills, 0, 9, 18, 27) {}
  lemma SkillsDistinct11() ensures DistinctAcross(CommonSkills, 9, 18, 9, 18) {}
  lemma SkillsDistinct12() ensures DistinctAcross(CommonSkills, 9, 18, 18, 27) {}
  lemma SkillsDistinct22() ensures DistinctAcross(CommonSkills, 18, 27, 18, 27) {}

  // ---------------------------------------------------------------------------
  // Heading classification (`_find_headings`)

  /** A heading found at line `line`, with the line's normalised text. */
  datatype Heading = Heading(line: nat, text: string)

  /** `re.sub(r"\s+", " ", ln.strip().lower())`: empty exactly for a blank line. */
  function NormalizeLine(ln: string): (r: string)
    ensures r == [] <==> Strip(ln) == []
  {
    Collapse(Lower(Strip(ln)))
  }

  /** Some heading pattern matches at the start of a normalised line. */
  predicate IsHeadingText(s: string) {
    exists p :: p in SectionHeadings && StartsWith(s, p)
  }

  predicate IsHeading(ln: string) {
    IsHeadingText(NormalizeLine(ln))
  }

  /** The normalised form of every line, in line order. */
  function Normalized(lines: seq<string>): (r: seq<string>)
    ensures |r| == |lines|
    decreases |lines|
  {
    if lines == [] then [] else Normalized(lines[..|lines| - 1]) + [NormalizeLine(lines[|lines| - 1])]
  }

  lemma {:induction false} NormalizedAt(lines: seq<string>, i: nat)
    requires i < |lines|
    ensures Normalized(lines)[i] == NormalizeLine(lines[i])
    decreases |lines|
  {
    var n := |lines| - 1;
    var front := Normalized(lines[..n]);
    assert Normalized(lines) == front + [NormalizeLine(lines[n])];
    if i < n {
      NormalizedAt(lines[..n], i);
      assert lines[..n][i] == lines[i];
    }
  }

  /** The headings among normalised lines, one per heading line, in line order. */
  function HeadingsIn(norms: seq<string>): (r: seq<Heading>)
    ensures |r| <= |norms|
    decreases |norms|
  {
    if norms == [] then []
    else
      var n := |norms| - 1;
      HeadingsIn(norms[..n]) + (if IsHeadingText(norms[n]) then [Heading(n, norms[n])] else [])
  }

  /** Headings appear in increasing line order, all within `n` lines. */
  predicate Ascending(hs: seq<Heading>, n: nat) {
    && (forall k :: 0 <= k < |hs| ==> hs[k].line < n)
    && (forall k, l :: 0 <= k < l < |hs| ==> hs[k].line < hs[l].line)
  }

  /** Every heading in `hs` is a heading line of `norms`, with its text. */
  predicate HeadingTextsSound(norms: seq<string>, hs: seq<Heading>) {
    forall k :: 0 <= k < |hs| ==> hs[k].line < |norms| && IsHeadingText(norms[hs[k].line]) && hs[k].text == norms[hs[k].line]
  }

  /** Every heading line of `norms` has a heading in `hs`. */
  predicate HeadingTextsComplete(norms: seq<string>, hs: seq<Heading>) {
    forall i :: 0 <= i < |norms| && IsHeadingText(norms[i]) ==> exists k :: 0 <= k < |hs| && hs[k].line == i
  }

  /** `hs` lists exactly the heading lines among `norms`, each once, in
      increasing line order, each with its normalised text. */
  predicate ListsHeadingTexts(norms: seq<string>, hs: seq<Heading>) {
    Ascending(hs, |norms|) && HeadingTextsSound(norms, hs) && HeadingTextsComplete(norms, hs)
  }

  lemma {:induction false} HeadingsInAscending(norms: seq<string>)
    ensures Ascending(HeadingsIn(norms), |norms|)
    decreases |norms|
  {
    if norms != [] {
      var n := |norms| - 1;
      HeadingsInAscending(norms[..n]);
      var hp := HeadingsIn(norms[..n]);
      var hs := HeadingsIn(norms);
      forall k | 0 <= k < |hs| ensures hs[k].line < |norms| {
        if k < |hp| { assert hs[k] == hp[k]; }
      }
      forall k, l | 0 <= k < l < |hs| ensures hs[k].line < hs[l].line {
        assert hs[k] == hp[k];
        if l < |hp| { assert hs[l] == hp[l]; }
      }
    }
  }

  lemma {:induction false} HeadingsInSound(norms: seq<string>)
    ensures HeadingTextsSound(norms, HeadingsIn(norms))
    decreases |norms|
  {
    if norms != [] {
      var n := |norms| - 1;
      var prefix := norms[..n];
      HeadingsInSound(prefix);
      var hp := HeadingsIn(prefix);
      var hs := HeadingsIn(norms);
      forall k | 0 <= k < |hs|
        ensures hs[k].line < |norms| && IsHeadingText(norms[hs[k].line]) && hs[k].text == norms[hs[k].line]
      {
        if k < |hp| {
          assert hs[k] == hp[k];
          assert prefix[hp[k].line] == norms[hp[k].line];
        }
      }
    }
  }

  lemma {:induction false} HeadingsInComplete(norms: seq<string>)
    ensures HeadingTextsComplete(norms, HeadingsIn(norms))
    decreases |norms|
  {
    if norms != [] {
      var n := |norms| - 1;
      var prefix := norms[..n];
      HeadingsInComplete(prefix);
      var hp := HeadingsIn(prefix);
      var hs := HeadingsIn(norms);
      forall i | 0 <= i < |norms| && IsHeadingText(norms[i])
        ensures exists k :: 0 <= k < |hs| && hs[k].line == i
      {
        if i < n {
          assert prefix[i] == norms[i];
          var k :| 0 <= k < |hp| && hp[k].line == i;
          assert hs[k] == hp[k];
        } else {
          assert hs == hp + [Heading(n, norms[n])];
          assert 0 <= |hp| < |hs| && hs[|hp|].line == i;
        }
      }
    }
  }

  lemma HeadingsInLists(norms: seq<string>)
    ensures ListsHeadingTexts(norms, HeadingsIn(norms))
  {
    HeadingsInAscending(norms);
    HeadingsInSound(norms);
    HeadingsInComplete(norms);
  }

  /** Looking at one more line adds its heading, if it is one. */
  lemma HeadingsInStep(norms: seq<string>, i: nat)
    requires i < |norms|
    ensures HeadingsIn(norms[..i + 1]) ==
            HeadingsIn(norms[..i]) + (if IsHeadingText(norms[i]) then [Heading(i, norms[i])] else [])
  {
    assert norms[..i + 1][..i] == norms[..i];
  }

  /** The headings `_find_headings` reports for `lines`. */
  function HeadingsOf(lines: seq<string>): (r: seq<Heading>)
    ensures |r| <= |lines|
  {
    HeadingsIn(Normalized(lines))
  }

  /** `hs` lists exactly the heading lines of `lines`, each once, in increasing
      line order, each with the line's normalised text. */
  predicate ListsHeadings(lines: seq<string>, hs: seq<Heading>) {
    && Ascending(hs, |lines|)
    && (forall k :: 0 <= k < |hs| ==>
          hs[k].line < |lines| && IsHeading(lines[hs[k].line]) && hs[k].text == NormalizeLine(lines[hs[k].line]))
    && (forall i :: 0 <= i < |lines| && IsHeading(lines[i]) ==> exists k :: 0 <= k < |hs| && hs[k].line == i)
  }

  lemma HeadingsOfListsHeadings(lines: seq<string>)
    ensures ListsHeadings(lines, HeadingsOf(lines))
  {
    var norms := Normalized(lines);
    var hs := HeadingsOf(lines);
    HeadingsInLists(norms);
    forall k | 0 <= k < |hs|
      ensures IsHeading(lines[hs[k].line]) && hs[k].text == NormalizeLine(lines[hs[k].line])
    {
      NormalizedAt(lines, hs[k].line);
    }
    forall i | 0 <= i < |lines| && IsHeading(lines[i])
      ensures exists k :: 0 <= k < |hs| && hs[k].line == i
    {
      NormalizedAt(lines, i);
    }
  }

  /** There are no headings exactly when no line is a heading line. */
  lemma HeadingsOfEmpty(lines: seq<string>)
    ensures HeadingsOf(lines) == [] <==> forall i :: 0 <= i < |lines| ==> !IsHeading(lines[i])
  {
    HeadingsOfListsHeadings(lines);
    var hs := HeadingsOf(lines);
    if hs != [] {
      assert IsHeading(lines[hs[0].line]);
    }
  }

  /** The inner loop of `_find_headings`: try the heading patterns in order
      and stop at the first that matches. */
  method MatchesHeading(s: string) returns (matched: bool)
    ensures matched == IsHeadingText(s)
  {
    matched := false;
    var j := 0;
    while j < |SectionHeadings|
      invariant 0 <= j <= |SectionHeadings|
      invariant forall q :: 0 <= q < j ==> !StartsWith(s, SectionHeadings[q])
    {
      if StartsWith(s, SectionHeadings[j]) {
        matched := true;
        break;
      }
      j := j + 1;
    }
  }

  /** `_find_headings`. */
  method FindHeadings(lines: seq<string>) returns (headings: seq<Heading>)
    ensures headings == HeadingsOf(lines)
    ensures ListsHeadings(lines, headings)
  {
    ghost var norms := Normalized(lines);
    headings := [];
    for i := 0 to |lines|
      invariant headings == HeadingsIn(norms[..i])
    {
      var s := NormalizeLine(lines[i]);
      NormalizedAt(lines, i);
      HeadingsInStep(norms, i);
      var matched := MatchesHeading(s);
      if matched {
        headings := headings + [Heading(i, s)];
      }
      assert headings == HeadingsIn(norms[..i + 1]);
    }
    assert norms[..|lines|] == norms;
    HeadingsOfListsHeadings(lines);
  }

  // ---------------------------------------------------------------------------
  // Section keys

  predicate IsSlugChar(c: char) {
    'a' <= c <= 'z' || '0' <= c <= '9'
  }

  predicate IsUnderscore(c: char) {
    c == '_'
  }

  /** `re.sub(r"[^a-z0-9]", "_", h)` before the outer underscores are stripped. */
  function Underscored(h: string): (r: string)
    ensures |r| == |h|
    ensures forall i :: 0 <= i < |h| ==> r[i] == (if IsSlugChar(h[i]) then h[i] else '_')
  {
    seq(|h|, i requires 0 <= i < |h| => if IsSlugChar(h[i]) then h[i] else '_')
  }

  /** `re.sub(r"[^a-z0-9]", "_", h).strip("_")`: the underscored heading
      from its first to its last `[a-z0-9]` character. The key has only
      `[a-z0-9_]`, no underscore at either end, and what is cut off on either
      side are characters of `h` outside `[a-z0-9]`. */
  function SlugKey(h: string): (r: string)
    ensures forall i :: 0 <= i < |r| ==> IsSlugChar(r[i]) || r[i] == '_'
    ensures r == [] || (r[0] != '_' && r[|r| - 1] != '_')
    ensures exists i :: SlugAt(h, r, i)
  {
    var u := Underscored(h);
    var t := TrimStart(u, IsUnderscore);
    TrimStartSpec(u, IsUnderscore);
    var r := TrimEnd(t, IsUnderscore);
    TrimEndSpec(t, IsUnderscore);
    SlugCharsKept(u, t, r);
    SlugSlice(h, u, t, r);
    r
  }

  /** `r` is the underscored heading `h` from index `i` on, and every character
      of `h` outside that slice is outside `[a-z0-9]`. */
  predicate SlugAt(h: string, r: string, i: int) {
    && 0 <= i <= |h| - |r|
    && r == Underscored(h)[i..i + |r|]
    && (forall k :: 0 <= k < i ==> !IsSlugChar(h[k]))
    && (forall k :: i + |r| <= k < |h| ==> !IsSlugChar(h[k]))
  }

  /** The key is the slice of the underscored heading between the removed
      runs of underscores, which stand for characters outside `[a-z0-9]`. */
  lemma SlugSlice(h: string, u: string, t: string, r: string)
    requires u == Underscored(h)
    requires |t| <= |u| && t == u[|u| - |t|..] && forall i :: 0 <= i < |u| - |t| ==> IsUnderscore(u[i])
    requires |r| <= |t| && r == t[..|r|] && forall i :: |r| <= i < |t| ==> IsUnderscore(t[i])
    ensures exists i :: SlugAt(h, r, i)
  {
    var i := |u| - |t|;
    assert r == u[i..i + |r|];
    forall k | 0 <= k < i ensures !IsSlugChar(h[k]) {
      assert IsUnderscore(u[k]);
    }
    forall k | i + |r| <= k < |h| ensures !IsSlugChar(h[k]) {
      assert u[k] == t[k - i];
    }
    assert SlugAt(h, r, i);
  }

  /** A slice of a slice of `[a-z0-9_]` characters has only those characters. */
  lemma SlugCharsKept(u: string, t: string, r: string)
    requires |t| <= |u| && t == u[|u| - |t|..] && |r| <= |t| && r == t[..|r|]
    requires forall i :: 0 <= i < |u| ==> IsSlugChar(u[i]) || u[i] == '_'
    ensures forall i :: 0 <= i < |r| ==> IsSlugChar(r[i]) || r[i] == '_'
  {
    forall i | 0 <= i < |r| ensures IsSlugChar(r[i]) || r[i] == '_' {
      assert r[i] == u[|u| - |t| + i];
    }
  }

  // ---------------------------------------------------------------------------
  // Segmentation (`segment_by_headings`)

  /** Where the body of heading `k` ends: the next heading's line, or the end of text. */
  function NextStart(lines: seq<string>, hs: seq<Heading>, k: nat): nat
    requires k < |hs|
  {
    if k + 1 < |hs| then hs[k + 1].line else |lines|
  }

  /** The body of heading `k`: the lines after it and before the next heading,
      joined with '\n' and stripped. */
  function BodyOf(lines: seq<string>, hs: seq<Heading>, k: nat): (r: string)
    requires Ascending(hs, |lines|) && k < |hs|
    ensures r == [] || (!IsSpace(r[0]) && !IsSpace(r[|r| - 1]))
  {
    var joined := Join(lines[hs[k].line + 1..NextStart(lines, hs, k)], "\n");
    StripEnds(joined);
    Strip(joined)
  }

  /** The `sections[key] = body` assignments of the segmentation loop, in order. */
  function SegmentPairs(lines: seq<string>, hs: seq<Heading>): (r: seq<Entry<string>>)
    requires Ascending(hs, |lines|)
    ensures |r| == |hs|
    ensures forall k :: 0 <= k < |hs| ==> r[k] == Entry(SlugKey(hs[k].text), BodyOf(lines, hs, k))
  {
    seq(|hs|, k requires 0 <= k < |hs| => Entry(SlugKey(hs[k].text), BodyOf(lines, hs, k)))
  }

  /** The mapping `segment_by_headings` returns, in its insertion order. */
  function Segments(text: string): Dict<string> {
    var lines := SplitLines(text);
    var hs := HeadingsOf(lines);
    HeadingsInAscending(Normalized(lines));
    if hs == [] then [Entry("full", text)]
    else FromPairs(SegmentPairs(lines, hs))
  }

  /** The body of heading `k`, written with its bounds. */
  lemma BodyOfSlice(lines: seq<string>, hs: seq<Heading>, k: nat, start: nat, end: nat)
    requires Ascending(hs, |lines|) && k < |hs|
    requires start == hs[k].line + 1 && end == NextStart(lines, hs, k)
    ensures start <= end <= |lines|
    ensures Strip(Join(lines[start..end], "\n")) == BodyOf(lines, hs, k)
  {
  }

  /** `segment_by_headings`. */
  method SegmentByHeadings(text: string) returns (sections: Dict<string>)
    ensures sections == Segments(text)
    ensures DistinctKeys(sections)
  {
    var lines := SplitLines(text);
    var headings := FindHeadings(lines);
    sections := [];
    if |headings| == 0 {
      sections := Put(sections, "full", text);
      return;
    }
    sections := SegmentBodies(lines, headings);
  }

  /** The loop of `segment_by_headings`: one assignment per heading, in order. */
  method SegmentBodies(lines: seq<string>, headings: seq<Heading>) returns (sections: Dict<string>)
    requires Ascending(headings, |lines|)
    ensures sections == FromPairs(SegmentPairs(lines, headings))
  {
    sections := [];
    var indices := seq(|headings|, k requires 0 <= k < |headings| => headings[k].line) + [|lines|];
    ghost var pairs := SegmentPairs(lines, headings);
    for i := 0 to |headings|
      invariant sections == FromPairs(pairs[..i])
    {
      var idx, h := headings[i].line, headings[i].text;
      var start := idx + 1;
      var end := indices[i + 1];
      assert end == NextStart(lines, headings, i);
      var body := Strip(Join(lines[start..end], "\n"));
      var key := SlugKey(h);
      BodyOfSlice(lines, headings, i, start, end);
      assert pairs[i] == Entry(key, body);
      FromPairsStep(pairs, i);
      sections := Put(sections, key, body);
    }
    assert pairs[..|headings|] == pairs;
  }

  /** Without any heading line, the whole text is the single section `full`. */
  lemma SegmentsWithoutHeadings(text: string)
    requires forall i :: 0 <= i < |SplitLines(text)| ==> !IsHeading(SplitLines(text)[i])
    ensures Segments(text) == [Entry("full", text)]
  {
    HeadingsOfEmpty(SplitLines(text));
  }

  /** A line that starts some heading of an ascending list lies at or
      before heading `k`, or at or after the next one. */
  lemma OutsideBody(hs: seq<Heading>, n: nat, k: nat, m: nat)
    requires Ascending(hs, n) && k < |hs| && m < |hs|
    ensures hs[m].line <= hs[k].line || (k + 1 < |hs| && hs[k + 1].line <= hs[m].line)
  {
    if m < k { assert hs[m].line < hs[k].line; } else if k + 1 < m { assert hs[k + 1].line < hs[m].line; }
  }

  /** The body of heading `k` is made of exactly the lines strictly between it
      and the next heading (or the end of text): none of them is a heading
      line, and all of them come after the first heading. */
  lemma BodyBetweenHeadings(lines: seq<string>, hs: seq<Heading>, k: nat)
    requires ListsHeadings(lines, hs) && k < |hs|
    ensures hs[0].line < hs[k].line + 1 <= NextStart(lines, hs, k) <= |lines|
    ensures NextStart(lines, hs, k) == |lines| || IsHeading(lines[NextStart(lines, hs, k)])
    ensures forall j :: 0 <= j < |lines| && IsHeading(lines[j]) ==> j <= hs[k].line || NextStart(lines, hs, k) <= j
  {
    if 0 < k { assert hs[0].line < hs[k].line; }
    forall j | 0 <= j < |lines| && IsHeading(lines[j])
      ensures j <= hs[k].line || NextStart(lines, hs, k) <= j
    {
      var m :| 0 <= m < |hs| && hs[m].line == j;
      OutsideBody(hs, |lines|, k, m);
    }
  }

  /** The last assignment under `key` comes from the last heading whose key
      is `key`; there is none exactly when no heading has that key. */
  lemma SegmentPairsLastValue(lines: seq<string>, hs: seq<Heading>, key: string)
    requires Ascending(hs, |lines|)
    ensures LastValue(SegmentPairs(lines, hs), key).None? <==>
            forall k :: 0 <= k < |hs| ==> SlugKey(hs[k].text) != key
    ensures LastValue(SegmentPairs(lines, hs), key).Some? ==>
              exists k :: 0 <= k < |hs| && SlugKey(hs[k].text) == key &&
                          LastValue(SegmentPairs(lines, hs), key).value == BodyOf(lines, hs, k) &&
                          forall m :: k < m < |hs| ==> SlugKey(hs[m].text) != key
  {
    var pairs := SegmentPairs(lines, hs);
    var found := LastValue(pairs, key);
    if found.None? {
      forall k | 0 <= k < |hs| ensures SlugKey(hs[k].text) != key {
        assert Keys(pairs)[k] == pairs[k].key;
      }
    } else {
      var i :| 0 <= i < |pairs| && pairs[i] == Entry(key, found.value) &&
               forall j :: i < j < |pairs| ==> pairs[j].key != key;
      assert SlugKey(hs[i].text) == key && found.value == BodyOf(lines, hs, i);
      forall m | i < m < |hs| ensures SlugKey(hs[m].text) != key {
        assert pairs[m].key != key;
      }
    }
  }

  /** Segment bodies are kept per key, the last heading with that key
      winning; keys that no heading produces are absent. */
  lemma SegmentsLastWins(text: string, key: string)
    requires HeadingsOf(SplitLines(text)) != []
    ensures var lines := SplitLines(text);
            var hs := HeadingsOf(lines);
            Ascending(hs, |lines|) &&
            (Lookup(Segments(text), key).None? <==> forall k :: 0 <= k < |hs| ==> SlugKey(hs[k].text) != key) &&
            (Lookup(Segments(text), key).Some? ==>
               exists k :: 0 <= k < |hs| && SlugKey(hs[k].text) == key &&
                           Lookup(Segments(text), key).value == BodyOf(lines, hs, k) &&
                           forall m :: k < m < |hs| ==> SlugKey(hs[m].text) != key)
  {
    var lines := SplitLines(text);
    var hs := HeadingsOf(lines);
    HeadingsInAscending(Normalized(lines));
    FromPairsLookup(SegmentPairs(lines, hs), key);
    SegmentPairsLastValue(lines, hs, key);
  }

  // ---------------------------------------------------------------------------
  // Skill extraction (`extract_skills_from_text`)

  /** The vocabulary terms occurring in `lowered`, in vocabulary order. */
  function Hits(vocab: seq<string>, lowered: string): (r: seq<string>)
    ensures forall s :: s in r <==> s in vocab && Contains(lowered, s)
    decreases |vocab|
  {
    if vocab == [] then []
    else
      var n := |vocab| - 1;
      assert vocab == vocab[..n] + [vocab[n]];
      Hits(vocab[..n], lowered) + (if Contains(lowered, vocab[n]) then [vocab[n]] else [])
  }

  /** `r` is `s` with some elements left out, the rest in their order. */
  predicate IsSubsequence(r: seq<string>, s: seq<string>)
    decreases |s|
  {
    if r == [] then true
    else if s == [] then false
    else if r[0] == s[0] then IsSubsequence(r[1..], s[1..])
    else IsSubsequence(r, s[1..])
  }

  /** A subsequence of a list without repetitions has none either, and takes
      its elements from that list. */
  lemma {:induction false} SubsequenceDistinct(r: seq<string>, s: seq<string>)
    requires IsSubsequence(r, s) && Distinct(s)
    ensures Distinct(r)
    ensures forall x :: x in r ==> x in s
    decreases |s|
  {
    if r != [] {
      assert Distinct(s[1..]);
      if r[0] == s[0] {
        SubsequenceDistinct(r[1..], s[1..]);
        assert forall i :: 1 <= i < |r| ==> r[i] in r[1..];
        assert forall x :: x in s[1..] ==> x != s[0];
      } else {
        SubsequenceDistinct(r, s[1..]);
      }
    }
  }

  /** A subsequence stays one when the list grows at the end, whether or not
      it takes the new element. */
  lemma {:induction false} SubsequenceAppend(r: seq<string>, s: seq<string>, x: string)
    requires IsSubsequence(r, s)
    ensures IsSubsequence(r, s + [x])
    ensures IsSubsequence(r + [x], s + [x])
    decreases |s|
  {
    if s == [] {
      assert r == [];
      assert [x][1..] == [];
    } else {
      assert (s + [x])[1..] == s[1..] + [x];
      if r == [] {
        SubsequenceAppend(r, s[1..], x);
        assert [] + [x] == [x];
      } else if r[0] == s[0] {
        SubsequenceAppend(r[1..], s[1..], x);
        assert (r + [x])[1..] == r[1..] + [x];
      } else {
        SubsequenceAppend(r, s[1..], x);
      }
    }
  }

  lemma {:induction false} HitsSubsequence(vocab: seq<string>, lowered: string)
    ensures IsSubsequence(Hits(vocab, lowered), vocab)
    decreases |vocab|
  {
    if vocab != [] {
      var n := |vocab| - 1;
      var h := Hits(vocab[..n], lowered);
      HitsSubsequence(vocab[..n], lowered);
      SubsequenceAppend(h, vocab[..n], vocab[n]);
      assert vocab[..n] + [vocab[n]] == vocab;
      if Contains(lowered, vocab[n]) {
        assert Hits(vocab, lowered) == h + [vocab[n]];
      } else {
        assert Hits(vocab, lowered) == h;
      }
    }
  }

  /** The skills `extract_skills_from_text` reports for `text`. */
  function SkillsIn(text: string): seq<string> {
    Hits(CommonSkills, Lower(text))
  }

  /** The skills found are exactly the vocabulary terms occurring in the
      lower-cased text, in vocabulary order, each once. */
  lemma SkillsInSpec(text: string)
    ensures forall s :: s in SkillsIn(text) <==> s in CommonSkills && Contains(Lower(text), s)
    ensures IsSubsequence(SkillsIn(text), CommonSkills)
    ensures Distinct(SkillsIn(text))
  {
    HitsSubsequence(CommonSkills, Lower(text));
    CommonSkillsDistinct();
    SubsequenceDistinct(SkillsIn(text), CommonSkills);
  }

  /** `extract_skills_from_text`. */
  method ExtractSkills(text: string) returns (skills: seq<string>)
    ensures skills == SkillsIn(text)
    ensures forall s :: s in skills <==> s in CommonSkills && Contains(Lower(text), s)
    ensures IsSubsequence(skills, CommonSkills) && Distinct(skills)
  {
    var lowered := Lower(text);
    var found := [];
    for i := 0 to |CommonSkills|
      invariant found == Hits(CommonSkills[..i], lowered)
    {
      assert CommonSkills[..i + 1][..i] == CommonSkills[..i];
      if Contains(lowered, CommonSkills[i]) {
        found := found + [CommonSkills[i]];
      }
    }
    assert CommonSkills[..|CommonSkills|] == CommonSkills;
    SkillsInSpec(text);
    FromKeysOfDistinct(found);
    skills := Keys(FromKeys(found));
  }

  // ---------------------------------------------------------------------------
  // Sections (`extract_sections`)

  /** A section: its raw body, and the skills list that only `skills` carries. */
  datatype Section = Section(raw: string, skillsList: Option<seq<string>>)

  /** The name a segment key is stored under: one of the three canonical
      names, or the key itself. */
  function SectionName(key: string): (r: string)
    ensures r == "skills" || r == "experience" || r == "education" || r == key
  {
    if Contains(key, "skill") then "skills"
    else if Contains(key, "experience") || Contains(key, "employment") then "experience"
    else if Contains(key, "education") || Contains(key, "academic") then "education"
    else key
  }

  /** A key is stored under `skills` exactly when it contains "skill". */
  lemma SectionNameSkills(key: string)
    ensures SectionName(key) == "skills" <==> Contains(key, "skill")
  {
    if key == "skills" {
      assert StartsWith(key, "skill");
    }
  }

  /** The three canonical names are stored under themselves, so naming a
      section twice gives the same name as naming it once. */
  lemma SectionNameIdempotent(key: string)
    ensures SectionName(SectionName(key)) == SectionName(key)
  {
    var name := SectionName(key);
    if name == "skills" {
      assert StartsWith(name, "skill");
    } else if name == "experience" {
      assert StartsWith(name, "experience");
      NotContainsFirstChar(name, "skill");
    } else if name == "education" {
      assert StartsWith(name, "education");
      NotContainsFirstChar(name, "skill");
      NotContainsLonger(name, "experience");
      NotContainsLonger(name, "employment");
    }
  }

  /** The assignment `out[name] = {...}` made for one segment: under the
      segment's canonical name, with its body as the raw text. */
  function Canonicalize(e: Entry<string>): (r: Entry<Section>)
    ensures r.key == SectionName(e.key) && r.value.raw == e.value
  {
    if Contains(e.key, "skill") then Entry("skills", Section(e.value, Some(SkillsIn(e.value))))
    else Entry(SectionName(e.key), Section(e.value, None))
  }

  function CanonicalPairs(segs: Dict<string>): (r: seq<Entry<Section>>)
    ensures |r| == |segs|
    ensures forall i :: 0 <= i < |segs| ==> r[i] == Canonicalize(segs[i])
  {
    seq(|segs|, i requires 0 <= i < |segs| => Canonicalize(segs[i]))
  }

  /** The mapping `extract_sections` returns, in its insertion order. */
  function SectionsOf(text: string): Dict<Section> {
    if text == "" then []
    else
      var t := ReplaceCrLf(text);
      var out := FromPairs(CanonicalPairs(Segments(t)));
      if "skills" in Keys(out) then out
      else Put(out, "skills", Section("", Some(SkillsIn(t))))
  }

  /** `extract_sections`. */
  method ExtractSections(text: string) returns (out: Dict<Section>)
    ensures out == SectionsOf(text)
    ensures text == "" ==> out == []
    ensures DistinctKeys(out)
    ensures text != "" ==> Lookup(out, "skills").Some? && Lookup(out, "skills").value.skillsList.Some?
  {
    if text == "" {
      return [];
    }
    var t := ReplaceCrLf(text);
    var segs := SegmentByHeadings(t);
    ghost var pairs := CanonicalPairs(segs);
    out := [];
    for i := 0 to |segs|
      invariant out == FromPairs(pairs[..i])
    {
      var k, v := segs[i].key, segs[i].value;
      var entry: Entry<Section>;
      if Contains(k, "skill") {
        var skillsList := ExtractSkills(v);
        entry := Entry("skills", Section(v, Some(skillsList)));
      } else if Contains(k, "experience") || Contains(k, "employment") {
        entry := Entry("experience", Section(v, None));
      } else if Contains(k, "education") || Contains(k, "academic") {
        entry := Entry("education", Section(v, None));
      } else {
        entry := Entry(k, Section(v, None));
      }
      assert entry == pairs[i];
      FromPairsStep(pairs, i);
      out := Put(out, entry.key, entry.value);
    }
    assert pairs[..|segs|] == pairs;
    if "skills" !in Keys(out) {
      var inferred := ExtractSkills(t);
      out := Put(out, "skills", Section("", Some(inferred)));
    }
    SkillsEntryPresent(text);
  }

  /** Every assignment stores a skills list exactly under `skills`. */
  lemma CanonicalPairsSkills(segs: Dict<string>)
    ensures forall i :: 0 <= i < |segs| ==>
              (CanonicalPairs(segs)[i].key == "skills" <==> CanonicalPairs(segs)[i].value.skillsList.Some?)
  {
    forall i | 0 <= i < |segs|
      ensures CanonicalPairs(segs)[i].key == "skills" <==> CanonicalPairs(segs)[i].value.skillsList.Some?
    {
      SectionNameSkills(segs[i].key);
    }
  }

  /** Non-empty text always yields a `skills` entry, and it carries a skills list. */
  lemma SkillsEntryPresent(text: string)
    requires text != ""
    ensures DistinctKeys(SectionsOf(text))
    ensures Lookup(SectionsOf(text), "skills").Some?
    ensures Lookup(SectionsOf(text), "skills").value.skillsList.Some?
  {
    var t := ReplaceCrLf(text);
    var pairs := CanonicalPairs(Segments(t));
    var out := FromPairs(pairs);
    if "skills" in Keys(out) {
      assert SectionsOf(text) == out;
      FromPairsLookup(pairs, "skills");
      CanonicalPairsSkills(Segments(t));
    } else {
      var skills := Section("", Some(SkillsIn(t)));
      assert SectionsOf(text) == Put(out, "skills", skills);
      PutLookup(out, "skills", skills);
      PutDistinct(out, "skills", skills);
    }
  }

  /** Segments are folded onto their names in segment order, the last one
      written winning; when no segment maps to `skills`, the `skills` entry
      has an empty body and the skills of the whole (CRLF-normalised) text. */
  lemma SectionsLastWins(text: string, name: string)
    requires text != ""
    ensures var t := ReplaceCrLf(text);
            var pairs := CanonicalPairs(Segments(t));
            Lookup(SectionsOf(text), name) ==
              if name == "skills" && "skills" !in Keys(pairs) then Some(Section("", Some(SkillsIn(t))))
              else LastValue(pairs, name)
  {
    var t := ReplaceCrLf(text);
    var pairs := CanonicalPairs(Segments(t));
    var out := FromPairs(pairs);
    FromPairsLookup(pairs, name);
    if "skills" in Keys(out) {
      assert SectionsOf(text) == out;
    } else {
      var skills := Section("", Some(SkillsIn(t)));
      assert SectionsOf(text) == Put(out, "skills", skills);
      PutLookup(out, "skills", skills);
    }
  }

  /** The single segment `full` becomes the single section `full`. */
  lemma FullSection(t: string)
    ensures FromPairs(CanonicalPairs([Entry("full", t)])) == [Entry("full", Section(t, None))]
  {
    NotContainsLonger("full", "skill");
    NotContainsLonger("full", "experience");
    NotContainsLonger("full", "employment");
    NotContainsLonger("full", "education");
    NotContainsLonger("full", "academic");
    var full := Entry("full", Section(t, None));
    assert CanonicalPairs([Entry("full", t)]) == [full];
    assert [full][..0] == [];
  }

  /** The fallback appends `skills` after a lone `full` section. */
  lemma FullThenSkills(full: Section, skills: Section)
    ensures "skills" !in Keys([Entry("full", full)])
    ensures Put([Entry("full", full)], "skills", skills) == [Entry("full", full), Entry("skills", skills)]
  {
    assert Keys([Entry("full", full)]) == ["full"];
    assert "skills"[1] != "full"[1];
  }

  /** A non-empty text without heading lines gives `full` (the whole text)
      followed by the inferred `skills` entry. */
  lemma SectionsWithoutHeadings(text: string)
    requires text != ""
    requires forall i :: 0 <= i < |SplitLines(ReplaceCrLf(text))| ==> !IsHeading(SplitLines(ReplaceCrLf(text))[i])
    ensures var t := ReplaceCrLf(text);
            SectionsOf(text) == [Entry("full", Section(t, None)), Entry("skills", Section("", Some(SkillsIn(t))))]
  {
    var t := ReplaceCrLf(text);
    SegmentsWithoutHeadings(t);
    FullSection(t);
    FullThenSkills(Section(t, None), Section("", Some(SkillsIn(t))));
  }
}

/**
 * The suggestion rules of app/utils/suggestions.py: one message for each of
 * the first five missing skills, one per weak section (projects, experience,
 * skills, in that order), and a fallback when there is nothing to suggest.
 */
module Suggestions {

  /** One suggestion: which rule produced it, with the skill it names. */
  datatype Suggestion =
    | AddSkill(skill: string)
    | ImproveProjects
    | AlignExperience
    | HighlightSkills
    | AlignsWell

  /** The text `generate_suggestions` emits for each suggestion. A skill
      message is 88 characters of fixed text with the skill itself after the
      first 43, so the message names exactly that skill. */
  function Message(s: Suggestion): (r: string)
    ensures s.AddSkill? ==> |r| == 88 + |s.skill| && r[43..43 + |s.skill|] == s.skill
  {
    match s
    case AddSkill(skill) =>
      "Add experience or projects demonstrating **" + skill + "**, as it is required in the job description."
    case ImproveProjects =>
      "Improve the **Projects** section by clearly stating technologies used, your role, and measurable impact."
    case AlignExperience =>
      "Align the **Experience** section more closely with the job responsibilities mentioned in the JD."
    case HighlightSkills =>
      "Reorder and highlight the most relevant skills in the **Skills** section based on the job description."
    case AlignsWell =>
      "Your resume aligns well with the job description. Focus on improving clarity and impact of bullet points."
  }

  /** How many missing skills get a message: `len(missing_skills[:5])`. */
  function SkillCount(missingSkills: seq<string>): (n: nat)
    ensures n <= 5 && n <= |missingSkills|
    ensures n == 5 || n == |missingSkills|
  {
    if |missingSkills| < 5 then |missingSkills| else 5
  }

  /** `section_scores.get(name, 100)`. */
  function ScoreOf(sectionScores: map<string, real>, name: string): real {
    if name in sectionScores then sectionScores[name] else 100.0
  }

  /** The section `name` is weak: its score, 100 when absent, is below the threshold. */
  predicate Weak(sectionScores: map<string, real>, name: string, threshold: real) {
    ScoreOf(sectionScores, name) < threshold
  }

  /** A section that has no score is never weak under a threshold of at most 100,
      the default 40 included. */
  lemma AbsentIsNotWeak(sectionScores: map<string, real>, name: string, threshold: real)
    requires name !in sectionScores && threshold <= 100.0
    ensures !Weak(sectionScores, name, threshold)
  {
  }

  /** Where a section suggestion stands in the rule order. */
  function Rank(s: Suggestion): nat {
    match s
    case ImproveProjects => 0
    case AlignExperience => 1
    case _ => 2
  }

  predicate IsSectionSuggestion(s: Suggestion) {
    s == ImproveProjects || s == AlignExperience || s == HighlightSkills
  }

  /** The section suggestions, one per weak section, in the rule order. */
  function SectionSuggestions(sectionScores: map<string, real>, threshold: real): seq<Suggestion> {
    (if Weak(sectionScores, "projects", threshold) then [ImproveProjects] else []) +
    (if Weak(sectionScores, "experience", threshold) then [AlignExperience] else []) +
    (if Weak(sectionScores, "skills", threshold) then [HighlightSkills] else [])
  }

  /** At most three section suggestions: each present exactly when its
      section is weak, and in the order projects, experience, skills. */
  lemma SectionSuggestionsSpec(sectionScores: map<string, real>, threshold: real)
    ensures var r := SectionSuggestions(sectionScores, threshold);
            && |r| <= 3
            && (ImproveProjects in r <==> Weak(sectionScores, "projects", threshold))
            && (AlignExperience in r <==> Weak(sectionScores, "experience", threshold))
            && (HighlightSkills in r <==> Weak(sectionScores, "skills", threshold))
            && (forall i :: 0 <= i < |r| ==> IsSectionSuggestion(r[i]))
            && (forall i, j :: 0 <= i < j < |r| ==> Rank(r[i]) < Rank(r[j]))
  {
  }

  /** One suggestion for each of the first five missing skills, in order. */
  function SkillSuggestions(missingSkills: seq<string>): (r: seq<Suggestion>)
    ensures |r| == SkillCount(missingSkills)
    ensures forall i :: 0 <= i < |r| ==> r[i] == AddSkill(missingSkills[i])
  {
    seq(SkillCount(missingSkills), i requires 0 <= i < SkillCount(missingSkills) => AddSkill(missingSkills[i]))
  }

  /** What `generate_suggestions` returns: the skill suggestions, then the
      section suggestions, or the fallback alone when there are neither. */
  function Suggested(missingSkills: seq<string>, sectionScores: map<string, real>, threshold: real): seq<Suggestion> {
    var rules := SkillSuggestions(missingSkills) + SectionSuggestions(sectionScores, threshold);
    if rules == [] then [AlignsWell] else rules
  }

  /** The list of `generate_suggestions` is never empty and has at most
      eight entries; the first come from the first five missing skills, in
      order, and no later entry names a skill. */
  lemma SuggestedSpec(missingSkills: seq<string>, sectionScores: map<string, real>, threshold: real)
    ensures var r := Suggested(missingSkills, sectionScores, threshold);
            var n := SkillCount(missingSkills);
            && 1 <= |r| <= 8
            && n <= |r|
            && (forall i :: 0 <= i < n ==> r[i] == AddSkill(missingSkills[i]))
            && (forall i :: n <= i < |r| ==> !r[i].AddSkill?)
  {
    var skills := SkillSuggestions(missingSkills);
    var sections := SectionSuggestions(sectionScores, threshold);
    var rules := skills + sections;
    SectionSuggestionsSpec(sectionScores, threshold);
    forall i | |skills| <= i < |rules| ensures !rules[i].AddSkill? {
      assert rules[i] == sections[i - |skills|];
    }
  }

  /** The fallback appears exactly when no skill is missing and no section
      is weak, and then alone; otherwise the section suggestions follow the
      skill ones. */
  lemma SuggestedFallback(missingSkills: seq<string>, sectionScores: map<string, real>, threshold: real)
    ensures var r := Suggested(missingSkills, sectionScores, threshold);
            && (AlignsWell in r <==> missingSkills == [] && SectionSuggestions(sectionScores, threshold) == [])
            && (AlignsWell in r ==> r == [AlignsWell])
            && (AlignsWell !in r ==> r[SkillCount(missingSkills)..] == SectionSuggestions(sectionScores, threshold))
  {
    var skills := SkillSuggestions(missingSkills);
    var sections := SectionSuggestions(sectionScores, threshold);
    var rules := skills + sections;
    SectionSuggestionsSpec(sectionScores, threshold);
    NoFallbackAmongRules(skills, sections);
    if rules == [] {
      assert |missingSkills| == 0;
      assert Suggested(missingSkills, sectionScores, threshold) == [AlignsWell];
    } else {
      assert Suggested(missingSkills, sectionScores, threshold) == rules;
      assert rules[|skills|..] == sections;
      if missingSkills == [] { assert sections != []; }
    }
  }

  /** Neither a skill suggestion nor a section suggestion is the fallback. */
  lemma NoFallbackAmongRules(skills: seq<Suggestion>, sections: seq<Suggestion>)
    requires forall i :: 0 <= i < |skills| ==> skills[i].AddSkill?
    requires forall i :: 0 <= i < |sections| ==> IsSectionSuggestion(sections[i])
    ensures AlignsWell !in skills + sections
  {
    var rules := skills + sections;
    forall i | 0 <= i < |rules| ensures rules[i] != AlignsWell {
      if i >= |skills| { assert rules[i] == sections[i - |skills|]; }
    }
  }

  /** `generate_suggestions`. */
  method GenerateSuggestions(missingSkills: seq<string>, sectionScores: map<string, real>, threshold: real := 40.0)
    returns (suggestions: seq<Suggestion>)
    ensures suggestions == Suggested(missingSkills, sectionScores, threshold)
  {
    suggestions := [];
    var firstFive := missingSkills[..SkillCount(missingSkills)];
    for i := 0 to |firstFive|
      invariant suggestions == SkillSuggestions(missingSkills)[..i]
    {
      suggestions := suggestions + [AddSkill(firstFive[i])];
    }
    assert SkillSuggestions(missingSkills)[..|firstFive|] == SkillSuggestions(missingSkills);
    ghost var skillPart := suggestions;
    ghost var p := if Weak(sectionScores, "projects", threshold) then [ImproveProjects] else [];
    ghost var e := if Weak(sectionScores, "experience", threshold) then [AlignExperience] else [];
    ghost var k := if Weak(sectionScores, "skills", threshold) then [HighlightSkills] else [];
    if ScoreOf(sectionScores, "projects") < threshold {
      suggestions := suggestions + [ImproveProjects];
    }
    assert suggestions == skillPart + p;
    if ScoreOf(sectionScores, "experience") < threshold {
      suggestions := suggestions + [AlignExperience];
    }
    assert suggestions == skillPart + p + e;
    if ScoreOf(sectionScores, "skills") < threshold {
      suggestions := suggestions + [HighlightSkills];
    }
    assert suggestions == skillPart + p + e + k;
    assert p + e + k == SectionSuggestions(sectionScores, threshold);
    ghost var rules := SkillSuggestions(missingSkills) + SectionSuggestions(sectionScores, threshold);
    assert skillPart == SkillSuggestions(missingSkills);
    assert suggestions == skillPart + (p + e + k);
    assert suggestions == rules;
    if |suggestions| == 0 {
      suggestions := suggestions + [AlignsWell];
      assert rules == [] && suggestions == [AlignsWell];
    }
  }
}

/**
 * The skill-gap analyser of app/utils/skill_gap.py: the terms of a
 * caller-supplied skill list found in the resume and in the job description,
 * compared as sets and reported as three sorted lists.
 */
module SkillGap {
  import opened Text
  import opened StringOrder

  /** The skills `extract_skills_from_text(text, skill_list)` returns: none
      for empty text, otherwise the listed terms occurring in the lower-cased text. */
  function SkillSet(text: string, skillList: seq<string>): (r: set<string>)
    ensures text == "" ==> r == {}
    ensures forall s :: s in r ==> s in skillList
  {
    if text == "" then {} else set s | s in skillList && Contains(Lower(text), s)
  }

  /** `extract_skills_from_text` of skill_gap.py. */
  method ExtractSkillSet(text: string, skillList: seq<string>) returns (found: set<string>)
    ensures found == SkillSet(text, skillList)
    ensures forall s :: s in found <==> text != "" && s in skillList && Contains(Lower(text), s)
  {
    if text == "" {
      return {};
    }
    var lowered := Lower(text);
    found := {};
    for i := 0 to |skillList|
      invariant forall s :: s in found <==> s in skillList[..i] && Contains(lowered, s)
    {
      assert skillList[..i + 1] == skillList[..i] + [skillList[i]];
      if Contains(lowered, skillList[i]) {
        found := found + {skillList[i]};
      }
    }
    assert skillList[..|skillList|] == skillList;
  }

  /** The result of `skill_gap_analysis`. */
  datatype SkillGap = SkillGap(matched: seq<string>, missing: seq<string>, extra: seq<string>)

  /** `skill_gap_analysis`: the skills both texts name, the ones only the job
      description names, and the ones only the resume names, each sorted. */
  function SkillGapAnalysis(resumeText: string, jdText: string, skillList: seq<string>): (r: SkillGap)
    ensures StrictlyAscending(r.matched) && StrictlyAscending(r.missing) && StrictlyAscending(r.extra)
    ensures forall s :: s in r.matched <==> s in SkillSet(resumeText, skillList) && s in SkillSet(jdText, skillList)
    ensures forall s :: s in r.missing <==> s in SkillSet(jdText, skillList) && s !in SkillSet(resumeText, skillList)
    ensures forall s :: s in r.extra <==> s in SkillSet(resumeText, skillList) && s !in SkillSet(jdText, skillList)
  {
    var resume := SkillSet(resumeText, skillList);
    var jd := SkillSet(jdText, skillList);
    SkillGap(SortedList(resume * jd), SortedList(jd - resume), SortedList(resume - jd))
  }

  /** No skill is in two of the three lists. */
  lemma SkillGapDisjoint(resumeText: string, jdText: string, skillList: seq<string>, s: string)
    ensures var r := SkillGapAnalysis(resumeText, jdText, skillList);
            !(s in r.matched && s in r.missing) && !(s in r.matched && s in r.extra) &&
            !(s in r.missing && s in r.extra)
  {
  }

  /** `matched` and `missing` together are the job's skills; `matched` and
      `extra` together are the resume's; every reported skill is a listed one. */
  lemma SkillGapCovers(resumeText: string, jdText: string, skillList: seq<string>, s: string)
    ensures var r := SkillGapAnalysis(resumeText, jdText, skillList);
            (s in r.matched || s in r.missing <==> s in SkillSet(jdText, skillList)) &&
            (s in r.matched || s in r.extra <==> s in SkillSet(resumeText, skillList)) &&
            (s in r.matched || s in r.missing || s in r.extra ==> s in skillList)
  {
  }

  /** Swapping the two texts swaps `missing` and `extra` and keeps `matched`. */
  lemma SkillGapSwap(resumeText: string, jdText: string, skillList: seq<string>)
    ensures var r := SkillGapAnalysis(resumeText, jdText, skillList);
            SkillGapAnalysis(jdText, resumeText, skillList) == SkillGap(r.matched, r.extra, r.missing)
  {
    var resume := SkillSet(resumeText, skillList);
    var jd := SkillSet(jdText, skillList);
    assert jd * resume == resume * jd;
  }

  /** With an empty resume nothing matches, nothing is extra, and everything
      the job names is missing, in sorted order. */
  lemma SkillGapEmptyResume(jdText: string, skillList: seq<string>)
    ensures var r := SkillGapAnalysis("", jdText, skillList);
            r.matched == [] && r.extra == [] && r.missing == SortedList(SkillSet(jdText, skillList))
  {
    var jd := SkillSet(jdText, skillList);
    assert jd - {} == jd;
    assert {} * jd == {};
  }
}

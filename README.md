# Resume matcher text and rule logic, in Dafny

This project models the text and rule logic of a resume/job-description
matching application. There are five parts:

- **Section segmentation** (`SectionExtraction`, section_extraction.py). A heading line is one whose stripped, lower-cased, whitespace-collapsed form starts with one of eleven fixed headings. Headings cut the text into bodies. Each heading becomes a slug key in `[a-z0-9_]`. Keys are then folded onto the names `skills`, `experience` and `education`, with the last write winning. Finally, a `skills` entry is added from the whole text when none exists. The skills of a text are the terms of a fixed vocabulary that occur in it.
- **Text normalisation** (`TextCleaning`, text_cleaning.py). It lower-cases, blanks foreign characters, collapses whitespace, tokenises into runs of `[a-z0-9+#.-]` and drops stopwords and one-character tokens.
- **Skill gap** (`SkillGap`, skill_gap.py). It finds the skills a caller-supplied list shares with each text. It reports `matched`, `missing` and `extra` as sorted lists.
- **Suggestions** (`Suggestions`, suggestions.py). The output is one message per missing skill, up to five. Then comes one message per weak section, checked in a fixed order. A fallback appears when there is nothing to suggest.
- **Explanations** (`Explainability`, explainability.py). A resume is split into sentences after `.`, `!` or `?` followed by whitespace. Sentences of 20 characters or fewer are dropped. The rest are ranked by a per-sentence score with a stable descending sort, and the first `top_k` are kept.

Supporting modules model the Python built-ins the code relies on:

- `Text`: `str.isspace` (the same characters `\s` matches in a `str` pattern: codes 9–13 and 28–32, `\x85`, `\xa0`, U+1680, U+2000–U+200A, U+2028, U+2029, U+202F, U+205F and U+3000), `str.lower`, `strip`, `re.sub(r"\s+", " ", …)`, `in` on strings, `splitlines`, `"\n".join` and `replace("\r\n", "\n")`.
- `StringOrder`: `<` on `str`, and `sorted` of a set of strings.
- `OrderedDict`: a `dict` with insertion order, where assigning an existing key keeps its position, and `dict.fromkeys`.
- `Wrappers`: an `Option` type.

Loops and in-place updates in the source are methods with loop invariants: `FindHeadings`, `MatchesHeading`, `SegmentByHeadings` (its loop in `SegmentBodies`), `ExtractSkills`, `ExtractSections`, `ExtractSkillSet`, `GenerateSuggestions` and `ExplainTopResume`. Each is proved equal to a specification function, and the properties are proved about those functions.

Two behaviours of the code are easy to misread, and the model follows the code in both:

- No rule maps keys that contain "professional" to `experience`. Only "skill", "experience", "employment", "education" and "academic" are looked for in a key. A heading line such as `Projects - Professional` therefore keeps its own key `projects___professional`, and `Professional Experience` lands under `experience` only because its key contains "experience".
- A sentence is kept only when its stripped text is longer than 20 characters, so a sentence of exactly 20 characters is dropped.

## Model

| member | source | states |
|---|---|---|
| SectionExtraction.CommonSkillsDistinct | app/utils/section_extraction.py:19-47 | the skill vocabulary has no repeated term |
| SectionExtraction.NormalizeLine | app/utils/section_extraction.py:52-53 | a line normalises to `""` exactly when it is blank, that is when stripping leaves nothing |
| SectionExtraction.IsHeadingText | app/utils/section_extraction.py:54-57 | definition only: some heading pattern is a prefix of the normalised line, as `re.match` of a `^` pattern tests; `MatchesHeading` and `HeadingsOfListsHeadings` state its use |
| SectionExtraction.IsHeading | app/utils/section_extraction.py:52-57 | definition only: the line's normalised form is heading text |
| SectionExtraction.NormalizedAt | app/utils/section_extraction.py:52-53 | the normalised form of line i is that line stripped, lower-cased and with whitespace runs collapsed to one space |
| SectionExtraction.Normalized | app/utils/section_extraction.py:51-53 | one normalised form per line |
| SectionExtraction.HeadingsIn | app/utils/section_extraction.py:49-58 | no more headings than normalised lines; `HeadingsInAscending` states one per line, in increasing line order |
| SectionExtraction.HeadingsOf | app/utils/section_extraction.py:49-58 | `_find_headings` reports no more headings than there are lines; `HeadingsOfListsHeadings` states one per heading line, in increasing line order |
| SectionExtraction.HeadingsInAscending | app/utils/section_extraction.py:49-58 | headings are reported in strictly increasing line order, all within the text |
| SectionExtraction.HeadingsInSound | app/utils/section_extraction.py:49-58 | every reported heading is a heading line, reported with its normalised text |
| SectionExtraction.HeadingsInComplete | app/utils/section_extraction.py:49-58 | every heading line is reported |
| SectionExtraction.HeadingsInLists | app/utils/section_extraction.py:49-58 | the headings are exactly the heading lines, each once, in line order |
| SectionExtraction.HeadingsInStep | app/utils/section_extraction.py:51-57 | one more line adds one heading exactly when it is a heading line |
| SectionExtraction.HeadingsOfListsHeadings | app/utils/section_extraction.py:49-58 | a line is reported iff its normalised form starts with a heading pattern; at most one entry per line, in increasing line order |
| SectionExtraction.HeadingsOfEmpty | app/utils/section_extraction.py:49-58 | there are no headings iff no line is a heading line |
| SectionExtraction.MatchesHeading | app/utils/section_extraction.py:54-57 | the pattern loop with its early break answers whether some pattern is a prefix of the line |
| SectionExtraction.FindHeadings | app/utils/section_extraction.py:49-58 | the loop computes the specified headings, which list exactly the heading lines in order |
| SectionExtraction.Underscored | app/utils/section_extraction.py:76 | each character outside `[a-z0-9]` becomes `_`, the rest are kept, and the length is unchanged |
| SectionExtraction.SlugKey | app/utils/section_extraction.py:76 | the key is the underscored heading from some index on: it has only `[a-z0-9_]`, no `_` at either end, and every character of the heading cut off before or after it is outside `[a-z0-9]`, so `_`-stripping removed exactly the outer underscores |
| SectionExtraction.SlugAt | app/utils/section_extraction.py:76 | definition only: the key is a slice of the underscored heading, and all heading characters outside the slice are outside `[a-z0-9]` |
| SectionExtraction.NextStart | app/utils/section_extraction.py:69-74 | definition only: `indices[i + 1]`, the next heading's line or the number of lines; `BodyBetweenHeadings` states its bounds |
| SectionExtraction.BodyOf | app/utils/section_extraction.py:73-75 | a body has no whitespace at either end |
| SectionExtraction.SegmentPairs | app/utils/section_extraction.py:71-77 | one assignment per heading, in heading order: the heading's key and its body |
| SectionExtraction.BodyOfSlice | app/utils/section_extraction.py:73-75 | the slice bounds are in range: the line after the heading is at most the next heading's line or the number of lines, which is at most the number of lines; the second clause only spells out `BodyOf` with those bounds |
| SectionExtraction.SegmentBodies | app/utils/section_extraction.py:69-77 | the loop over the headings assigns each heading's key its body, in heading order |
| SectionExtraction.SegmentByHeadings | app/utils/section_extraction.py:60-79 | the loop over the headings builds the specified mapping, which holds each key once |
| SectionExtraction.SegmentsWithoutHeadings | app/utils/section_extraction.py:65-67 | without heading lines, the mapping is the single entry `full` holding the whole text |
| SectionExtraction.Segments | app/utils/section_extraction.py:60-79 | definition only: `{"full": text}` without headings, else the assignments of the loop in order; `SegmentsLastWins` and `SegmentsWithoutHeadings` state its contents |
| SectionExtraction.BodyBetweenHeadings | app/utils/section_extraction.py:69-75 | a body starts after its heading and ends at the next heading line or the end of text; no heading line is inside it, and lines before the first heading belong to no body |
| SectionExtraction.SegmentPairsLastValue | app/utils/section_extraction.py:71-77 | the last assignment under a key comes from the last heading with that key |
| SectionExtraction.SegmentsLastWins | app/utils/section_extraction.py:71-77 | a key is absent iff no heading produces it; otherwise it holds the body of the last heading that produces it |
| SectionExtraction.Hits | app/utils/section_extraction.py:85-87 | a term is found iff it is in the vocabulary and occurs in the lower-cased text |
| SectionExtraction.SkillsIn | app/utils/section_extraction.py:81-89 | definition only: the vocabulary hits in the lower-cased text; `SkillsInSpec` states what they are |
| SectionExtraction.SubsequenceDistinct | app/utils/section_extraction.py:89 | a subsequence of a repetition-free list is repetition-free and draws from it |
| SectionExtraction.SubsequenceAppend | app/utils/section_extraction.py:85-87 | a subsequence stays one when the list grows at the end, with or without the new element |
| SectionExtraction.HitsSubsequence | app/utils/section_extraction.py:85-89 | the found terms keep vocabulary order |
| SectionExtraction.SkillsInSpec | app/utils/section_extraction.py:81-89 | the skills are exactly the vocabulary terms in the lower-cased text, in vocabulary order, without repetitions |
| SectionExtraction.ExtractSkills | app/utils/section_extraction.py:81-89 | the loop and the `dict.fromkeys` step compute those skills |
| SectionExtraction.SectionName | app/utils/section_extraction.py:100-110 | a segment key is stored under `skills`, `experience`, `education` or itself, nothing else |
| SectionExtraction.Canonicalize | app/utils/section_extraction.py:99-110 | a segment is stored under its canonical name with its body, unchanged, as `raw` |
| SectionExtraction.SectionNameSkills | app/utils/section_extraction.py:100-101 | a key is stored under `skills` iff it contains "skill" |
| SectionExtraction.SectionNameIdempotent | app/utils/section_extraction.py:100-110 | the names `skills`, `experience` and `education` are stored under themselves |
| SectionExtraction.CanonicalPairs | app/utils/section_extraction.py:99-110 | one assignment per segment, in segment order, under the segment's canonical name |
| SectionExtraction.CanonicalPairsSkills | app/utils/section_extraction.py:99-110 | an assignment carries a skills list iff it is stored under `skills` |
| SectionExtraction.SectionsOf | app/utils/section_extraction.py:91-116 | definition only: `{}` for empty text, else the canonical assignments of the CRLF-normalised segments, then the inferred `skills` entry when none was stored; `ExtractSections`, `SkillsEntryPresent` and `SectionsLastWins` state its contents |
| SectionExtraction.ExtractSections | app/utils/section_extraction.py:91-116 | the loop and the fallback compute the specified mapping; empty text gives the empty mapping; otherwise keys are distinct and `skills` is present with a skills list |
| SectionExtraction.SkillsEntryPresent | app/utils/section_extraction.py:100-114 | non-empty text always gives a `skills` entry that carries a skills list |
| SectionExtraction.SectionsLastWins | app/utils/section_extraction.py:95-114 | each name holds the last assignment made under it; without a `skills` segment, `skills` has an empty body and the skills of the whole CRLF-normalised text |
| SectionExtraction.FullSection | app/utils/section_extraction.py:99-110 | the segment `full` is stored unchanged under `full`, without a skills list |
| SectionExtraction.FullThenSkills | app/utils/section_extraction.py:112-114 | after `full`, the key `skills` is new, so it is appended after `full` |
| SectionExtraction.SectionsWithoutHeadings | app/utils/section_extraction.py:95-114 | without heading lines the result is `full` (the whole text) followed by the inferred `skills` entry |
| TextCleaning.TokenCharIsNotSpace | app/utils/text_cleaning.py:16 | a token character is neither whitespace nor upper case |
| TextCleaning.IsTokenChar | app/utils/text_cleaning.py:22 | definition only: the class `[a-z0-9+#.-]`; `TokenCharIsNotSpace` states its relation to whitespace and capitals |
| TextCleaning.CleanChar | app/utils/text_cleaning.py:14-16 | a kept character is the lower-cased input character; anything else becomes whitespace |
| TextCleaning.Blank | app/utils/text_cleaning.py:14-16 | blanking works character by character and keeps the length |
| TextCleaning.BlankChars | app/utils/text_cleaning.py:16 | after blanking only token characters and whitespace remain |
| TextCleaning.CollapsedSlice | app/utils/text_cleaning.py:17 | a slice of a string of token characters and single spaces is again such a string |
| TextCleaning.CleanText | app/utils/text_cleaning.py:11-18 | empty input gives `""`; the result has only `[a-z0-9+#.-]` and single spaces, with no space at either end |
| TextCleaning.Tokens | app/utils/text_cleaning.py:22 | a text that starts with a token character has a first token starting with that character |
| TextCleaning.TokensAreRuns | app/utils/text_cleaning.py:22 | every token is a non-empty run of token characters |
| TextCleaning.TokensOfRun | app/utils/text_cleaning.py:22 | a run of token characters is one token, kept whole (`c++`, `c#`, `scikit-learn`) |
| TextCleaning.TokensSplit | app/utils/text_cleaning.py:22 | a non-token character splits the token list in two |
| TextCleaning.TokensAppendSeparator | app/utils/text_cleaning.py:22 | a trailing non-token character adds no token |
| TextCleaning.TokensAgree | app/utils/text_cleaning.py:22 | texts that agree on their token characters have the same tokens |
| TextCleaning.TokensTrimStart | app/utils/text_cleaning.py:17 | leading whitespace does not change the tokens |
| TextCleaning.TokensTrimEnd | app/utils/text_cleaning.py:17 | trailing whitespace does not change the tokens |
| TextCleaning.TokensCollapse | app/utils/text_cleaning.py:17 | collapsing whitespace does not change the tokens |
| TextCleaning.Tokenize | app/utils/text_cleaning.py:20-22 | every token of the lower-cased text is a non-empty run of token characters |
| TextCleaning.TokenizeCleanText | app/utils/text_cleaning.py:11-22 | cleaning and then tokenising finds the same tokens as tokenising the raw text |
| TextCleaning.IsKept | app/utils/text_cleaning.py:5-9 | definition only: the filter `w not in STOP_WORDS and len(w) > 1`, with the 40 stopwords held by the constant `StopWords` |
| TextCleaning.KeepTokens | app/utils/text_cleaning.py:26 | every kept token is at least two characters long, not a stopword, and from the input; every input token that passes the filter is kept |
| TextCleaning.KeepTokensAppend | app/utils/text_cleaning.py:26 | filtering a concatenation filters each part, so the kept tokens keep input order |
| TextCleaning.KeepTokensKept | app/utils/text_cleaning.py:26 | the filter keeps an already filtered list whole |
| TextCleaning.CleanAndRemoveStopwords | app/utils/text_cleaning.py:24-27 | empty input gives `""` |
| TextCleaning.TokensOfJoin | app/utils/text_cleaning.py:27 | joining token runs with single spaces and tokenising gives the runs back |
| TextCleaning.CleanAndRemoveStopwordsTokens | app/utils/text_cleaning.py:24-27 | the output's tokens are exactly the input's tokens that pass the filter, in input order |
| TextCleaning.JoinLowercase | app/utils/text_cleaning.py:27 | the joined output has no upper-case letter |
| TextCleaning.CleanAndRemoveStopwordsIdempotent | app/utils/text_cleaning.py:11-27 | applying the function to its own output changes nothing |
| TextCleaning.CaseInsensitive | app/utils/text_cleaning.py:14-22 | inputs that differ only in ASCII letter case give the same outputs |
| SkillGap.SkillSet | app/utils/skill_gap.py:1-12 | empty text gives no skills; every skill found is from the list |
| SkillGap.ExtractSkillSet | app/utils/skill_gap.py:1-12 | the loop finds exactly the listed terms in the lower-cased non-empty text |
| SkillGap.SkillGapAnalysis | app/utils/skill_gap.py:15-27 | the three lists are strictly ascending and hold the common skills, the job-only skills and the resume-only skills |
| SkillGap.SkillGapDisjoint | app/utils/skill_gap.py:19-21 | no skill is in two of the lists |
| SkillGap.SkillGapCovers | app/utils/skill_gap.py:16-21 | `matched` with `missing` is the job's skills, `matched` with `extra` is the resume's, and all are from the list |
| SkillGap.SkillGapSwap | app/utils/skill_gap.py:15-21 | swapping the texts swaps `missing` and `extra` and keeps `matched` |
| SkillGap.SkillGapEmptyResume | app/utils/skill_gap.py:15-21 | an empty resume matches nothing, has nothing extra, and misses the sorted job skills |
| StringOrder.Less | app/utils/skill_gap.py:19-21 | definition only: `<` on `str`, code point by code point, a proper prefix first; the lemmas below state that it is a strict total order |
| StringOrder.LessIrreflexive | app/utils/skill_gap.py:19-21 | no string is below itself |
| StringOrder.LessTransitive | app/utils/skill_gap.py:19-21 | string order is transitive |
| StringOrder.LessTotal | app/utils/skill_gap.py:19-21 | any two different strings are ordered |
| StringOrder.LessAsymmetric | app/utils/skill_gap.py:19-21 | string order is asymmetric |
| StringOrder.LeastExists | app/utils/skill_gap.py:19-21 | a non-empty set of strings has a least element |
| StringOrder.LeastUnique | app/utils/skill_gap.py:19-21 | the least element is unique |
| StringOrder.LeastUniqueAll | app/utils/skill_gap.py:19-21 | any two least elements are equal |
| StringOrder.Least | app/utils/skill_gap.py:19-21 | the chosen element is the least one |
| StringOrder.SortedList | app/utils/skill_gap.py:19-21 | `sorted` of a set is strictly ascending, with exactly the set's elements |
| StringOrder.SortedListUnique | app/utils/skill_gap.py:19-21 | it is the only strictly ascending list of those elements |
| Suggestions.SkillCount | app/utils/suggestions.py:5 | `missing_skills[:5]` has five entries, or all of them when there are fewer |
| Suggestions.Message | app/utils/suggestions.py:7-29 | a skill message is the fixed 88-character text with the skill inserted after its first 43 characters, so it names exactly that skill; the other messages are the fixed strings |
| Suggestions.ScoreOf | app/utils/suggestions.py:11-21 | definition only: `section_scores.get(name, 100)` |
| Suggestions.Weak | app/utils/suggestions.py:11-21 | definition only: the score, 100 when absent, is below the threshold; `AbsentIsNotWeak` states the absent case |
| Suggestions.SectionSuggestions | app/utils/suggestions.py:11-24 | definition only: one entry per weak section, projects, experience, skills; `SectionSuggestionsSpec` states its properties |
| Suggestions.AbsentIsNotWeak | app/utils/suggestions.py:11-21 | a section with no score counts as 100, so a threshold of at most 100 (the default 40 included) never flags it |
| Suggestions.SectionSuggestionsSpec | app/utils/suggestions.py:11-24 | at most three entries: projects, experience, skills, in that order, each iff its score is below the threshold |
| Suggestions.SkillSuggestions | app/utils/suggestions.py:5-8 | one entry per skill of `missing_skills[:5]`, in order, naming that skill |
| Suggestions.Suggested | app/utils/suggestions.py:1-32 | definition only: the skill entries, then the section entries, or the fallback alone; `SuggestedSpec` and `SuggestedFallback` state its properties |
| Suggestions.SuggestedSpec | app/utils/suggestions.py:1-24 | never empty and at most 8 entries; the first are the skill entries of `missing_skills[:5]`, in order, and no later entry names a skill |
| Suggestions.SuggestedFallback | app/utils/suggestions.py:27-30 | the fallback appears iff no skill is missing and no section is weak, and then alone; otherwise the section entries follow the skill entries |
| Suggestions.GenerateSuggestions | app/utils/suggestions.py:1-32 | the loop and the three checks build exactly the specified list |
| Explainability.SplitFrom | app/utils/explainability.py:17 | the first cut at or after a position: a terminator followed by whitespace, with no cut before it |
| Explainability.IsTerminator | app/utils/explainability.py:17 | definition only: the class `[.!?]` of the look-behind |
| Explainability.SplitsAt | app/utils/explainability.py:17 | definition only: the text is cut at `i` when a terminator precedes it and whitespace follows; `SplitFrom` and `SplitStep` state how cuts split the text |
| Explainability.SplitStep | app/utils/explainability.py:17 | at a cut, the text is the head, then the whole whitespace run, then the rest; the head ends with a terminator and has no cut |
| Explainability.SplitPiecesInterleave | app/utils/explainability.py:17 | the pieces with the separators between them give back the text |
| Explainability.SeparatorsAreWhitespace | app/utils/explainability.py:17 | every separator is a non-empty whitespace run |
| Explainability.SplitPieces | app/utils/explainability.py:17 | the split always yields at least one piece |
| Explainability.SplitPiecesEndWithTerminator | app/utils/explainability.py:17 | every piece but the last ends with a terminator |
| Explainability.SplitPiecesNoCut | app/utils/explainability.py:17 | no piece contains a terminator followed by whitespace |
| Explainability.SplitPiecesTrimmed | app/utils/explainability.py:17 | no piece after the first starts with whitespace, since the whole run is the separator |
| Explainability.Sentences | app/utils/explainability.py:18 | there are at most as many sentences as pieces, and every sentence is longer than 20 characters |
| Explainability.SentencesStripped | app/utils/explainability.py:18 | no sentence has whitespace at either end |
| Explainability.SentencesMembers | app/utils/explainability.py:18 | a sentence is exactly a stripped piece longer than 20 characters |
| Explainability.SentencesAreLongOnes | app/utils/explainability.py:18 | the sentences are the stripped pieces filtered by length, as the comprehension reads |
| Explainability.KeptAtIncreasing | app/utils/explainability.py:18 | the kept positions lie within the list and increase |
| Explainability.LongOnesInOrder | app/utils/explainability.py:18 | the k-th string the length filter keeps is the one at the k-th kept position |
| Explainability.SentencesInOrder | app/utils/explainability.py:18 | sentence k is the stripped piece at the k-th kept position, so sentences keep text order |
| Explainability.StripKeepsNoCut | app/utils/explainability.py:18 | stripping a piece creates no cut |
| Explainability.SentencesHaveNoCut | app/utils/explainability.py:17-18 | sentences of cut-free pieces are cut-free |
| Explainability.SplitIntoSentences | app/utils/explainability.py:14-18 | empty text gives no sentences; every sentence is longer than 20 characters |
| Explainability.SplitIntoSentencesStripped | app/utils/explainability.py:14-18 | every sentence of a text has no whitespace at either end |
| Explainability.SplitIntoSentencesSpec | app/utils/explainability.py:14-18 | a sentence is exactly a stripped piece of a non-empty text longer than 20 characters; no sentence holds a terminator followed by whitespace |
| Explainability.SingleSentence | app/utils/explainability.py:17-18 | a text without a cut is one piece and gives at most one sentence, itself stripped |
| Explainability.ScoreAll | app/utils/explainability.py:31-34 | each sentence is paired with its own score, in sentence order |
| Explainability.WithScoreAppend | app/utils/explainability.py:33-37 | picking the entries of one score distributes over concatenation |
| Explainability.Insert | app/utils/explainability.py:33-37 | inserting adds one entry |
| Explainability.InsertPermutes | app/utils/explainability.py:33-37 | inserting adds exactly the new entry |
| Explainability.InsertOrdered | app/utils/explainability.py:33-37 | inserting into a best-first list keeps it best first |
| Explainability.InsertStable | app/utils/explainability.py:33-37 | the new entry lands before the entries with the same score |
| Explainability.SortByScore | app/utils/explainability.py:33-37 | sorting keeps the length |
| Explainability.SortByScoreOrdered | app/utils/explainability.py:33-37 | the sort is best first |
| Explainability.SortByScorePermutes | app/utils/explainability.py:33-37 | the sort is a permutation |
| Explainability.SortByScoreSpec | app/utils/explainability.py:33-37 | the sort is best first and a permutation |
| Explainability.SortByScoreStable | app/utils/explainability.py:33-37 | the sort is stable: for each score, the entries with that score keep their order |
| Explainability.SliceEnd | app/utils/explainability.py:40 | the length of `xs[:top_k]` for any integer `top_k`, negative ones included |
| Explainability.Percent | app/utils/explainability.py:41-44 | each reported entry keeps its sentence and scales its score by 100 |
| Explainability.FirstRankedOrdered | app/utils/explainability.py:33-40 | a prefix of the ranking is best first and drawn from the scored sentences |
| Explainability.FirstRankedDominate | app/utils/explainability.py:33-40 | nothing outside a prefix of the ranking scores above anything in it |
| Explainability.FirstRankedKeepTies | app/utils/explainability.py:33-40 | per score, a prefix of the ranking keeps the earliest such sentences, in order |
| Explainability.TopSpec | app/utils/explainability.py:24-40 | `top_k` entries as Python slices them, none when no sentence survives; best first; each is a sentence with its own score |
| Explainability.Top | app/utils/explainability.py:24-40 | definition only: the first `top_k` of the ranked, scored sentences; `TopSpec`, `TopIsBest` and `TopKeepsTies` state its properties |
| Explainability.TopIsBest | app/utils/explainability.py:33-40 | no sentence left out scores above a reported one |
| Explainability.TopKeepsTies | app/utils/explainability.py:33-40 | among equal scores, the earlier sentences are reported, in text order |
| Explainability.PercentOrdered | app/utils/explainability.py:41-44 | scaling keeps the results best first |
| Explainability.ExplainTopResume | app/utils/explainability.py:21-46 | the method returns the specified top entries, in percent |
| OrderedDict.Keys | app/utils/section_extraction.py:99 | the keys of a dict, in insertion order |
| OrderedDict.IndexOf | app/utils/section_extraction.py:77 | the first position that holds a key |
| OrderedDict.IndexOfIsFirst | app/utils/section_extraction.py:77 | a position with the key and none before it is that first position |
| OrderedDict.Lookup | app/utils/section_extraction.py:112 | a key is absent iff it is not among the keys; otherwise its value is stored under it |
| OrderedDict.Put | app/utils/section_extraction.py:77 | assigning an existing key keeps the key list; a new key is appended with its value |
| OrderedDict.PutDistinct | app/utils/section_extraction.py:77 | assigning keeps the keys distinct, and an existing key's entry is replaced in its place, the others unchanged |
| OrderedDict.PutLookup | app/utils/section_extraction.py:77 | after assigning, the key holds the value |
| OrderedDict.FromPairs | app/utils/section_extraction.py:71-77 | successive assignments give distinct keys, exactly the assigned ones |
| OrderedDict.FromPairsStep | app/utils/section_extraction.py:77 | one more assignment is one more `Put` |
| OrderedDict.LastValue | app/utils/section_extraction.py:99-110 | the value of the last assignment under a key |
| OrderedDict.FromPairsLookup | app/utils/section_extraction.py:77 | last write wins: each key holds its last assigned value |
| OrderedDict.FromPairsKeyOrder | app/utils/section_extraction.py:77 | keys keep the position of their first assignment |
| OrderedDict.FirstKeysOfDistinct | app/utils/section_extraction.py:89 | with no repeated key, the first-assignment order is the assignment order |
| OrderedDict.FromKeys | app/utils/section_extraction.py:89 | `dict.fromkeys` has distinct keys |
| OrderedDict.FromKeysOfDistinct | app/utils/section_extraction.py:89 | `list(dict.fromkeys(s))` is `s` when `s` has no repetitions |
| Text.IsSpace | app/utils/section_extraction.py:52-53 | definition only: the characters `str.isspace` accepts, which are also those `\s` matches |
| Text.LowerChar | app/utils/text_cleaning.py:14 | a capital `A`–`Z` becomes the letter 32 code points up, `a`–`z`; other characters are unchanged; the result is never a capital, and whitespace stays whitespace |
| Text.Lower | app/utils/text_cleaning.py:14 | `lower` works character by character and keeps the length |
| Text.LowerOfLowercase | app/utils/text_cleaning.py:14 | lower-casing text without capitals changes nothing |
| Text.TrimStart | app/utils/section_extraction.py:52 | what is left does not start with a dropped character |
| Text.TrimStartSpec | app/utils/section_extraction.py:52 | `lstrip` keeps a suffix and removes only dropped characters |
| Text.TrimEnd | app/utils/section_extraction.py:52 | what is left does not end with a dropped character |
| Text.TrimEndSpec | app/utils/section_extraction.py:52 | `rstrip` keeps a prefix and removes only dropped characters |
| Text.Strip | app/utils/section_extraction.py:52 | `strip` never lengthens the text |
| Text.StripEnds | app/utils/section_extraction.py:52 | `strip` leaves no whitespace at either end |
| Text.StripSlice | app/utils/section_extraction.py:52 | `strip` leaves a contiguous slice of its input |
| Text.StripUnchanged | app/utils/section_extraction.py:52 | text without whitespace at its ends is unchanged by `strip` |
| Text.Collapse | app/utils/section_extraction.py:53 | collapsing whitespace leaves the text empty iff it was empty |
| Text.CollapseSpec | app/utils/section_extraction.py:53 | the non-whitespace characters are kept, in order, and none is added; every other output character is a single space, no two spaces are adjacent, and the first character is kept or becomes a space |
| Text.CollapseNonSpace | app/utils/section_extraction.py:53 | the non-whitespace characters of the text survive collapsing in order, and no other non-whitespace character appears |
| Text.CollapseAppend | app/utils/section_extraction.py:53 | collapsing works piece by piece across a cut that follows a non-whitespace character |
| Text.CollapseLeadingRun | app/utils/section_extraction.py:53 | a leading whitespace run becomes one space |
| Text.CollapseRun | app/utils/section_extraction.py:53 | each maximal whitespace run becomes exactly one space, and the text on either side is collapsed on its own |
| Text.CollapseUnchanged | app/utils/text_cleaning.py:17 | already collapsed text is unchanged |
| Text.Contains | app/utils/section_extraction.py:86 | definition only: `pattern in s`, a prefix match at the front or further on; `ContainsIff` states its meaning |
| Text.ContainsIff | app/utils/section_extraction.py:86 | `pattern in s` iff the pattern occurs at some index |
| Text.NotContainsLonger | app/utils/section_extraction.py:100 | no string contains a longer pattern |
| Text.NotContainsFirstChar | app/utils/section_extraction.py:100 | no string contains a pattern whose first character it lacks |
| Text.ContainsInExtension | app/utils/section_extraction.py:86 | an occurrence survives any extension of the text |
| Text.IsLineBreak | app/utils/section_extraction.py:61 | definition only: the boundaries `str.splitlines` splits at |
| Text.Join | app/utils/section_extraction.py:75 | definition only: `sep.join(parts)`; `TokensOfJoin` and `BodyOfSlice` state its use |
| Text.LineEnd | app/utils/section_extraction.py:61 | the first line ends at the first line boundary, or at the end |
| Text.BreakLength | app/utils/section_extraction.py:61 | a boundary is one character long, and two exactly for `\r\n` |
| Text.SplitLines | app/utils/section_extraction.py:61 | `splitlines` gives no lines for empty text only, and no line contains a boundary |
| Text.SplitLinesUnlines | app/utils/section_extraction.py:61 | lines free of boundaries, each ended by a line feed, split back into themselves |
| Text.LineEndAfter | app/utils/section_extraction.py:61 | the first line of a text that starts with a boundary-free line ended by a boundary is that line |
| Text.ReplaceCrLf | app/utils/section_extraction.py:95 | replacing `\r\n` never lengthens the text, keeps it non-empty, only keeps its own characters, and leaves text without `\r` alone |

## Left out

- Whitespace (`\s`, `str.strip`, `str.isspace`) and the `splitlines` boundaries are fixed code-point lists taken from the Unicode tables current Python versions use. A later Unicode version that changes those tables is not followed.
- `lower` changes only ASCII capitals. Unicode case mapping is not modelled.
- The regular-expression engine is not modelled. Each pattern (`\s+`, the character classes, `^heading`, `(?<=[.!?])\s+`) is written out as character predicates and recursion.
- `get_model`, the SentenceTransformer `encode` calls, `cosine_similarity` and the `_model` cache are foreign code and are left out. The per-sentence score is the parameter `similarity(sentence, jd_text)`. A sentence's score thus depends only on the sentence and the job description.
- Explainability.Percent: scores are scaled by 100, but `round(…, 2)` is not modelled. Scores are exact reals, not floating point.
- `defaultdict(list)` in `segment_by_headings` is modelled as an ordinary ordered dict. Its default value is never read.
- Message strings are produced by `Suggestions.Message` from a `Suggestion` value. The rules are stated over the `Suggestion` values.
- Text.ReplaceCrLf: no round-trip property is stated. As in Python, `"\r\r\n"` becomes `"\r\n"`, so the result can still contain `\r\n`.
- The other application files (UI, PDF parsing, TF-IDF and embedding scoring, charts) are not part of this model.

# Assessment marking rules, modelled in Dafny

This project models the deterministic rule layer of the `AssessmentAI` marking engine in
`ai_marking.py`, and proves properties of it. The engine reads a teacher's assessment brief and
marking rubric, marks a student submission against the rubric's criteria, and summarises a
cohort of marked submissions into analytics and teaching recommendations.

The language-model parts are parameters of the model: sentence segmentation, noun chunks,
token counts, topic similarity and keyword extraction. So is the HTTP/HTML fetch of a cited
page. Everything the engine decides from their outputs is modelled with the source's
branches, thresholds, texts and orderings:

- `Brief` covers `process_assessment_brief`. It sorts the brief's sentences into the
  requirement, learning-outcome and submission buckets by case-insensitive cue phrases. The
  key topics are up to ten distinct lower-cased multi-word noun chunks.
- `Rubric` covers `process_rubric`. There are three criteria tiers: the weighted-header pass
  (a parameter), the blank-line paragraph pass, and the fixed default set. The grade
  boundaries come from `Boundaries`.
- `Boundaries` covers `_extract_grade_boundaries`. It models both regular expressions as
  deterministic matchers: the labelled `Grade A: 70-100` scan over nine labels, and the
  generic `70-79% = A` scan that runs only when the first scan found nothing.
- `Urls` covers `extract_urls`, which is the URL regular expression followed by a `urlparse`
  scheme-and-host check. It also covers `analyze_url_content` and the five-URL cap.
- `Scoring` covers `_calculate_criterion_relevance`, Python's half-to-even `round`,
  `_generate_criterion_feedback`, `_calculate_topic_coverage` and `_determine_grade`.
- `Marking` covers `mark_student_work`, which combines all of the above, and
  `_generate_overall_feedback`.
- `Analytics` covers `generate_analytics`: the average, the grade distribution, the
  per-criterion averages, strengths, weaknesses and word and URL statistics.
- `Recommendations` covers `generate_recommendations`.
- `Text` gives the Python string built-ins the rules rely on (`strip`, `split`, `lower`,
  `in`, `int`, `str`). `OrderedMap` gives dictionaries in insertion order. `Wrappers`
  gives `Option` and `Result`.

Percentages are `real`s, so float rounding error is not modelled. Python's `round` is modelled
exactly, rounding halves to the even neighbour: a relevance of 0.45 scores 4, not 5.

The generic boundary scan reads at most two digits per number. So a line such as
`70-100% = A` produces no entry. A leading three-digit number is read as its last two digits:
no match starts at the `1` of `100-79% = A`, and the match that starts at `00` gives `A`
the pair (0, 79) (`HundredLineExample`).

## Model

| member | source | states |
|---|---|---|
| Text.Strip | ai_marking.py:64 | `str.strip()`: the result is the slice between the leading and trailing whitespace; it is empty exactly when the text is all whitespace, and otherwise starts and ends with non-whitespace |
| Text.Words | ai_marking.py:79 | `str.split()`: every word is non-empty and holds no whitespace, and there are no words exactly when the text is all whitespace |
| Text.WordSpansAreRuns | ai_marking.py:79 | each word span is a maximal run of non-whitespace: non-empty, with no whitespace inside, and with whitespace or an end of the text on each side |
| Text.WordSpansEnds | ai_marking.py:79 | the text before the first word span and after the last is all whitespace, and the whole text is when there is no span |
| Text.WordSpansBetween | ai_marking.py:79 | consecutive word spans are separated by a non-empty stretch of whitespace and nothing else |
| Text.WordsAreRuns | ai_marking.py:79 | `split()` returns one word per span, in order, each the text of its span; so the words are exactly the maximal non-whitespace runs, and their count is the number of runs |
| Text.SplitOn | ai_marking.py:123 | `split('\n\n')` gives at least one piece, and no piece contains the separator |
| Text.JoinSplitOn | ai_marking.py:123 | splitting on a separator and joining the pieces back with it gives the original text |
| Text.DigitsValueNatToString | ai_marking.py:584 | the decimal text of a count reads back as that count |
| OrderedMap.Put | ai_marking.py:623 | `d[k] = v` keeps the key order, appends a new key at the end, and never duplicates a key |
| OrderedMap.GetPut | ai_marking.py:623 | after `d[k] = v`, `k` looks up `v` and every other key keeps its value |
| Brief.Bucket | ai_marking.py:63-76 | a stripped sentence is in a bucket exactly when it mentions one of that bucket's cue phrases, ignoring case |
| Brief.TopicCandidates | ai_marking.py:79-80 | every multi-word chunk longer than five characters contributes its lower-cased text, and nothing else is a candidate |
| Brief.TakeDistinct | ai_marking.py:80 | `list(set(...))[:10]`: distinct values drawn from the input, at most the cap, and every value when fewer than the cap are distinct |
| Brief.KeyTopics | ai_marking.py:79-80 | the key topics are distinct candidates, at most ten, and all candidates when there are fewer than ten distinct ones |
| Brief.FilterMentionsAppend | ai_marking.py:63-76 | filtering sentences by cue phrases keeps their order and multiplicity: filtering two lists joined is joining their filtered lists |
| Brief.ProcessBrief | ai_marking.py:45-88 | a stripped sentence is in each bucket exactly when it mentions one of that bucket's cue phrases; the key topics are distinct, at most ten, each the lower-cased text of a multi-word noun chunk longer than five characters, and every such chunk is a topic when there are fewer than ten; the text is kept |
| Rubric.Flush | ai_marking.py:129-136 | saving the pending criterion adds nothing when its name is empty (Python truthiness), and otherwise adds one criterion weighted 25 |
| Rubric.ParagraphLoop | ai_marking.py:118-152 | every criterion of the paragraph pass weighs 25, has a non-empty name and carries the keywords of its own description |
| Rubric.ParagraphLoopSections | ai_marking.py:118-152 | the paragraph loop equals an independent description: the pending criterion completed with the paragraphs before the next header, then one criterion per named header section |
| Rubric.ParagraphCriteriaAreSections | ai_marking.py:118-152 | the paragraph pass yields exactly one criterion per header with a non-empty name, in order, each described by the paragraphs up to the next header |
| Rubric.SelectCriteria | ai_marking.py:106-183 | the first tier that found something wins, the defaults apply only when both passes found nothing, and there is always at least one criterion |
| Rubric.ProcessRubric | ai_marking.py:90-192 | there is at least one criterion; the weighted pass wins when it finds any, then the paragraph pass, whose criteria are exactly one per named header section, and otherwise the four fixed defaults; the boundaries are those of `_extract_grade_boundaries` |
| Rubric.DefaultsExactlyWhenNothingParsed | ai_marking.py:155-183 | the default criteria appear if and only if neither pass found a criterion |
| Boundaries.NumberAt | ai_marking.py:223 | `\d+`: there is a match exactly when a digit is there, and it takes the whole digit run |
| Boundaries.KeywordEnd | ai_marking.py:223 | the keyword `Grade` or `Mark` under IGNORECASE matches exactly when either word is there in any case |
| Boundaries.KeywordEndAt | ai_marking.py:223 | a `Grade` in any case ends the keyword five characters on, and a `Mark` four |
| Boundaries.SearchLabelled | ai_marking.py:237 | `re.search`: the match found is the leftmost, and no labelled match starts earlier |
| Boundaries.LabelledPair | ai_marking.py:238-242 | a range `N-M` is stored as (N, M) and a single number N as (N, N), reading the digits as decimal |
| Boundaries.Searches | ai_marking.py:236-237 | one `re.search` per grade label, in the labels' order, each giving that label's pair from its leftmost labelled match, or none |
| Boundaries.LabelledScan | ai_marking.py:236-242 | the keys are the earlier keys followed by the labels that matched, in scan order; each label looks up its own search result, every other key keeps its value, and no key repeats |
| Boundaries.LabelledBoundaries | ai_marking.py:222-242 | the keys are exactly the labels whose pattern matches, in the order of the nine labels, and each holds the pair of its leftmost match |
| Boundaries.LabelledRangeExample | ai_marking.py:223-242 | `Grade A: 70-100` stores `A` ↦ (70, 100) |
| Boundaries.ShortNumberAt | ai_marking.py:246 | `(\d{1,2})` where a separator can follow: the match is the whole digit run, and there is none exactly when no digit is there or the run is longer than two digits |
| Boundaries.SeparatorEnd | ai_marking.py:246 | the separator matches exactly when a `-` or a `to` is there, and ends after it |
| Boundaries.GradeWordAt | ai_marking.py:246 | `([A-Za-z]+)`: the grade word is a maximal run of ASCII letters ending where the match ends |
| Boundaries.RangeMatchAt | ai_marking.py:246 | a match starts with its first number, of one or two digits and not followed by a further digit, and ends with its grade word, a maximal run of ASCII letters; there is none where no such number starts |
| Boundaries.RangeLineAt | ai_marking.py:246 | every text of the form `N-M% = W`, with one or two digits per number and a maximal letter word W, matches with exactly those three parts |
| Boundaries.HundredLineExample | ai_marking.py:246-249 | in `100-79% = A` no match starts at the `1`; the match that starts at `00` has grade word `A` and the pair (0, 79) |
| Boundaries.RangeMatches | ai_marking.py:247 | `re.finditer`: the matches in text order, each the pattern's match at its start, with scanning resumed at the previous match's end |
| Boundaries.RangeMatchesComplete | ai_marking.py:247 | every listed match is the pattern's match at its start, and every position where the pattern matches lies inside a listed match |
| Boundaries.StoreMatches | ai_marking.py:247-249 | the keys are the earlier keys followed by the newly matched words in order of first match; each matched word holds the two-digit pair of its last match, every other key keeps its value, and no key repeats |
| Boundaries.ExtractGradeBoundaries | ai_marking.py:220-251 | the labelled result whenever it is non-empty; otherwise the keys are the matched grade words in order of first appearance, each holding the two-digit pair of its last match |
| Boundaries.LabelsDistinct | ai_marking.py:222-232 | the nine grade labels are distinct |
| Urls.HostEnd | ai_marking.py:264 | the host part of the URL pattern stops exactly at a character that is neither a host character nor a `%XX` escape |
| Urls.UrlEndAt | ai_marking.py:264 | every match is URL-shaped, and there is none exactly when no `http://` or `https://` starts there or no host character follows it |
| Urls.UrlSpans | ai_marking.py:267 | `re.findall`: the matches lie inside the text, are URL-shaped and do not overlap |
| Urls.UrlSpansComplete | ai_marking.py:264-267 | every span is the pattern's match at its start, and every position where the pattern matches lies inside a span |
| Urls.UrlCandidates | ai_marking.py:267 | each candidate is the text of its match span |
| Urls.UrlShapedValid | ai_marking.py:270-275 | every URL-shaped text has a scheme and a network location under `urlparse` |
| Urls.CandidatesAllValid | ai_marking.py:253-279 | the `urlparse` check never rejects a match, so `extract_urls` returns exactly the regular-expression matches |
| Urls.ExtractUrlsFacts | ai_marking.py:253-279 | each extracted URL starts with `http://` or `https://`, occurs in the text at its match position, and they come in order without overlapping |
| Urls.NoHttpNoUrls | ai_marking.py:264-279 | a text in which `http` does not occur yields no URLs |
| Urls.ParenthesisedUrl | ai_marking.py:264-279 | a parenthesised URL in text with no other `h` is extracted without the closing parenthesis |
| Urls.EssayReference | test_end_to_end.py:260-263 | the closing words of the test essay yield exactly `https://www.educationaccessibility.org/ai-tools` |
| Urls.ContentSample | ai_marking.py:331 | the sample is the content up to 500 characters, or its first 500 characters followed by `...` |
| Urls.AnalyzeUrl | ai_marking.py:281-346 | a failed fetch gives the error record; otherwise phrases and entities are present exactly when the page has paragraph text, at most ten of each, and phrases are multi-word |
| Urls.AnalyzeUrls | ai_marking.py:364-367 | only the first five URLs are analysed, one record each, in order |
| Scoring.CountFoundAll | ai_marking.py:486-488 | the keyword count reaches the number of keywords exactly when every keyword occurs in the lower-cased text |
| Scoring.CountFoundNone | ai_marking.py:486-488 | the keyword count is zero exactly when no keyword occurs |
| Scoring.CountFoundMonotone | ai_marking.py:486-488 | a text that contains every keyword another text contains counts at least as many |
| Scoring.Clamp | ai_marking.py:494 | the result lies in [0.3, 0.9] and equals the input when the input is already in range |
| Scoring.Relevance | ai_marking.py:478-494 | 0.5 without keywords; otherwise the share of keywords found, raised to 0.3 below it and lowered to 0.9 above it; so 0.9 when every keyword is found and 0.3 when none is |
| Scoring.RelevanceMonotone | ai_marking.py:478-494 | a text that finds every keyword another text finds is at least as relevant |
| Scoring.RoundHalfEven | ai_marking.py:400 | Python `round`: within a half of the input, and even on a tie |
| Scoring.RoundHalfEvenUnique | ai_marking.py:400 | those two properties determine the rounded value uniquely |
| Scoring.HalfRoundsToEven | ai_marking.py:400 | 4.5 rounds to 4 and 5.5 rounds to 6 |
| Scoring.CriterionScore | ai_marking.py:396-400 | the score is ten times the relevance rounded to the nearest integer, even on a tie; so between 3 and 9, and 5 without keywords |
| Scoring.CriterionFeedback | ai_marking.py:496-518 | there is no strength exactly below 40%, no weakness exactly from 80%, and the exact texts of each band and the suggestion |
| Scoring.FeedbackMonotone | ai_marking.py:496-518 | every criterion gets a strength or a weakness; a higher score never loses a strength nor gains a weakness |
| Scoring.CoveredLoopExists | ai_marking.py:460-474 | the inner loop with its early `break` covers a brief topic exactly when some student topic contains it, is contained in it, or is more than 0.7 similar |
| Scoring.CountCoveredAll | ai_marking.py:458-474 | all brief topics are counted exactly when each one is covered |
| Scoring.TopicCoverage | ai_marking.py:453-476 | 1.0 without brief topics, otherwise the share of brief topics covered, in [0, 1], and 0 when the student work has no topics |
| Scoring.TopicCoverageComplete | ai_marking.py:453-476 | coverage is 1.0 exactly when every brief topic is covered by some student topic |
| Scoring.FirstContaining | ai_marking.py:532-534 | the first boundary in insertion order whose inclusive range holds the percentage, or none exactly when no range holds it |
| Scoring.DetermineGrade | ai_marking.py:520-547 | with rubric boundaries, the grade is the first boundary holding the percentage, or the fallback ladder when none does |
| Scoring.DefaultsAgreeWithLadder | ai_marking.py:522-547 | with no rubric boundaries the default table and the ladder agree on every percentage, including the gaps between integer ranges |
| Scoring.GapFallsToLadder | ai_marking.py:522-547 | 79.5 grades B and 49.5 grades F |
| Marking.StudentTopics | ai_marking.py:378-379 | a topic is the lower-cased text of a multi-word noun chunk whose root is a noun, and every such chunk gives one |
| Marking.AverageSentenceLength | ai_marking.py:375 | words divided by sentences, and 0 with no sentences |
| Marking.MarkCriterion | ai_marking.py:386-412 | each mark keeps the criterion's name, is out of 10, scores 3 to 9 and carries that score's feedback |
| Marking.MarkCriteria | ai_marking.py:386-419 | the marks are parallel to the rubric criteria: same number, order and names |
| Marking.TotalBounds | ai_marking.py:418-419 | the total lies between 3 and 9 per criterion, and the maximum is 10 per criterion |
| Marking.Percentage | ai_marking.py:422 | the percentage times the maximum is the total times 100, and 0 when there is nothing to mark |
| Marking.PercentageBounds | ai_marking.py:386-422 | with at least one criterion the percentage lies within [30, 90] |
| Marking.Strengths | ai_marking.py:553-557 | the strengths are exactly the criteria's present strengths, and there are none exactly when no criterion has one |
| Marking.StrengthsAppend | ai_marking.py:553-557 | strengths keep the criteria's order and multiplicity: those of two mark lists joined are the two lists' strengths joined |
| Marking.Areas | ai_marking.py:553-560 | the areas for improvement are exactly the criteria's present weaknesses, and there are none exactly when no criterion has one |
| Marking.AreasAppend | ai_marking.py:553-560 | areas keep the criteria's order and multiplicity: those of two mark lists joined are the two lists' areas joined |
| Marking.SourcesRemark | ai_marking.py:583-584 | the sources sentence is absent exactly when no URL was analysed, and otherwise its number reads back as the count |
| Marking.OverallFeedbackOf | ai_marking.py:549-600 | the two standing recommendations come first, and the third appears exactly when there is an area for improvement |
| Marking.NoAreasIffAllExcellent | ai_marking.py:386-412 | a marked submission has no area for improvement exactly when every criterion scores at least 8 of 10 |
| Marking.MarkStudentWork | ai_marking.py:348-451 | marks parallel to the criteria, total and maximum as sums, percentage 0 or within [30, 90], grade from the boundaries, URL count of all extracted URLs, at most five analyses, coverage in [0, 1], and the average sentence length as words over sentences, 0 with no sentences |
| Analytics.DistributionCounts | ai_marking.py:620-623 | each grade's count is its starting count plus its number of occurrences |
| Analytics.IncrementSum | ai_marking.py:623 | one more grade raises the total of the counts by one |
| Analytics.DistributionSum | ai_marking.py:620-623 | the counts add up to the number of grades |
| Analytics.PercentagesOf | ai_marking.py:627-638 | a name has no percentages exactly when no criterion mark carries it |
| Analytics.GroupHolds | ai_marking.py:627-638 | each name's list holds exactly the percentages recorded under that name, in order |
| Analytics.Strong | ai_marking.py:646-649 | a criterion is a strength exactly when its average is at least 70 |
| Analytics.Weak | ai_marking.py:646-651 | a criterion is a weakness exactly when its average is at most 50 |
| Analytics.StrongWeakDisjoint | ai_marking.py:646-651 | no criterion is both a strength and a weakness |
| Analytics.MinOf | ai_marking.py:656 | the minimum is a member and at most every word count |
| Analytics.MaxOf | ai_marking.py:657 | the maximum is a member and at least every word count |
| Analytics.MeanBetween | ai_marking.py:654-657 | the minimum word count is at most the average, which is at most the maximum |
| Analytics.GenerateAnalytics | ai_marking.py:602-684 | an error exactly for no results; otherwise the count, a distribution summing to it, the per-criterion averages with strengths at least 70 and weaknesses at most 50, the means of the percentages, word counts and URL counts, and the least and greatest word count |
| Analytics.GradeCountsExact | ai_marking.py:620-623 | each grade's count in the distribution is the number of results with that grade |
| Analytics.DistributionKeys | ai_marking.py:620-623 | counting creates a key only by incrementing it: the keys are the starting keys and the grades counted |
| Analytics.GradeKeysExact | ai_marking.py:620-623 | the distribution has a key exactly for each grade some result has, and every key's count is positive |
| Analytics.CriterionAverageExact | ai_marking.py:626-641 | each criterion's average is the mean of the percentages recorded under its name |
| Recommendations.AssessmentItems | ai_marking.py:717-730 | at most one assessment item: none exactly for 60–80%, high priority exactly below 60% |
| Recommendations.WordCountItems | ai_marking.py:732-739 | the brief-submissions item appears exactly when the average word count is below 500 |
| Recommendations.UrlItems | ai_marking.py:741-748 | the few-sources item appears exactly when the average URL count is below 2 |
| Recommendations.GenerateRecommendations | ai_marking.py:686-762 | the error record yields only the not-enough-data item; otherwise one content item per weakness in order, then the assessment, word-count and source items in that order, each with its condition and priority, and the example-work and peer-review items last |
| Recommendations.CountKindAppend | ai_marking.py:696-762 | counting a kind over two lists adds the counts |
| Recommendations.KindCounts | ai_marking.py:686-762 | per kind: one content item per weakness, one assessment item exactly outside 60–80%, one to three guidance items, one activity, no general item |

## Left out

- The language model is left out. Its outputs are function parameters: sentence segmentation, noun chunks and whether a chunk's root is a noun, alphabetic-token and sentence counts, named entities, and `Doc.similarity`. So is `_extract_keywords` (`Rubric.KeywordExtractor`). Their internals are statistical and not part of the rules.
- The weighted-header pass of `process_rubric` (`Name (40%): ...`) is the `weighted` parameter of `Rubric.ProcessRubric`. Its keywords come from the language model, and its lazy regular expression with lookahead is not modelled.
- The HTTP request, the timeout, HTML parsing and `soup.title.string` are the `fetch` parameter of `Urls.AnalyzeUrl`. A title element without a string, which Python reports as `None`, is not distinguished from a present title.
- The module-level model and corpus downloads, the TF-IDF vectorizer set up in `__init__`, and the Flask and database layers around the engine are not part of this model.
- Python's `\w`, `\d` and `str.lower` are modelled on ASCII. Non-ASCII letters and digits, and `lower` on non-ASCII letters, are not modelled. The case-insensitive cue and label matching does include the non-ASCII letters Python treats as case variants of `i`, `k` and `s`.
- `urlparse` is modelled only as far as the scheme and the network location. Its error paths cannot be reached from a match of the URL pattern.
- Brief.KeyTopics: `list(set(...))` orders topics by string hash. The contract holds for first-appearance order and does not fix any other order.
- Percentages and averages are exact `real`s. Floating-point rounding is not modelled; for example, `9 / 10 * 100` gives exactly 90.
- Analytics.GenerateAnalytics: the `.get` defaults for missing `grade`, `criteria_marks` and `statistics` keys are not modelled, because a `Marking.MarkingResult` always has them.
- Recommendations.GenerateRecommendations: it takes `Analytics.GenerateAnalytics`'s `Result`. The `not analytics` test for an empty dictionary and the `.get` defaults for a partial dictionary are not modelled, because analytics always produces the full record or the error.
- Scoring.CriterionFeedback: it does not take the student text or the criterion description, which the source accepts and never reads.
- Urls.EssayReference: it is proved on the closing words of the end-to-end test essay, not on the whole essay; unfolding the scanner over the full literal text is beyond what the verifier can do in reasonable time.

/**
 * Marking one submission (`mark_student_work`) and its overall feedback
 * (`_generate_overall_feedback`). The language model's reading of the text (alphabetic token
 * count, sentence count, noun chunks), topic similarity and URL fetching are parameters.
 */
module Marking {
  import opened Wrappers
  import opened Text
  import Rubric
  import Brief
  import Urls
  import opened Scoring

  /** A noun chunk as the language model reports it: its text and whether its root word is
      tagged as a noun or proper noun. */
  datatype Chunk = Chunk(text: string, rootIsNoun: bool)

  /** The language model's reading of the student's text. */
  datatype Doc = Doc(alphaTokens: nat, sentences: nat, nounChunks: seq<Chunk>)

  datatype CriterionMark = CriterionMark(name: string, score: int, maxScore: int, feedback: Feedback)

  datatype Statistics = Statistics(
    wordCount: nat,
    sentenceCount: nat,
    avgSentenceLength: real,
    urlCount: nat,
    topicCoverage: real)

  datatype OverallFeedback = OverallFeedback(
    generalComments: string,
    strengths: seq<string>,
    areasForImprovement: seq<string>,
    recommendations: seq<string>)

  datatype MarkingResult = MarkingResult(
    totalScore: int,
    maxScore: int,
    percentage: real,
    grade: string,
    criteriaMarks: seq<CriterionMark>,
    feedback: OverallFeedback,
    statistics: Statistics,
    urlAnalyses: seq<Urls.UrlAnalysis>)

  /** The student's topics: the lower-cased text of every multi-word noun chunk whose root is a
      noun, in order. */
  function StudentTopics(chunks: seq<Chunk>): (r: seq<string>)
    ensures |r| <= |chunks|
    ensures forall x :: x in r <==> exists c :: c in chunks && c.rootIsNoun && |Words(c.text)| > 1 && x == Lower(c.text)
  {
    if chunks == [] then []
    else
      var rest := StudentTopics(chunks[1..]);
      assert forall c :: c in chunks <==> c == chunks[0] || c in chunks[1..];
      if chunks[0].rootIsNoun && |Words(chunks[0].text)| > 1 then [Lower(chunks[0].text)] + rest else rest
  }

  /** `word_count / sentence_count`, or 0 when there are no sentences. */
  function AverageSentenceLength(words: nat, sentences: nat): (a: real)
    ensures sentences == 0 ==> a == 0.0
    ensures sentences > 0 ==> a * sentences as real == words as real
    ensures a >= 0.0
  {
    if sentences > 0 then words as real / sentences as real else 0.0
  }

  /** One criterion's mark: the rounded relevance score out of ten, with its feedback. */
  function MarkCriterion(text: string, c: Rubric.Criterion): (m: CriterionMark)
    ensures m.name == c.name && m.maxScore == CriterionMaxScore
    ensures 3 <= m.score <= 9
    ensures m.feedback == CriterionFeedback(c.name, m.score, CriterionMaxScore)
  {
    var s := CriterionScore(text, c.keywords);
    CriterionMark(c.name, s, CriterionMaxScore, CriterionFeedback(c.name, s, CriterionMaxScore))
  }

  /** The marks are parallel to the criteria: same length, order and names. */
  function MarkCriteria(text: string, criteria: seq<Rubric.Criterion>): (ms: seq<CriterionMark>)
    ensures |ms| == |criteria|
    ensures forall i :: 0 <= i < |ms| ==> ms[i] == MarkCriterion(text, criteria[i])
    ensures forall i :: 0 <= i < |ms| ==> ms[i].name == criteria[i].name && ms[i].maxScore == CriterionMaxScore
    ensures forall i :: 0 <= i < |ms| ==> 3 <= ms[i].score <= 9
  {
    seq(|criteria|, i requires 0 <= i < |criteria| => MarkCriterion(text, criteria[i]))
  }

  function TotalScore(ms: seq<CriterionMark>): int {
    if ms == [] then 0 else ms[0].score + TotalScore(ms[1..])
  }

  function TotalMax(ms: seq<CriterionMark>): int {
    if ms == [] then 0 else ms[0].maxScore + TotalMax(ms[1..])
  }

  /** Ten points per criterion, of which each earns between three and nine. */
  lemma {:induction false} TotalBounds(ms: seq<CriterionMark>)
    requires forall i :: 0 <= i < |ms| ==> 3 <= ms[i].score <= 9 && ms[i].maxScore == CriterionMaxScore
    ensures 3 * |ms| <= TotalScore(ms) <= 9 * |ms|
    ensures TotalMax(ms) == CriterionMaxScore * |ms|
  {
    if ms != [] {
      TotalBounds(ms[1..]);
    }
  }

  /** `total / max * 100`, or 0 when there is nothing to mark; the same rule gives each
      criterion mark its percentage in the cohort analytics. */
  function Percentage(total: int, max: int): (p: real)
    ensures max <= 0 ==> p == 0.0
    ensures max > 0 ==> p * max as real == total as real * 100.0
  {
    if max > 0 then total as real / max as real * 100.0 else 0.0
  }

  /** With at least one criterion the percentage lies within [30, 90]. */
  lemma PercentageBounds(ms: seq<CriterionMark>)
    requires forall i :: 0 <= i < |ms| ==> 3 <= ms[i].score <= 9 && ms[i].maxScore == CriterionMaxScore
    ensures ms == [] ==> Percentage(TotalScore(ms), TotalMax(ms)) == 0.0
    ensures ms != [] ==> 30.0 <= Percentage(TotalScore(ms), TotalMax(ms)) <= 90.0
  {
    TotalBounds(ms);
    if ms != [] {
      var n := |ms| as real;
      var t := TotalScore(ms) as real;
      assert 3.0 * n <= t <= 9.0 * n;
      assert TotalMax(ms) as real == 10.0 * n;
      ShareBounds(t, n);
    }
  }

  /** A total of three to nine points per criterion, out of ten per criterion. */
  lemma ShareBounds(t: real, n: real)
    requires n > 0.0 && 3.0 * n <= t <= 9.0 * n
    ensures 30.0 <= t / (10.0 * n) * 100.0 <= 90.0
  {
  }

  /** The total score, the maximum and the percentage of a list of marks. */
  function Tally(ms: seq<CriterionMark>): (t: (int, int, real))
    requires forall i :: 0 <= i < |ms| ==> 3 <= ms[i].score <= 9 && ms[i].maxScore == CriterionMaxScore
    ensures t.0 == TotalScore(ms) && t.1 == CriterionMaxScore * |ms| && t.2 == Percentage(t.0, t.1)
    ensures ms == [] ==> t.2 == 0.0
    ensures ms != [] ==> 30.0 <= t.2 <= 90.0
  {
    TotalBounds(ms);
    PercentageBounds(ms);
    (TotalScore(ms), TotalMax(ms), Percentage(TotalScore(ms), TotalMax(ms)))
  }

  // `_generate_overall_feedback`.

  function Strengths(ms: seq<CriterionMark>): (r: seq<string>)
    ensures |r| <= |ms|
    ensures r == [] <==> forall i :: 0 <= i < |ms| ==> ms[i].feedback.strength.None?
    ensures forall x :: x in r <==> exists i :: 0 <= i < |ms| && ms[i].feedback.strength == Some(x)
  {
    if ms == [] then []
    else
      var rest := Strengths(ms[1..]);
      assert forall i :: 1 <= i < |ms| ==> ms[i] == ms[1..][i - 1];
      assert forall x :: (exists i :: 1 <= i < |ms| && ms[i].feedback.strength == Some(x)) ==> x in rest by {
        forall x | exists i :: 1 <= i < |ms| && ms[i].feedback.strength == Some(x)
          ensures x in rest
        {
          var i :| 1 <= i < |ms| && ms[i].feedback.strength == Some(x);
          assert ms[1..][i - 1].feedback.strength == Some(x);
        }
      }
      match ms[0].feedback.strength
      case Some(s) => [s] + rest
      case None => rest
  }

  /** Strengths keep the criteria order and every repeat: collecting over two mark lists one
      after the other is collecting over their concatenation. */
  lemma {:induction false} StrengthsAppend(ms1: seq<CriterionMark>, ms2: seq<CriterionMark>)
    ensures Strengths(ms1 + ms2) == Strengths(ms1) + Strengths(ms2)
  {
    if ms1 == [] {
      assert ms1 + ms2 == ms2;
    } else {
      assert (ms1 + ms2)[0] == ms1[0];
      assert (ms1 + ms2)[1..] == ms1[1..] + ms2;
      StrengthsAppend(ms1[1..], ms2);
    }
  }

  function Areas(ms: seq<CriterionMark>): (r: seq<string>)
    ensures |r| <= |ms|
    ensures r == [] <==> forall i :: 0 <= i < |ms| ==> ms[i].feedback.weakness.None?
    ensures forall x :: x in r <==> exists i :: 0 <= i < |ms| && ms[i].feedback.weakness == Some(x)
  {
    if ms == [] then []
    else
      var rest := Areas(ms[1..]);
      assert forall i :: 1 <= i < |ms| ==> ms[i] == ms[1..][i - 1];
      assert forall x :: (exists i :: 1 <= i < |ms| && ms[i].feedback.weakness == Some(x)) ==> x in rest by {
        forall x | exists i :: 1 <= i < |ms| && ms[i].feedback.weakness == Some(x)
          ensures x in rest
        {
          var i :| 1 <= i < |ms| && ms[i].feedback.weakness == Some(x);
          assert ms[1..][i - 1].feedback.weakness == Some(x);
        }
      }
      match ms[0].feedback.weakness
      case Some(w) => [w] + rest
      case None => rest
  }

  /** Areas keep the criteria order and every repeat, as strengths do. */
  lemma {:induction false} AreasAppend(ms1: seq<CriterionMark>, ms2: seq<CriterionMark>)
    ensures Areas(ms1 + ms2) == Areas(ms1) + Areas(ms2)
  {
    if ms1 == [] {
      assert ms1 + ms2 == ms2;
    } else {
      assert (ms1 + ms2)[0] == ms1[0];
      assert (ms1 + ms2)[1..] == ms1[1..] + ms2;
      AreasAppend(ms1[1..], ms2);
    }
  }

  function GeneralComment(p: real): string {
    if p >= 80.0 then "Excellent work that demonstrates a comprehensive understanding of the subject matter."
    else if p >= 70.0 then "Very good work that shows a solid understanding of the subject matter."
    else if p >= 60.0 then "Good work that demonstrates understanding of most key aspects of the subject matter."
    else if p >= 50.0 then "Satisfactory work that meets the basic requirements but lacks depth in some areas."
    else "This work does not meet the minimum requirements and needs significant improvement."
  }

  function CoverageRemark(coverage: real): string {
    if coverage > 0.8 then " The work covers all key topics effectively."
    else if coverage > 0.6 then " The work covers most key topics but could be more comprehensive."
    else " The work misses several key topics that should be addressed."
  }

  const SourcesPrefix: string := " The work incorporates "
  const SourcesSuffix: string := " external sources, which adds to its depth."

  /** The sentence on external sources, present only when some URL was analysed. */
  function SourcesRemark(analysed: nat): (s: string)
    ensures analysed == 0 <==> s == []
    ensures analysed > 0 ==>
      && |s| > |SourcesPrefix| + |SourcesSuffix|
      && s[..|SourcesPrefix|] == SourcesPrefix
      && s[|s| - |SourcesSuffix|..] == SourcesSuffix
      && AllDigits(s[|SourcesPrefix|..|s| - |SourcesSuffix|])
      && DigitsValue(s[|SourcesPrefix|..|s| - |SourcesSuffix|]) == analysed
  {
    if analysed == 0 then []
    else
      var digits := NatToString(analysed);
      var s := SourcesPrefix + digits + SourcesSuffix;
      DigitsValueNatToString(analysed);
      assert s[..|SourcesPrefix|] == SourcesPrefix;
      assert s[|SourcesPrefix|..|s| - |SourcesSuffix|] == digits;
      s
  }

  const ReviewBrief: string := "Review the assessment brief to ensure all requirements are met"
  const UseFeedback: string := "Consider the feedback for each criterion to improve future work"
  const FocusAreas: string := "Focus on addressing the identified areas for improvement"

  /** The overall feedback: strengths and areas for improvement gathered from the criteria in
      order, a general comment built from the percentage band, the coverage band and the number
      of analysed sources, and two standing recommendations plus a third when there is
      something to improve. */
  function OverallFeedbackOf(ms: seq<CriterionMark>, p: real, coverage: real, analysed: nat): (f: OverallFeedback)
    ensures f.strengths == Strengths(ms) && f.areasForImprovement == Areas(ms)
    ensures f.generalComments == GeneralComment(p) + CoverageRemark(coverage) + SourcesRemark(analysed)
    ensures |f.recommendations| >= 2 && f.recommendations[..2] == [ReviewBrief, UseFeedback]
    ensures |f.recommendations| == 3 <==> Areas(ms) != []
    ensures |f.recommendations| == 2 || (|f.recommendations| == 3 && f.recommendations[2] == FocusAreas)
  {
    var areas := Areas(ms);
    OverallFeedback(
      GeneralComment(p) + CoverageRemark(coverage) + SourcesRemark(analysed),
      Strengths(ms),
      areas,
      [ReviewBrief, UseFeedback] + (if areas != [] then [FocusAreas] else []))
  }

  /** Marked criteria have no area for improvement exactly when every one scores at least 8 of
      10, so the third recommendation appears unless every criterion reaches 80%. */
  lemma {:induction false} NoAreasIffAllExcellent(text: string, criteria: seq<Rubric.Criterion>)
    ensures Areas(MarkCriteria(text, criteria)) == [] <==>
      forall i :: 0 <= i < |criteria| ==> CriterionScore(text, criteria[i].keywords) >= 8
  {
  }

  /** `mark_student_work`. `nlp` reads the text, `similarity` compares two topics, and
      `fetch`, `nounChunks` and `entities` serve the analysis of each URL. */
  function MarkStudentWork(
    text: string, brief: Brief.BriefAnalysis, rubric: Rubric.RubricAnalysis,
    nlp: string -> Doc, similarity: (string, string) -> real,
    fetch: string -> Urls.FetchOutcome, nounChunks: string -> seq<string>,
    entities: string -> seq<(string, string)>): (r: MarkingResult)
    ensures |r.criteriaMarks| == |rubric.criteria|
    ensures forall i :: 0 <= i < |r.criteriaMarks| ==>
      && r.criteriaMarks[i].name == rubric.criteria[i].name
      && r.criteriaMarks[i].maxScore == CriterionMaxScore
      && 3 <= r.criteriaMarks[i].score <= 9
      && r.criteriaMarks[i] == MarkCriterion(text, rubric.criteria[i])
    ensures r.totalScore == TotalScore(r.criteriaMarks)
    ensures r.maxScore == CriterionMaxScore * |rubric.criteria|
    ensures rubric.criteria == [] ==> r.percentage == 0.0
    ensures rubric.criteria != [] ==> 30.0 <= r.percentage <= 90.0
    ensures r.percentage == Percentage(r.totalScore, r.maxScore)
    ensures r.grade == DetermineGrade(r.percentage, rubric.gradeBoundaries)
    ensures r.statistics.urlCount == |Urls.ExtractUrls(text)|
    ensures r.urlAnalyses == Urls.AnalyzeUrls(Urls.ExtractUrls(text), fetch, nounChunks, entities)
    ensures 0.0 <= r.statistics.topicCoverage <= 1.0
    ensures r.statistics.topicCoverage == TopicCoverage(StudentTopics(nlp(text).nounChunks), brief.keyTopics, similarity)
    ensures r.statistics.wordCount == nlp(text).alphaTokens && r.statistics.sentenceCount == nlp(text).sentences
    ensures r.statistics.avgSentenceLength == AverageSentenceLength(r.statistics.wordCount, r.statistics.sentenceCount)
    ensures r.feedback == OverallFeedbackOf(r.criteriaMarks, r.percentage, r.statistics.topicCoverage, |r.urlAnalyses|)
  {
    var urls := Urls.ExtractUrls(text);
    var analyses := Urls.AnalyzeUrls(urls, fetch, nounChunks, entities);
    var doc := nlp(text);
    var coverage := TopicCoverage(StudentTopics(doc.nounChunks), brief.keyTopics, similarity);
    var marks := MarkCriteria(text, rubric.criteria);
    var (total, max, p) := Tally(marks);
    MarkingResult(total, max, p, DetermineGrade(p, rubric.gradeBoundaries), marks,
      OverallFeedbackOf(marks, p, coverage, |analyses|),
      Statistics(doc.alphaTokens, doc.sentences, AverageSentenceLength(doc.alphaTokens, doc.sentences), |urls|, coverage),
      analyses)
  }
}

/**
 * The per-criterion scoring rules of the marking engine: keyword relevance, the rounded
 * criterion score, the feedback band of a criterion, topic coverage against the brief and
 * the letter grade of a percentage.
 */
module Scoring {
  import opened Wrappers
  import opened Text
  import opened Boundaries

  const NeutralRelevance: real := 0.5
  const RelevanceFloor: real := 0.3
  const RelevanceCeiling: real := 0.9
  /** Every criterion is marked out of ten; declared rubric weights are not applied. */
  const CriterionMaxScore: int := 10
  const SimilarityThreshold: real := 0.7

  // `_calculate_criterion_relevance`.

  /** The keyword appears in the text, both lower-cased (Python's `keyword.lower() in text`). */
  predicate Found(lowerText: string, keyword: string) {
    Contains(lowerText, Lower(keyword))
  }

  /** How many of the keywords are found; a keyword listed twice counts twice. */
  function CountFound(lowerText: string, keywords: seq<string>): (n: nat)
    ensures n <= |keywords|
  {
    if keywords == [] then 0
    else (if Found(lowerText, keywords[0]) then 1 else 0) + CountFound(lowerText, keywords[1..])
  }

  /** Every keyword counts exactly when every keyword is found. */
  lemma {:induction false} CountFoundAll(lowerText: string, keywords: seq<string>)
    ensures CountFound(lowerText, keywords) == |keywords| <==> forall i :: 0 <= i < |keywords| ==> Found(lowerText, keywords[i])
  {
    if keywords != [] {
      CountFoundAll(lowerText, keywords[1..]);
      assert forall i :: 1 <= i < |keywords| ==> keywords[i] == keywords[1..][i - 1];
    }
  }

  /** The count is zero exactly when no keyword is found. */
  lemma {:induction false} CountFoundNone(lowerText: string, keywords: seq<string>)
    ensures CountFound(lowerText, keywords) == 0 <==> forall i :: 0 <= i < |keywords| ==> !Found(lowerText, keywords[i])
  {
    if keywords != [] {
      CountFoundNone(lowerText, keywords[1..]);
      assert forall i :: 1 <= i < |keywords| ==> keywords[i] == keywords[1..][i - 1];
    }
  }

  /** `min(0.9, max(0.3, x))`. */
  function Clamp(x: real): (r: real)
    ensures RelevanceFloor <= r <= RelevanceCeiling
    ensures RelevanceFloor <= x <= RelevanceCeiling ==> r == x
    ensures x < RelevanceFloor ==> r == RelevanceFloor
    ensures x > RelevanceCeiling ==> r == RelevanceCeiling
  {
    if x < RelevanceFloor then RelevanceFloor else if x > RelevanceCeiling then RelevanceCeiling else x
  }

  /** The share of the criterion's keywords found in the text, kept within [0.3, 0.9]; 0.5
      when the criterion has no keywords. */
  function Relevance(text: string, keywords: seq<string>): (r: real)
    ensures keywords == [] ==> r == NeutralRelevance
    ensures RelevanceFloor <= r <= RelevanceCeiling
    ensures keywords != [] ==>
      var found, total := CountFound(Lower(text), keywords) as real, |keywords| as real;
      && (RelevanceFloor * total <= found <= RelevanceCeiling * total ==> r == found / total)
      && (found < RelevanceFloor * total ==> r == RelevanceFloor)
      && (found > RelevanceCeiling * total ==> r == RelevanceCeiling)
    ensures keywords != [] && (forall i :: 0 <= i < |keywords| ==> Found(Lower(text), keywords[i])) ==> r == RelevanceCeiling
    ensures keywords != [] && (forall i :: 0 <= i < |keywords| ==> !Found(Lower(text), keywords[i])) ==> r == RelevanceFloor
  {
    if keywords == [] then NeutralRelevance
    else
      CountFoundAll(Lower(text), keywords);
      CountFoundNone(Lower(text), keywords);
      var found, total := CountFound(Lower(text), keywords) as real, |keywords| as real;
      ClampedShare(found, total);
      ExtremeShares(found, total);
      Clamp(found / total)
  }

  /** Finding every keyword gives the ceiling, finding none the floor. */
  lemma ExtremeShares(found: real, total: real)
    requires total > 0.0
    ensures found == total ==> Clamp(found / total) == RelevanceCeiling
    ensures found == 0.0 ==> Clamp(found / total) == RelevanceFloor
  {
  }

  /** The clamped share `found / total`, read back as a count. */
  lemma ClampedShare(found: real, total: real)
    requires total > 0.0
    ensures var r := Clamp(found / total);
      && (RelevanceFloor * total <= found <= RelevanceCeiling * total ==> r == found / total)
      && (found < RelevanceFloor * total ==> r == RelevanceFloor)
      && (found > RelevanceCeiling * total ==> r == RelevanceCeiling)
  {
    var q := found / total;
    assert q * total == found;
    Below(q, RelevanceFloor, total, found);
    Above(q, RelevanceCeiling, total, found);
  }

  /** A share of a positive total, read back as a count, and within [0, 1] for a count
      between 0 and the total. */
  lemma ShareScaled(found: real, total: real)
    requires total > 0.0
    ensures (found / total) * total == found
    ensures 0.0 <= found <= total ==> 0.0 <= found / total <= 1.0
  {
    var q := found / total;
    assert q * total == found;
    Below(q, 0.0, total, found);
    Above(q, 1.0, total, found);
  }

  /** For `q * t == f` with `t` positive, `q` is below `b` exactly when `f` is below `b * t`. */
  lemma Below(q: real, b: real, t: real, f: real)
    requires t > 0.0 && q * t == f
    ensures q < b <==> f < b * t
  {
    if q < b {
      assert (b - q) * t > 0.0;
    } else {
      assert (q - b) * t >= 0.0;
    }
  }

  /** For `q * t == f` with `t` positive, `q` is above `b` exactly when `f` is above `b * t`. */
  lemma Above(q: real, b: real, t: real, f: real)
    requires t > 0.0 && q * t == f
    ensures q > b <==> f > b * t
  {
    if q > b {
      assert (q - b) * t > 0.0;
    } else {
      assert (b - q) * t >= 0.0;
    }
  }

  /** Finding every keyword another text finds, and possibly more, never counts fewer. */
  lemma {:induction false} CountFoundMonotone(t1: string, t2: string, keywords: seq<string>)
    requires forall i :: 0 <= i < |keywords| && Found(t1, keywords[i]) ==> Found(t2, keywords[i])
    ensures CountFound(t1, keywords) <= CountFound(t2, keywords)
  {
    if keywords != [] {
      assert forall i :: 1 <= i < |keywords| ==> keywords[i] == keywords[1..][i - 1];
      CountFoundMonotone(t1, t2, keywords[1..]);
    }
  }

  /** Relevance is monotone in the keywords found: a text that finds every keyword another
      text finds is at least as relevant. */
  lemma RelevanceMonotone(t1: string, t2: string, keywords: seq<string>)
    requires forall i :: 0 <= i < |keywords| && Found(Lower(t1), keywords[i]) ==> Found(Lower(t2), keywords[i])
    ensures Relevance(t1, keywords) <= Relevance(t2, keywords)
  {
    if keywords != [] {
      CountFoundMonotone(Lower(t1), Lower(t2), keywords);
      var n := |keywords| as real;
      DivideMonotone(CountFound(Lower(t1), keywords) as real, CountFound(Lower(t2), keywords) as real, n);
    }
  }

  lemma DivideMonotone(a: real, b: real, n: real)
    requires a <= b && n > 0.0
    ensures Clamp(a / n) <= Clamp(b / n)
  {
    assert a / n <= b / n;
  }

  // Python's `round`, which rounds halves to the even neighbour.

  predicate IsTie(x: real, n: int) {
    n as real - x == 0.5 || x - n as real == 0.5
  }

  function RoundHalfEven(x: real): (r: int)
    ensures x - 0.5 <= r as real <= x + 0.5
    ensures IsTie(x, r) ==> r % 2 == 0
  {
    var f := x.Floor;
    var d := x - f as real;
    if d < 0.5 then f
    else if d > 0.5 then f + 1
    else if f % 2 == 0 then f
    else f + 1
  }

  /** The two properties above single out the rounded value: any integer within a half of `x`
      that is even on a tie is `round(x)`. */
  lemma RoundHalfEvenUnique(x: real, n: int)
    requires x - 0.5 <= n as real <= x + 0.5
    requires IsTie(x, n) ==> n % 2 == 0
    ensures n == RoundHalfEven(x)
  {
  }

  /** A relevance of 9/20 scores 4.5 before rounding, which Python rounds down to 4. */
  lemma HalfRoundsToEven()
    ensures RoundHalfEven(9.0 / 20.0 * 10.0) == 4
    ensures RoundHalfEven(5.5) == 6
  {
    RoundHalfEvenUnique(4.5, 4);
    RoundHalfEvenUnique(5.5, 6);
  }

  /** `round(relevance * 10)`: every criterion scores between 3 and 9 out of 10, and 5 when it
      has no keywords. */
  function CriterionScore(text: string, keywords: seq<string>): (s: int)
    ensures -0.5 <= s as real - Relevance(text, keywords) * 10.0 <= 0.5
    ensures IsTie(Relevance(text, keywords) * 10.0, s) ==> s % 2 == 0
    ensures 3 <= s <= 9
    ensures keywords == [] ==> s == 5
  {
    var x := Relevance(text, keywords) * CriterionMaxScore as real;
    var s := RoundHalfEven(x);
    if keywords == [] then RoundHalfEvenUnique(x, 5); s else s
  }

  // `_generate_criterion_feedback`.

  datatype Feedback = Feedback(strength: Option<string>, weakness: Option<string>, suggestion: string)

  function ScorePercentage(score: int, maxScore: int): real
    requires maxScore != 0
  {
    score as real / maxScore as real * 100.0
  }

  /** The feedback band of a criterion's percentage: 80 and above is excellent with no
      weakness, 60 good, 40 adequate, and below 40 there is no strength. */
  function CriterionFeedback(name: string, score: int, maxScore: int): (f: Feedback)
    requires maxScore != 0
    ensures var p := ScorePercentage(score, maxScore);
      && (f.strength.None? <==> p < 40.0)
      && (f.weakness.None? <==> p >= 80.0)
    ensures var p := ScorePercentage(score, maxScore);
      && (p >= 80.0 ==> f.strength == Some("Excellent demonstration of " + Lower(name)))
      && (60.0 <= p < 80.0 ==> f.strength == Some("Good demonstration of " + Lower(name)))
      && (40.0 <= p < 60.0 ==> f.strength == Some("Adequate demonstration of " + Lower(name)))
      && (60.0 <= p < 80.0 ==> f.weakness == Some("Could further improve " + Lower(name) + " by providing more depth"))
      && (40.0 <= p < 60.0 ==> f.weakness == Some("Need to develop " + Lower(name) + " more thoroughly"))
      && (p < 40.0 ==> f.weakness == Some("Significant improvement needed in " + Lower(name)))
    ensures f.suggestion == "Consider reviewing the requirements for " + Lower(name) + " in the assessment brief"
  {
    var p := ScorePercentage(score, maxScore);
    var n := Lower(name);
    var suggestion := "Consider reviewing the requirements for " + n + " in the assessment brief";
    if p >= 80.0 then Feedback(Some("Excellent demonstration of " + n), None, suggestion)
    else if p >= 60.0 then Feedback(Some("Good demonstration of " + n), Some("Could further improve " + n + " by providing more depth"), suggestion)
    else if p >= 40.0 then Feedback(Some("Adequate demonstration of " + n), Some("Need to develop " + n + " more thoroughly"), suggestion)
    else Feedback(None, Some("Significant improvement needed in " + n), suggestion)
  }

  /** Every criterion gets a strength or a weakness, and a better score never loses a strength
      nor gains a weakness. */
  lemma FeedbackMonotone(name: string, s1: int, s2: int, maxScore: int)
    requires maxScore > 0 && s1 <= s2
    ensures var f1, f2 := CriterionFeedback(name, s1, maxScore), CriterionFeedback(name, s2, maxScore);
      && (f1.strength.Some? || f1.weakness.Some?)
      && (f1.strength.Some? ==> f2.strength.Some?)
      && (f2.weakness.Some? ==> f1.weakness.Some?)
  {
    assert ScorePercentage(s1, maxScore) <= ScorePercentage(s2, maxScore) by {
      assert s1 as real / maxScore as real <= s2 as real / maxScore as real;
    }
  }

  // `_calculate_topic_coverage`.

  /** The brief topic counts as covered by a student topic when either contains the other, or
      when the language model rates them more than 0.7 similar (brief topic first). */
  predicate Covers(brief: string, student: string, similarity: (string, string) -> real) {
    Contains(student, brief) || Contains(brief, student) || similarity(brief, student) > SimilarityThreshold
  }

  /** The inner loop: student topics are tried in order and the first that covers breaks. */
  function CoveredLoop(brief: string, students: seq<string>, similarity: (string, string) -> real): (b: bool)
    ensures b ==> students != []
  {
    if students == [] then false
    else if Contains(students[0], brief) || Contains(brief, students[0]) then true
    else if similarity(brief, students[0]) > SimilarityThreshold then true
    else CoveredLoop(brief, students[1..], similarity)
  }

  /** The loop with its early exit decides exactly whether some student topic covers it. */
  lemma {:induction false} CoveredLoopExists(brief: string, students: seq<string>, similarity: (string, string) -> real)
    ensures CoveredLoop(brief, students, similarity) <==> exists s :: s in students && Covers(brief, s, similarity)
  {
    if students != [] {
      CoveredLoopExists(brief, students[1..], similarity);
      if Covers(brief, students[0], similarity) {
        assert students[0] in students;
      } else {
        assert forall s :: s in students && Covers(brief, s, similarity) ==> s in students[1..];
      }
    }
  }

  function CountCovered(briefs: seq<string>, students: seq<string>, similarity: (string, string) -> real): (n: nat)
    ensures n <= |briefs|
    ensures students == [] ==> n == 0
  {
    if briefs == [] then 0
    else (if CoveredLoop(briefs[0], students, similarity) then 1 else 0) + CountCovered(briefs[1..], students, similarity)
  }

  lemma {:induction false} CountCoveredAll(briefs: seq<string>, students: seq<string>, similarity: (string, string) -> real)
    ensures CountCovered(briefs, students, similarity) == |briefs| <==> forall i :: 0 <= i < |briefs| ==> CoveredLoop(briefs[i], students, similarity)
  {
    if briefs != [] {
      CountCoveredAll(briefs[1..], students, similarity);
      assert forall i :: 1 <= i < |briefs| ==> briefs[i] == briefs[1..][i - 1];
    }
  }

  /** The share of brief topics the student work covers: 1 when the brief names no topics,
      otherwise within [0, 1], and 0 when the student work has no topics. */
  function TopicCoverage(students: seq<string>, briefs: seq<string>, similarity: (string, string) -> real): (c: real)
    ensures briefs == [] ==> c == 1.0
    ensures briefs != [] ==> c * |briefs| as real == CountCovered(briefs, students, similarity) as real
    ensures 0.0 <= c <= 1.0
    ensures briefs != [] && students == [] ==> c == 0.0
  {
    if briefs == [] then 1.0
    else
      var n := CountCovered(briefs, students, similarity);
      assert n as real <= |briefs| as real;
      ShareScaled(n as real, |briefs| as real);
      n as real / |briefs| as real
  }

  /** Coverage is complete exactly when every brief topic is covered by some student topic. */
  lemma TopicCoverageComplete(students: seq<string>, briefs: seq<string>, similarity: (string, string) -> real)
    ensures TopicCoverage(students, briefs, similarity) == 1.0 <==>
      forall i :: 0 <= i < |briefs| ==> exists s :: s in students && Covers(briefs[i], s, similarity)
  {
    if briefs != [] {
      var n := CountCovered(briefs, students, similarity);
      assert TopicCoverage(students, briefs, similarity) == 1.0 <==> n == |briefs|;
      CountCoveredAll(briefs, students, similarity);
      forall i | 0 <= i < |briefs| {
        CoveredLoopExists(briefs[i], students, similarity);
      }
    }
  }

  // `_determine_grade`.

  const DefaultBoundaries: GradeBoundaries :=
    [("A", (80, 100)), ("B", (70, 79)), ("C", (60, 69)), ("D", (50, 59)), ("F", (0, 49))]

  /** The fallback ladder used when no boundary contains the percentage. */
  function Ladder(p: real): (g: string)
    ensures g in ["A", "B", "C", "D", "F"]
  {
    if p >= 80.0 then "A"
    else if p >= 70.0 then "B"
    else if p >= 60.0 then "C"
    else if p >= 50.0 then "D"
    else "F"
  }

  predicate InBoundary(p: real, b: (int, int)) {
    b.0 as real <= p <= b.1 as real
  }

  /** The first grade, in insertion order, whose inclusive range contains the percentage. */
  function FirstContaining(bs: GradeBoundaries, p: real): (r: Option<string>)
    ensures r.None? <==> forall i :: 0 <= i < |bs| ==> !InBoundary(p, bs[i].1)
    ensures r.Some? ==> exists i :: 0 <= i < |bs| && bs[i].0 == r.value && InBoundary(p, bs[i].1)
                                    && forall j :: 0 <= j < i ==> !InBoundary(p, bs[j].1)
  {
    if bs == [] then None
    else if InBoundary(p, bs[0].1) then Some(bs[0].0)
    else
      var r := FirstContaining(bs[1..], p);
      assert forall i :: 1 <= i < |bs| ==> bs[i] == bs[1..][i - 1];
      if r.Some? then
        var i :| 0 <= i < |bs| - 1 && bs[1..][i].0 == r.value && InBoundary(p, bs[1..][i].1)
                 && forall j :: 0 <= j < i ==> !InBoundary(p, bs[1..][j].1);
        assert bs[i + 1].0 == r.value && InBoundary(p, bs[i + 1].1);
        r
      else r
  }

  /** With no boundaries of its own the rubric uses the default table, and a percentage no
      boundary contains falls back to the ladder. */
  function DetermineGrade(p: real, boundaries: GradeBoundaries): (g: string)
    ensures boundaries != [] && (exists i :: 0 <= i < |boundaries| && InBoundary(p, boundaries[i].1)) ==>
      exists i :: 0 <= i < |boundaries| && boundaries[i].0 == g && InBoundary(p, boundaries[i].1)
                  && forall j :: 0 <= j < i ==> !InBoundary(p, boundaries[j].1)
    ensures boundaries != [] && (forall i :: 0 <= i < |boundaries| ==> !InBoundary(p, boundaries[i].1)) ==> g == Ladder(p)
  {
    var bs := if boundaries == [] then DefaultBoundaries else boundaries;
    match FirstContaining(bs, p)
    case Some(g) => g
    case None => Ladder(p)
  }

  /** The default table agrees with the ladder everywhere, including the gaps between its
      integer ranges such as 79.5, and above 100 or below 0. */
  lemma DefaultsAgreeWithLadder(p: real)
    ensures DetermineGrade(p, []) == Ladder(p)
  {
    var bs := DefaultBoundaries;
    assert bs[1..] == [("B", (70, 79)), ("C", (60, 69)), ("D", (50, 59)), ("F", (0, 49))];
    assert bs[2..] == [("C", (60, 69)), ("D", (50, 59)), ("F", (0, 49))];
    assert bs[3..] == [("D", (50, 59)), ("F", (0, 49))];
    assert bs[4..] == [("F", (0, 49))];
  }

  lemma GapFallsToLadder()
    ensures DetermineGrade(79.5, []) == "B"
    ensures DetermineGrade(49.5, []) == "F"
  {
    DefaultsAgreeWithLadder(79.5);
    DefaultsAgreeWithLadder(49.5);
  }
}

/**
 * Teaching recommendations drawn from cohort analytics (`generate_recommendations`).
 */
module Recommendations {
  import opened Wrappers
  import opened Analytics

  datatype Kind = General | Content | Assessment | Guidance | Activity

  datatype Priority = High | Medium | Low

  datatype Recommendation = Recommendation(text: string, kind: Kind, priority: Priority)

  const NotEnoughData := Recommendation("Not enough data to generate recommendations", General, Low)
  const BelowExpectations := Recommendation(
    "Overall student performance is below expectations. Consider reviewing the assessment brief for clarity and providing additional support materials",
    Assessment, High)
  const ExceptionallyWell := Recommendation(
    "Students are performing exceptionally well. Consider increasing the challenge level in future assessments",
    Assessment, Medium)
  const BriefSubmissions := Recommendation(
    "Student submissions are quite brief. Consider providing clearer guidelines on expected depth and detail",
    Guidance, Medium)
  const FewSources := Recommendation(
    "Students are using few external sources. Consider emphasizing the importance of research and citation",
    Guidance, Medium)
  const ExampleWork := Recommendation(
    "Provide more example work to help students understand expectations", Guidance, Low)
  const PeerReview := Recommendation(
    "Consider peer review activities to help students understand assessment criteria", Activity, Medium)

  const PassMark: real := 60.0
  const HighMark: real := 80.0
  const BriefWordCount: real := 500.0
  const FewUrlCount: real := 2.0

  /** The high-priority content recommendation for a weak criterion. */
  function ReviseMaterials(weakness: string): Recommendation {
    Recommendation("Consider revising teaching materials related to '" + weakness + "' as students are scoring lower in this area",
      Content, High)
  }

  function ContentItems(weaknesses: seq<string>): (r: seq<Recommendation>)
    ensures |r| == |weaknesses|
    ensures forall i :: 0 <= i < |r| ==> r[i] == ReviseMaterials(weaknesses[i])
  {
    seq(|weaknesses|, i requires 0 <= i < |weaknesses| => ReviseMaterials(weaknesses[i]))
  }

  /** The assessment recommendation: at most one, high below 60%, medium above 80%. */
  function AssessmentItems(avg: real): (r: seq<Recommendation>)
    ensures |r| <= 1
    ensures r == [] <==> PassMark <= avg <= HighMark
    ensures r != [] ==> r[0].kind == Assessment && (r[0].priority == High <==> avg < PassMark)
  {
    if avg < PassMark then [BelowExpectations]
    else if avg > HighMark then [ExceptionallyWell]
    else []
  }

  function WordCountItems(avgWords: real): (r: seq<Recommendation>)
    ensures r == [] <==> avgWords >= BriefWordCount
    ensures r != [] ==> r == [BriefSubmissions]
  {
    if avgWords < BriefWordCount then [BriefSubmissions] else []
  }

  function UrlItems(avgUrls: real): (r: seq<Recommendation>)
    ensures r == [] <==> avgUrls >= FewUrlCount
    ensures r != [] ==> r == [FewSources]
  {
    if avgUrls < FewUrlCount then [FewSources] else []
  }

  /** `generate_recommendations`: the error value yields only the not-enough-data item;
      otherwise one content item per weak criterion in order, then the assessment, word-count
      and source items each present only when its condition holds, and always the example-work
      and peer-review items last. */
  function GenerateRecommendations(analytics: Result<CohortAnalytics, string>): (r: seq<Recommendation>)
    ensures analytics.Failure? ==> r == [NotEnoughData]
    ensures analytics.Success? ==>
      var a := analytics.value;
      && |r| == |a.weaknesses| + |AssessmentItems(a.avgPercentage)| + |WordCountItems(a.avgWordCount)| + |UrlItems(a.avgUrlCount)| + 2
      && (forall i :: 0 <= i < |a.weaknesses| ==> r[i] == ReviseMaterials(a.weaknesses[i]))
      && r[|a.weaknesses|..|r| - 2] == AssessmentItems(a.avgPercentage) + WordCountItems(a.avgWordCount) + UrlItems(a.avgUrlCount)
      && r[|r| - 2] == ExampleWork && r[|r| - 1] == PeerReview
  {
    match analytics
    case Failure(_) => [NotEnoughData]
    case Success(a) =>
      ContentItems(a.weaknesses)
      + AssessmentItems(a.avgPercentage)
      + WordCountItems(a.avgWordCount)
      + UrlItems(a.avgUrlCount)
      + [ExampleWork, PeerReview]
  }

  /** How many of the recommendations are of kind `k`. */
  function CountKind(rs: seq<Recommendation>, k: Kind): (n: nat)
    ensures n <= |rs|
  {
    if rs == [] then 0 else (if rs[0].kind == k then 1 else 0) + CountKind(rs[1..], k)
  }

  lemma {:induction false} CountKindAppend(xs: seq<Recommendation>, ys: seq<Recommendation>, k: Kind)
    ensures CountKind(xs + ys, k) == CountKind(xs, k) + CountKind(ys, k)
  {
    if xs == [] {
      assert xs + ys == ys;
    } else {
      assert (xs + ys)[0] == xs[0];
      assert (xs + ys)[1..] == xs[1..] + ys;
      CountKindAppend(xs[1..], ys, k);
    }
  }

  lemma {:induction false} ContentCount(weaknesses: seq<string>, k: Kind)
    ensures CountKind(ContentItems(weaknesses), k) == if k == Content then |weaknesses| else 0
  {
    if weaknesses != [] {
      assert ContentItems(weaknesses) == [ReviseMaterials(weaknesses[0])] + ContentItems(weaknesses[1..]);
      CountKindAppend([ReviseMaterials(weaknesses[0])], ContentItems(weaknesses[1..]), k);
      ContentCount(weaknesses[1..], k);
    }
  }

  /** Counting the items of each kind: one content item per weakness, one assessment item
      exactly when the average is below 60% or above 80%, one guidance item for short
      submissions and one for few sources besides the standing one, and a single activity. */
  lemma KindCounts(a: CohortAnalytics)
    ensures var r := GenerateRecommendations(Success(a));
      && CountKind(r, Content) == |a.weaknesses|
      && CountKind(r, Assessment) == (if a.avgPercentage < PassMark || a.avgPercentage > HighMark then 1 else 0)
      && CountKind(r, Guidance) == 1 + (if a.avgWordCount < BriefWordCount then 1 else 0) + (if a.avgUrlCount < FewUrlCount then 1 else 0)
      && CountKind(r, Activity) == 1
      && CountKind(r, General) == 0
  {
    KindCount(a, Content);
    KindCount(a, Assessment);
    KindCount(a, Guidance);
    KindCount(a, Activity);
    KindCount(a, General);
  }

  /** How many items of kind `k` the cohort `a` should receive. */
  function ExpectedCount(a: CohortAnalytics, k: Kind): nat {
    match k
    case Content => |a.weaknesses|
    case Assessment => if a.avgPercentage < PassMark || a.avgPercentage > HighMark then 1 else 0
    case Guidance => 1 + (if a.avgWordCount < BriefWordCount then 1 else 0) + (if a.avgUrlCount < FewUrlCount then 1 else 0)
    case Activity => 1
    case General => 0
  }

  /** The count of one kind is the expected one. */
  lemma KindCount(a: CohortAnalytics, k: Kind)
    ensures CountKind(GenerateRecommendations(Success(a)), k) == ExpectedCount(a, k)
  {
    var c := ContentItems(a.weaknesses);
    var s := AssessmentItems(a.avgPercentage);
    var w := WordCountItems(a.avgWordCount);
    var u := UrlItems(a.avgUrlCount);
    Parts(a);
    PartsCount(c, s, w, u, k);
    ContentCount(a.weaknesses, k);
    ConditionalCounts(a, k);
    Combine(a, k, CountKind(c, k), CountShort(s, k), CountShort(w, k), CountShort(u, k), CountOne(ExampleWork, k), CountOne(PeerReview, k));
  }

  /** Adding up the part counts of one kind. */
  lemma Combine(a: CohortAnalytics, k: Kind, nc: nat, ns: nat, nw: nat, nu: nat, ne: nat, np: nat)
    requires nc == if k == Content then |a.weaknesses| else 0
    requires ns == if k == Assessment && (a.avgPercentage < PassMark || a.avgPercentage > HighMark) then 1 else 0
    requires nw == if k == Guidance && a.avgWordCount < BriefWordCount then 1 else 0
    requires nu == if k == Guidance && a.avgUrlCount < FewUrlCount then 1 else 0
    requires ne == (if k == Guidance then 1 else 0) && np == (if k == Activity then 1 else 0)
    ensures nc + ns + nw + nu + ne + np == ExpectedCount(a, k)
  {
  }

  /** Each conditional item counts once, for its own kind, when its condition holds. */
  lemma ConditionalCounts(a: CohortAnalytics, k: Kind)
    ensures CountShort(AssessmentItems(a.avgPercentage), k)
         == if k == Assessment && (a.avgPercentage < PassMark || a.avgPercentage > HighMark) then 1 else 0
    ensures CountShort(WordCountItems(a.avgWordCount), k) == if k == Guidance && a.avgWordCount < BriefWordCount then 1 else 0
    ensures CountShort(UrlItems(a.avgUrlCount), k) == if k == Guidance && a.avgUrlCount < FewUrlCount then 1 else 0
  {
  }

  /** The recommendation list is made of its five parts. */
  lemma Parts(a: CohortAnalytics)
    ensures GenerateRecommendations(Success(a))
         == ContentItems(a.weaknesses) + AssessmentItems(a.avgPercentage) + WordCountItems(a.avgWordCount)
            + UrlItems(a.avgUrlCount) + [ExampleWork, PeerReview]
  {
  }

  /** The count of one kind over the five parts of the recommendation list. */
  lemma PartsCount(c: seq<Recommendation>, s: seq<Recommendation>, w: seq<Recommendation>, u: seq<Recommendation>, k: Kind)
    requires |s| <= 1 && |w| <= 1 && |u| <= 1
    ensures CountKind(c + s + w + u + [ExampleWork, PeerReview], k)
         == CountKind(c, k) + CountShort(s, k) + CountShort(w, k) + CountShort(u, k)
            + CountOne(ExampleWork, k) + CountOne(PeerReview, k)
  {
    var t: seq<Recommendation> := [ExampleWork, PeerReview];
    CountKindAppend(c, s, k);
    CountKindAppend(c + s, w, k);
    CountKindAppend(c + s + w, u, k);
    CountKindAppend(c + s + w + u, t, k);
    CountShortIs(s, k);
    CountShortIs(w, k);
    CountShortIs(u, k);
    CountShortIs([ExampleWork], k);
    CountShortIs([PeerReview], k);
    CountKindAppend([ExampleWork], [PeerReview], k);
    assert t == [ExampleWork] + [PeerReview];
  }

  /** The count of kind `k` in a list of at most one item. */
  function CountShort(xs: seq<Recommendation>, k: Kind): nat {
    if xs == [] then 0 else CountOne(xs[0], k)
  }

  lemma CountShortIs(xs: seq<Recommendation>, k: Kind)
    requires |xs| <= 1
    ensures CountKind(xs, k) == CountShort(xs, k)
  {
  }

  function CountOne(x: Recommendation, k: Kind): nat {
    if x.kind == k then 1 else 0
  }
}

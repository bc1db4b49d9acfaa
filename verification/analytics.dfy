/**
 * Cohort analytics over several marking results (`generate_analytics`): the average
 * percentage, the grade distribution, the average percentage of each criterion with the
 * criteria the cohort is strong or weak in, and word-count and URL-count statistics.
 */
module Analytics {
  import opened Wrappers
  import opened OrderedMap
  import Marking

  datatype CohortAnalytics = CohortAnalytics(
    count: nat,
    avgPercentage: real,
    gradeDistribution: Entries<string, nat>,
    criteriaAverages: Entries<string, real>,
    strengths: seq<string>,
    weaknesses: seq<string>,
    avgWordCount: real,
    minWordCount: nat,
    maxWordCount: nat,
    avgUrlCount: real)

  const NoResults: string := "No marking results provided"
  const StrengthThreshold: real := 70.0
  const WeaknessThreshold: real := 50.0

  function Sum(xs: seq<real>): real {
    if xs == [] then 0.0 else xs[0] + Sum(xs[1..])
  }

  function Mean(xs: seq<real>): real
    requires xs != []
  {
    Sum(xs) / |xs| as real
  }

  // Grade distribution.

  function Occurrences(xs: seq<string>, x: string): (n: nat)
    ensures n <= |xs|
  {
    if xs == [] then 0 else (if xs[0] == x then 1 else 0) + Occurrences(xs[1..], x)
  }

  /** A value that occurs is counted at least once. */
  lemma {:induction false} OccursPositive(xs: seq<string>, x: string)
    requires x in xs
    ensures Occurrences(xs, x) > 0
  {
    if xs[0] != x {
      assert x in xs[1..];
      OccursPositive(xs[1..], x);
    }
  }

  function SumValues(m: Entries<string, nat>): nat {
    if m == [] then 0 else m[0].1 + SumValues(m[1..])
  }

  /** `d.get(g, 0)`. */
  function CountOf(m: Entries<string, nat>, g: string): nat {
    Get<string, nat>(m, g).GetOr(0)
  }

  /** `d[g] = d.get(g, 0) + 1`. */
  function Increment(m: Entries<string, nat>, g: string): (r: Entries<string, nat>)
    ensures KeysDistinct(m) ==> KeysDistinct(r)
  {
    Put<string, nat>(m, g, CountOf(m, g) + 1)
  }

  /** Counting the grades one by one, starting from the counts in `acc`. */
  function Distribution(grades: seq<string>, acc: Entries<string, nat>): (r: Entries<string, nat>)
    ensures KeysDistinct(acc) ==> KeysDistinct(r)
  {
    if grades == [] then acc else Distribution(grades[1..], Increment(acc, grades[0]))
  }

  /** Each grade's entry holds how often it occurs. */
  lemma {:induction false} DistributionCounts(grades: seq<string>, acc: Entries<string, nat>, g: string)
    ensures CountOf(Distribution(grades, acc), g) == CountOf(acc, g) + Occurrences(grades, g)
  {
    if grades != [] {
      var next := Increment(acc, grades[0]);
      DistributionCounts(grades[1..], next, g);
      IncrementGet(acc, grades[0], g);
    }
  }

  lemma IncrementGet(m: Entries<string, nat>, g: string, k: string)
    ensures CountOf(Increment(m, g), k) == CountOf(m, k) + (if g == k then 1 else 0)
  {
    GetPut<string, nat>(m, g, CountOf(m, g) + 1, k);
  }

  /** One more grade adds one to the total of the counts. */
  lemma IncrementSum(m: Entries<string, nat>, g: string)
    ensures SumValues(Increment(m, g)) == SumValues(m) + 1
  {
    PutSum(m, g, CountOf(m, g) + 1);
  }

  /** Assigning `v` to `g` replaces the old count of `g` by `v` in the total. */
  lemma {:induction false} PutSum(m: Entries<string, nat>, g: string, v: nat)
    ensures SumValues(Put<string, nat>(m, g, v)) + CountOf(m, g) == SumValues(m) + v
  {
    if m == [] {
      assert Put<string, nat>(m, g, v) == [(g, v)];
    } else if m[0].0 == g {
      var r := Put<string, nat>(m, g, v);
      assert r == [(g, v)] + m[1..];
      assert r[1..] == m[1..];
    } else {
      var rest := Put<string, nat>(m[1..], g, v);
      assert Put<string, nat>(m, g, v) == [m[0]] + rest;
      assert ([m[0]] + rest)[1..] == rest;
      assert CountOf(m, g) == CountOf(m[1..], g);
      PutSum(m[1..], g, v);
    }
  }

  /** The counts add up to the number of grades. */
  lemma {:induction false} DistributionSum(grades: seq<string>, acc: Entries<string, nat>)
    ensures SumValues(Distribution(grades, acc)) == SumValues(acc) + |grades|
  {
    if grades != [] {
      IncrementSum(acc, grades[0]);
      DistributionSum(grades[1..], Increment(acc, grades[0]));
    }
  }

  // Criteria averages.

  /** Every criterion mark of every result, as (name, percentage), in order. */
  function CriterionPercentages(results: seq<Marking.MarkingResult>): (ps: seq<(string, real)>) {
    if results == [] then []
    else
      var ms := results[0].criteriaMarks;
      seq(|ms|, i requires 0 <= i < |ms| => (ms[i].name, Marking.Percentage(ms[i].score, ms[i].maxScore)))
      + CriterionPercentages(results[1..])
  }

  /** The percentages recorded for one criterion name, in order. */
  function PercentagesOf(ps: seq<(string, real)>, name: string): (r: seq<real>)
    ensures |r| <= |ps|
    ensures r == [] <==> forall i :: 0 <= i < |ps| ==> ps[i].0 != name
  {
    if ps == [] then []
    else
      var rest := PercentagesOf(ps[1..], name);
      assert forall i :: 1 <= i < |ps| ==> ps[i] == ps[1..][i - 1];
      (if ps[0].0 == name then [ps[0].1] else []) + rest
  }

  predicate NonEmptyGroups(m: Entries<string, seq<real>>) {
    forall i :: 0 <= i < |m| ==> m[i].1 != []
  }

  /** `criteria_averages.setdefault(name, []).append(p)` over the percentages in order. */
  function Group(ps: seq<(string, real)>, acc: Entries<string, seq<real>>): (r: Entries<string, seq<real>>)
    ensures KeysDistinct(acc) ==> KeysDistinct(r)
    ensures NonEmptyGroups(acc) ==> NonEmptyGroups(r)
  {
    if ps == [] then acc
    else
      var next := Put<string, seq<real>>(acc, ps[0].0, Get<string, seq<real>>(acc, ps[0].0).GetOr([]) + [ps[0].1]);
      Group(ps[1..], next)
  }

  /** Each name's group holds exactly that name's percentages, in order. */
  lemma {:induction false} GroupHolds(ps: seq<(string, real)>, acc: Entries<string, seq<real>>, name: string)
    ensures Get<string, seq<real>>(Group(ps, acc), name).GetOr([]) == Get<string, seq<real>>(acc, name).GetOr([]) + PercentagesOf(ps, name)
  {
    if ps != [] {
      var k, p := ps[0].0, ps[0].1;
      var before := Get<string, seq<real>>(acc, k).GetOr([]);
      var next := Put<string, seq<real>>(acc, k, before + [p]);
      GroupHolds(ps[1..], next, name);
      GetPut<string, seq<real>>(acc, k, before + [p], name);
      PercentagesCons(ps, name);
      GroupStep(k == name, p, Get<string, seq<real>>(acc, name).GetOr([]), Get<string, seq<real>>(next, name).GetOr([]),
        PercentagesOf(ps, name), PercentagesOf(ps[1..], name));
    }
  }

  lemma PercentagesCons(ps: seq<(string, real)>, name: string)
    requires ps != []
    ensures PercentagesOf(ps, name) == (if ps[0].0 == name then [ps[0].1] else []) + PercentagesOf(ps[1..], name)
  {
  }

  /** One step of the grouping: the first percentage lands in its own name's group only. */
  lemma GroupStep(matched: bool, p: real, mine: seq<real>, mineNext: seq<real>, all: seq<real>, later: seq<real>)
    requires mineNext == if matched then mine + [p] else mine
    requires all == (if matched then [p] else []) + later
    ensures mineNext + later == mine + all
  {
    if matched {
      assert (mine + [p]) + later == mine + ([p] + later);
    } else {
      assert [] + later == later;
    }
  }

  /** Every group replaced by its mean, keeping the order of first appearance. */
  function Averages(groups: Entries<string, seq<real>>): (r: Entries<string, real>)
    requires NonEmptyGroups(groups)
    ensures |r| == |groups|
    ensures forall i :: 0 <= i < |r| ==> r[i] == (groups[i].0, Mean(groups[i].1))
  {
    seq(|groups|, i requires 0 <= i < |groups| => (groups[i].0, Mean(groups[i].1)))
  }

  /** The criteria averaging at least 70%, in order. */
  function Strong(avgs: Entries<string, real>): (r: seq<string>)
    ensures forall x :: x in r <==> exists i :: 0 <= i < |avgs| && avgs[i].0 == x && avgs[i].1 >= StrengthThreshold
  {
    if avgs == [] then []
    else
      var rest := Strong(avgs[1..]);
      assert forall i :: 1 <= i < |avgs| ==> avgs[i] == avgs[1..][i - 1];
      assert forall x :: (exists i :: 1 <= i < |avgs| && avgs[i].0 == x && avgs[i].1 >= StrengthThreshold) ==> x in rest by {
        forall x | exists i :: 1 <= i < |avgs| && avgs[i].0 == x && avgs[i].1 >= StrengthThreshold
          ensures x in rest
        {
          var i :| 1 <= i < |avgs| && avgs[i].0 == x && avgs[i].1 >= StrengthThreshold;
          assert avgs[1..][i - 1] == avgs[i];
        }
      }
      (if avgs[0].1 >= StrengthThreshold then [avgs[0].0] else []) + rest
  }

  /** The criteria averaging at most 50%, in order (the `elif` branch: never a strength). */
  function Weak(avgs: Entries<string, real>): (r: seq<string>)
    ensures forall x :: x in r <==> exists i :: 0 <= i < |avgs| && avgs[i].0 == x && avgs[i].1 <= WeaknessThreshold
  {
    if avgs == [] then []
    else
      var rest := Weak(avgs[1..]);
      assert forall i :: 1 <= i < |avgs| ==> avgs[i] == avgs[1..][i - 1];
      assert forall x :: (exists i :: 1 <= i < |avgs| && avgs[i].0 == x && avgs[i].1 <= WeaknessThreshold) ==> x in rest by {
        forall x | exists i :: 1 <= i < |avgs| && avgs[i].0 == x && avgs[i].1 <= WeaknessThreshold
          ensures x in rest
        {
          var i :| 1 <= i < |avgs| && avgs[i].0 == x && avgs[i].1 <= WeaknessThreshold;
          assert avgs[1..][i - 1] == avgs[i];
        }
      }
      (if avgs[0].1 >= StrengthThreshold then []
       else if avgs[0].1 <= WeaknessThreshold then [avgs[0].0] else []) + rest
  }

  /** With one average per name, no criterion is both a strength and a weakness. */
  lemma StrongWeakDisjoint(avgs: Entries<string, real>)
    requires KeysDistinct(avgs)
    ensures forall x :: !(x in Strong(avgs) && x in Weak(avgs))
  {
  }

  // Word counts.

  function MinOf(xs: seq<nat>): (m: nat)
    requires xs != []
    ensures m in xs && forall i :: 0 <= i < |xs| ==> m <= xs[i]
  {
    if |xs| == 1 then xs[0]
    else
      var rest := MinOf(xs[1..]);
      assert forall i :: 1 <= i < |xs| ==> xs[i] == xs[1..][i - 1];
      if xs[0] <= rest then xs[0] else rest
  }

  function MaxOf(xs: seq<nat>): (m: nat)
    requires xs != []
    ensures m in xs && forall i :: 0 <= i < |xs| ==> xs[i] <= m
  {
    if |xs| == 1 then xs[0]
    else
      var rest := MaxOf(xs[1..]);
      assert forall i :: 1 <= i < |xs| ==> xs[i] == xs[1..][i - 1];
      if xs[0] >= rest then xs[0] else rest
  }

  function SumNat(xs: seq<nat>): nat {
    if xs == [] then 0 else xs[0] + SumNat(xs[1..])
  }

  /** A sum lies between the count times any lower bound and the count times any upper bound. */
  lemma {:induction false} SumBetween(xs: seq<nat>, lo: nat, hi: nat)
    requires forall i :: 0 <= i < |xs| ==> lo <= xs[i] <= hi
    ensures lo * |xs| <= SumNat(xs) <= hi * |xs|
  {
    if xs != [] {
      assert forall i :: 1 <= i < |xs| ==> xs[i] == xs[1..][i - 1];
      SumBetween(xs[1..], lo, hi);
      assert lo * |xs| == lo + lo * |xs[1..]|;
      assert hi * |xs| == hi + hi * |xs[1..]|;
    }
  }

  function MeanNat(xs: seq<nat>): real
    requires xs != []
  {
    SumNat(xs) as real / |xs| as real
  }

  /** The minimum is at most the average, which is at most the maximum. */
  lemma MeanBetween(xs: seq<nat>)
    requires xs != []
    ensures MinOf(xs) as real <= MeanNat(xs) <= MaxOf(xs) as real
  {
    SumBetween(xs, MinOf(xs), MaxOf(xs));
    DivideBounds(MinOf(xs), SumNat(xs), MaxOf(xs), |xs|);
  }

  /** Dividing `lo * n <= s <= hi * n` by a positive `n`. */
  lemma DivideBounds(lo: nat, s: nat, hi: nat, n: nat)
    requires n > 0 && lo * n <= s <= hi * n
    ensures lo as real <= s as real / n as real <= hi as real
  {
    var q := s as real / n as real;
    assert q * n as real == s as real;
    assert lo as real * n as real == (lo * n) as real;
    assert hi as real * n as real == (hi * n) as real;
  }

  function Percentages(results: seq<Marking.MarkingResult>): (r: seq<real>)
    ensures |r| == |results| && forall i :: 0 <= i < |r| ==> r[i] == results[i].percentage
  {
    seq(|results|, i requires 0 <= i < |results| => results[i].percentage)
  }

  function Grades(results: seq<Marking.MarkingResult>): (r: seq<string>)
    ensures |r| == |results| && forall i :: 0 <= i < |r| ==> r[i] == results[i].grade
  {
    seq(|results|, i requires 0 <= i < |results| => results[i].grade)
  }

  function WordCounts(results: seq<Marking.MarkingResult>): (r: seq<nat>)
    ensures |r| == |results| && forall i :: 0 <= i < |r| ==> r[i] == results[i].statistics.wordCount
  {
    seq(|results|, i requires 0 <= i < |results| => results[i].statistics.wordCount)
  }

  function UrlCounts(results: seq<Marking.MarkingResult>): (r: seq<nat>)
    ensures |r| == |results| && forall i :: 0 <= i < |r| ==> r[i] == results[i].statistics.urlCount
  {
    seq(|results|, i requires 0 <= i < |results| => results[i].statistics.urlCount)
  }

  /** The per-criterion averages, in the order the criterion names first appear. */
  function CriteriaAverages(results: seq<Marking.MarkingResult>): (r: Entries<string, real>)
    ensures KeysDistinct(r)
  {
    var groups := Group(CriterionPercentages(results), []);
    Averages(groups)
  }

  /** `generate_analytics`: an error for no results; otherwise the count, the grade
      distribution whose counts add up to it, disjoint strengths and weaknesses, the means of
      the percentages, word counts and URL counts, and the least and greatest word count. */
  function GenerateAnalytics(results: seq<Marking.MarkingResult>): (r: Result<CohortAnalytics, string>)
    ensures r.Failure? <==> results == []
    ensures r.Failure? ==> r.error == NoResults
    ensures r.Success? ==>
      && r.value.count == |results|
      && SumValues(r.value.gradeDistribution) == r.value.count
      && KeysDistinct(r.value.gradeDistribution)
      && KeysDistinct(r.value.criteriaAverages)
      && r.value.criteriaAverages == CriteriaAverages(results)
      && r.value.strengths == Strong(r.value.criteriaAverages)
      && r.value.weaknesses == Weak(r.value.criteriaAverages)
      && (forall x :: !(x in r.value.strengths && x in r.value.weaknesses))
      && r.value.avgPercentage == Mean(Percentages(results))
      && r.value.avgWordCount == MeanNat(WordCounts(results))
      && r.value.avgUrlCount == MeanNat(UrlCounts(results))
      && r.value.minWordCount in WordCounts(results) && r.value.maxWordCount in WordCounts(results)
      && (forall i :: 0 <= i < |results| ==> r.value.minWordCount <= results[i].statistics.wordCount <= r.value.maxWordCount)
      && r.value.minWordCount as real <= r.value.avgWordCount <= r.value.maxWordCount as real
  {
    if results == [] then Failure(NoResults)
    else
      var grades := Grades(results);
      var distribution := Distribution(grades, []);
      DistributionSum(grades, []);
      var averages := CriteriaAverages(results);
      StrongWeakDisjoint(averages);
      var words := WordCounts(results);
      MeanBetween(words);
      Success(CohortAnalytics(
        |results|,
        Mean(Percentages(results)),
        distribution,
        averages,
        Strong(averages),
        Weak(averages),
        MeanNat(words),
        MinOf(words),
        MaxOf(words),
        MeanNat(UrlCounts(results))))
  }

  /** Each grade's count in the distribution is the number of results with that grade. */
  lemma GradeCountsExact(results: seq<Marking.MarkingResult>, g: string)
    requires results != []
    ensures CountOf(GenerateAnalytics(results).value.gradeDistribution, g) == Occurrences(Grades(results), g)
  {
    DistributionCounts(Grades(results), [], g);
  }

  /** Counting creates a key only when it increments it: the keys are the starting keys and
      the grades counted. */
  lemma {:induction false} DistributionKeys(grades: seq<string>, acc: Entries<string, nat>, g: string)
    ensures g in Keys(Distribution(grades, acc)) <==> g in Keys(acc) || g in grades
  {
    if grades != [] {
      DistributionKeys(grades[1..], Increment(acc, grades[0]), g);
      assert g in grades <==> g == grades[0] || g in grades[1..];
    }
  }

  /** The grade distribution has a key exactly for each grade some result has, so no key
      holds a zero count. */
  lemma GradeKeysExact(results: seq<Marking.MarkingResult>, g: string)
    requires results != []
    ensures g in Keys(GenerateAnalytics(results).value.gradeDistribution) <==> g in Grades(results)
    ensures g in Keys(GenerateAnalytics(results).value.gradeDistribution) ==>
      CountOf(GenerateAnalytics(results).value.gradeDistribution, g) > 0
  {
    DistributionKeys(Grades(results), [], g);
    GradeCountsExact(results, g);
    if g in Grades(results) {
      OccursPositive(Grades(results), g);
    }
  }

  /** Each criterion's average is the mean of the percentages recorded under its name. */
  lemma CriterionAverageExact(results: seq<Marking.MarkingResult>, name: string)
    requires PercentagesOf(CriterionPercentages(results), name) != []
    ensures Get<string, real>(CriteriaAverages(results), name) == Some(Mean(PercentagesOf(CriterionPercentages(results), name)))
  {
    GroupAverage(CriterionPercentages(results), name);
  }

  lemma GroupAverage(ps: seq<(string, real)>, name: string)
    requires PercentagesOf(ps, name) != []
    ensures Get<string, real>(Averages(Group(ps, [])), name) == Some(Mean(PercentagesOf(ps, name)))
  {
    var groups := Group(ps, []);
    GroupHolds(ps, [], name);
    var found := Get<string, seq<real>>(groups, name);
    assert found.Some?;
    assert (name, found.value) in groups;
    var i :| 0 <= i < |groups| && groups[i] == (name, found.value);
    assert found.value == PercentagesOf(ps, name);
    var avgs := Averages(groups);
    assert KeysDistinct(groups);
    assert KeysDistinct(avgs);
    assert avgs[i] == (name, Mean(found.value));
    GetDistinct(avgs, i);
  }

  /** In a map without repeated keys, an entry's key looks up its value. */
  lemma {:induction false} GetDistinct<V>(m: Entries<string, V>, i: nat)
    requires KeysDistinct(m) && i < |m|
    ensures Get<string, V>(m, m[i].0) == Some(m[i].1)
  {
    if i > 0 {
      assert forall j :: 0 < j < |m| ==> m[j] == m[1..][j - 1];
      GetDistinct(m[1..], i - 1);
    }
  }
}

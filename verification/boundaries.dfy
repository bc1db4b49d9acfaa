/**
 * Grade-boundary extraction from rubric text (`_extract_grade_boundaries`).
 *
 * Two scans, both modelled as deterministic left-to-right matchers of the source's regular
 * expressions. No quantifier in either expression ever needs to backtrack to a shorter match
 * for a match to succeed (each greedy run is followed by a character its own class excludes),
 * so "leftmost start, greedy runs" is exactly what Python's `re` returns.
 *
 * 1. Labelled scan: for each grade of a fixed list, the leftmost case-insensitive match of
 *    `(?:Grade|Mark)\s*<Label>:?\s*(\d+)(?:\s*-\s*(\d+))?`. A single number N is stored as
 *    (N, N); a range N-M as (N, M).
 * 2. Generic scan, only when the labelled scan found nothing: every non-overlapping match of
 *    `(\d{1,2})\s*(?:-|to)\s*(\d{1,2})%?\s*(?:=|:)?\s*([A-Za-z]+)`, case-sensitive, stored
 *    under the matched word; a later match for the same word replaces the earlier value.
 */
module Boundaries {
  import opened Wrappers
  import opened Text
  import OrderedMap

  /** Grade grade to inclusive (lower, upper) percentage range, in insertion order. */
  type GradeBoundaries = OrderedMap.Entries<string, (int, int)>

  /** The grades the labelled scan looks for, in the order it looks for them. */
  const Labels: seq<string> := ["A", "B", "C", "D", "F", "Fail", "Pass", "Merit", "Distinction"]

  /** The end of the run of ASCII digits starting at `i`. */
  function DigitRunEnd(t: string, i: nat): (j: nat)
    requires i <= |t|
    ensures i <= j <= |t|
    ensures forall k :: i <= k < j ==> IsDigit(t[k])
    ensures j == |t| || !IsDigit(t[j])
    decreases |t| - i
  {
    if i == |t| || !IsDigit(t[i]) then i else DigitRunEnd(t, i + 1)
  }

  /** The end of the run of ASCII letters starting at `i`. */
  function LetterRunEnd(t: string, i: nat): (j: nat)
    requires i <= |t|
    ensures i <= j <= |t|
    ensures forall k :: i <= k < j ==> IsAsciiLetter(t[k])
    ensures j == |t| || !IsAsciiLetter(t[j])
    decreases |t| - i
  {
    if i == |t| || !IsAsciiLetter(t[i]) then i else LetterRunEnd(t, i + 1)
  }

  predicate IsNumber(s: string) {
    s != [] && AllDigits(s)
  }

  /** `\d+` at index `i`: the digits and the index just past them. */
  function NumberAt(t: string, i: nat): (r: Option<(string, nat)>)
    requires i <= |t|
    ensures r.Some? ==> IsNumber(r.value.0) && i < r.value.1 <= |t| && r.value.0 == t[i..r.value.1]
    ensures r.Some? ==> r.value.1 == |t| || !IsDigit(t[r.value.1])
    ensures r.None? <==> i == |t| || !IsDigit(t[i])
  {
    var e := DigitRunEnd(t, i);
    if e == i then None
    else
      assert AllDigits(t[i..e]) by {
        forall k | 0 <= k < e - i ensures IsDigit(t[i..e][k]) {
          assert t[i..e][k] == t[i + k];
        }
      }
      Some((t[i..e], e))
  }

  /** The index just past `Grade` or `Mark` (either case) at `i`, if one of them is there. */
  function KeywordEnd(t: string, i: nat): (r: Option<nat>)
    requires i <= |t|
    ensures r.Some? ==> i < r.value <= |t|
    ensures r.Some? <==> MatchesFolded(t, i, "grade") || MatchesFolded(t, i, "mark")
  {
    if MatchesFolded(t, i, "grade") then Some(i + 5)
    else if MatchesFolded(t, i, "mark") then Some(i + 4)
    else None
  }

  /** The keyword match ends just past the five letters of `Grade` or the four of `Mark`,
      whichever of the two is at `i`. */
  lemma KeywordEndAt(t: string, i: nat)
    requires i <= |t|
    ensures MatchesFolded(t, i, "grade") ==> KeywordEnd(t, i) == Some(i + 5)
    ensures MatchesFolded(t, i, "mark") ==> KeywordEnd(t, i) == Some(i + 4)
  {
  }

  /** The captured digit strings of one labelled match: the first number and, for a
      range, the second. */
  datatype LabelledMatch = LabelledMatch(low: string, high: Option<string>)

  predicate WellFormed(m: LabelledMatch) {
    IsNumber(m.low) && (m.high.Some? ==> IsNumber(m.high.value))
  }

  /** The optional `\s*-\s*(\d+)` tail after the first number, which ends at `e`. */
  function RangeTail(t: string, e: nat): (r: Option<string>)
    requires e <= |t|
    ensures r.Some? ==> IsNumber(r.value)
  {
    var k := SkipSpace(t, e);
    if k < |t| && t[k] == '-' then
      match NumberAt(t, SkipSpace(t, k + 1))
      case None => None
      case Some((d, _)) => Some(d)
    else None
  }

  /** The labelled pattern for `grade` anchored at index `i`. */
  function LabelledMatchAt(t: string, i: nat, grade: string): (m: Option<LabelledMatch>)
    requires i <= |t|
    ensures m.Some? ==> WellFormed(m.value)
    ensures m.Some? ==> MatchesFolded(t, i, "grade") || MatchesFolded(t, i, "mark")
  {
    match KeywordEnd(t, i)
    case None => None
    case Some(w) =>
      var j := SkipSpace(t, w);
      if !MatchesFolded(t, j, Lower(grade)) then None
      else
        var j1 := j + |grade|;
        var j2 := if j1 < |t| && t[j1] == ':' then j1 + 1 else j1;
        match NumberAt(t, SkipSpace(t, j2))
        case None => None
        case Some((d, e)) => Some(LabelledMatch(d, RangeTail(t, e)))
  }

  /** No labelled match for `grade` starts at an index in `[from, to)`. */
  predicate NoLabelledMatchIn(t: string, from: nat, to: nat, grade: string)
    requires from <= to <= |t| + 1
    decreases |t| + 1 - from
  {
    from == to || (LabelledMatchAt(t, from, grade).None? && NoLabelledMatchIn(t, from + 1, to, grade))
  }

  /** `re.search` from index `i`: the leftmost index with a labelled match, and the match. */
  function SearchLabelled(t: string, i: nat, grade: string): (r: Option<(nat, LabelledMatch)>)
    requires i <= |t|
    ensures r.Some? ==> i <= r.value.0 <= |t| && LabelledMatchAt(t, r.value.0, grade) == Some(r.value.1)
    ensures r.Some? ==> NoLabelledMatchIn(t, i, r.value.0, grade)
    ensures r.None? ==> NoLabelledMatchIn(t, i, |t| + 1, grade)
    decreases |t| - i
  {
    var here := LabelledMatchAt(t, i, grade);
    if here.Some? then Some((i, here.value))
    else if i == |t| then None
    else SearchLabelled(t, i + 1, grade)
  }

  /** The stored pair: (N, N) for a single number, (N, M) for a range. */
  function LabelledPair(m: LabelledMatch): (p: (int, int))
    requires WellFormed(m)
    ensures p.0 == DigitsValue(m.low)
    ensures p.1 == if m.high.Some? then DigitsValue(m.high.value) else p.0
    ensures 0 <= p.0 && 0 <= p.1
  {
    var lo := DigitsValue(m.low);
    match m.high
    case None => (lo, lo)
    case Some(h) => (lo, DigitsValue(h))
  }

  /** The boundary the labelled scan finds for `grade`, if any. */
  function LabelledBoundary(t: string, grade: string): Option<(int, int)> {
    match SearchLabelled(t, 0, grade)
    case None => None
    case Some((_, m)) => Some(LabelledPair(m))
  }

  /** The search result for each grade of `grades`, in order: what the labelled scan's
      `re.search` calls return. */
  function Searches(t: string, grades: seq<string>): (rs: seq<(string, Option<(int, int)>)>)
    ensures |rs| == |grades|
    ensures forall i :: 0 <= i < |grades| ==> rs[i] == (grades[i], LabelledBoundary(t, grades[i]))
  {
    seq(|grades|, i requires 0 <= i < |grades| => (grades[i], LabelledBoundary(t, grades[i])))
  }

  /** The grades whose search found a boundary, in search order. */
  function Found(rs: seq<(string, Option<(int, int)>)>): (r: seq<string>)
    ensures forall i :: 0 <= i < |rs| && rs[i].1.Some? ==> rs[i].0 in r
    ensures forall g :: g in r ==> exists i :: 0 <= i < |rs| && rs[i].0 == g && rs[i].1.Some?
  {
    if rs == [] then []
    else
      var later := Found(rs[1..]);
      assert forall i :: 0 < i < |rs| ==> rs[i] == rs[1..][i - 1];
      (if rs[0].1.Some? then [rs[0].0] else []) + later
  }

  /** The grades searched for, in search order. */
  function SearchedGrades(rs: seq<(string, Option<(int, int)>)>): (gs: seq<string>)
    ensures |gs| == |rs|
    ensures forall i :: 0 <= i < |rs| ==> gs[i] == rs[i].0
  {
    seq(|rs|, i requires 0 <= i < |rs| => rs[i].0)
  }

  /** The grades of `rs` are pairwise different and none is a key of `acc` yet. */
  predicate FreshGrades(rs: seq<(string, Option<(int, int)>)>, acc: GradeBoundaries) {
    && (forall i, j :: 0 <= i < j < |rs| ==> rs[i].0 != rs[j].0)
    && (forall i :: 0 <= i < |rs| ==> rs[i].0 !in OrderedMap.Keys(acc))
  }

  /** The labelled scan's loop over the search results `rs`: `d[grade] = pair` for each
      search that found one. The keys are those of `acc` followed by the found grades in
      search order; each searched grade holds its result; nothing else changes. */
  function LabelledScan(rs: seq<(string, Option<(int, int)>)>, acc: GradeBoundaries): (r: GradeBoundaries)
    requires OrderedMap.KeysDistinct(acc)
    requires FreshGrades(rs, acc)
    ensures OrderedMap.KeysDistinct(r)
    ensures OrderedMap.Keys(r) == OrderedMap.Keys(acc) + Found(rs)
    ensures forall i :: 0 <= i < |rs| ==> OrderedMap.Get(r, rs[i].0) == rs[i].1
    ensures forall k :: k !in SearchedGrades(rs) ==> OrderedMap.Get(r, k) == OrderedMap.Get(acc, k)
    decreases |rs|
  {
    if rs == [] then
      assert OrderedMap.Keys(acc) + Found(rs) == OrderedMap.Keys(acc);
      acc
    else
      StoreFirstFresh(rs, acc);
      var r := LabelledScan(rs[1..], StoreFirst(rs, acc));
      LabelledKeysStep(rs, acc);
      StoreFirstThenRestGets(rs, acc, r);
      StoreFirstThenRestKeeps(rs, acc, r);
      r
  }

  /** `d[grade] = pair` for the first search result, if it found one. */
  function StoreFirst(rs: seq<(string, Option<(int, int)>)>, acc: GradeBoundaries): GradeBoundaries
    requires rs != []
  {
    if rs[0].1.Some? then OrderedMap.Put(acc, rs[0].0, rs[0].1.value) else acc
  }

  /** After the first result is stored, the rest still meet the scan's precondition. */
  lemma StoreFirstFresh(rs: seq<(string, Option<(int, int)>)>, acc: GradeBoundaries)
    requires rs != [] && OrderedMap.KeysDistinct(acc) && FreshGrades(rs, acc)
    ensures OrderedMap.KeysDistinct(StoreFirst(rs, acc)) && FreshGrades(rs[1..], StoreFirst(rs, acc))
  {
    var rest := rs[1..];
    forall i | 0 <= i < |rest| ensures rest[i].0 !in OrderedMap.Keys(StoreFirst(rs, acc)) {
      assert rest[i] == rs[i + 1];
    }
    forall i, j | 0 <= i < j < |rest| ensures rest[i].0 != rest[j].0 {
      assert rest[i] == rs[i + 1] && rest[j] == rs[j + 1];
    }
  }

  /** The first grade is not among the grades of the rest. */
  lemma FirstNotInRest(rs: seq<(string, Option<(int, int)>)>, acc: GradeBoundaries)
    requires rs != [] && FreshGrades(rs, acc)
    ensures rs[0].0 !in SearchedGrades(rs[1..])
    ensures SearchedGrades(rs) == [rs[0].0] + SearchedGrades(rs[1..])
  {
    var rest := rs[1..];
    forall j | 0 <= j < |rest| ensures SearchedGrades(rest)[j] != rs[0].0 {
      assert rest[j] == rs[j + 1];
    }
  }

  /** Each searched grade holds its result once the rest are stored after the first. */
  lemma StoreFirstThenRestGets(rs: seq<(string, Option<(int, int)>)>, acc: GradeBoundaries, r: GradeBoundaries)
    requires rs != [] && FreshGrades(rs, acc)
    requires forall i :: 0 <= i < |rs[1..]| ==> OrderedMap.Get(r, rs[1..][i].0) == rs[1..][i].1
    requires forall k :: k !in SearchedGrades(rs[1..]) ==> OrderedMap.Get(r, k) == OrderedMap.Get(StoreFirst(rs, acc), k)
    ensures forall i :: 0 <= i < |rs| ==> OrderedMap.Get(r, rs[i].0) == rs[i].1
  {
    FirstNotInRest(rs, acc);
    LabelledGetStep(rs, acc, rs[0].0);
    forall i | 0 < i < |rs| ensures OrderedMap.Get(r, rs[i].0) == rs[i].1 {
      assert rs[i] == rs[1..][i - 1];
    }
  }

  /** A grade never searched keeps its value once the rest are stored after the first. */
  lemma StoreFirstThenRestKeeps(rs: seq<(string, Option<(int, int)>)>, acc: GradeBoundaries, r: GradeBoundaries)
    requires rs != [] && FreshGrades(rs, acc)
    requires forall k :: k !in SearchedGrades(rs[1..]) ==> OrderedMap.Get(r, k) == OrderedMap.Get(StoreFirst(rs, acc), k)
    ensures forall k :: k !in SearchedGrades(rs) ==> OrderedMap.Get(r, k) == OrderedMap.Get(acc, k)
  {
    FirstNotInRest(rs, acc);
    forall k | k !in SearchedGrades(rs) ensures OrderedMap.Get(r, k) == OrderedMap.Get(acc, k) {
      LabelledGetStep(rs, acc, k);
    }
  }

  /** Storing the first search result sets its grade and leaves every other key alone. */
  lemma LabelledGetStep(rs: seq<(string, Option<(int, int)>)>, acc: GradeBoundaries, k: string)
    requires rs != [] && rs[0].0 !in OrderedMap.Keys(acc)
    ensures OrderedMap.Get(StoreFirst(rs, acc), k) == if k == rs[0].0 then rs[0].1 else OrderedMap.Get(acc, k)
  {
    if rs[0].1.Some? {
      OrderedMap.GetPut(acc, rs[0].0, rs[0].1.value, k);
    }
  }

  /** Storing the first search result, then the found grades of the rest, adds the found
      grades of all. */
  lemma LabelledKeysStep(rs: seq<(string, Option<(int, int)>)>, acc: GradeBoundaries)
    requires rs != [] && rs[0].0 !in OrderedMap.Keys(acc)
    ensures OrderedMap.Keys(StoreFirst(rs, acc)) + Found(rs[1..]) == OrderedMap.Keys(acc) + Found(rs)
  {
    var found := if rs[0].1.Some? then [rs[0].0] else [];
    assert Found(rs) == found + Found(rs[1..]);
    assert OrderedMap.Keys(acc) + found + Found(rs[1..]) == OrderedMap.Keys(acc) + (found + Found(rs[1..]));
  }

  /** The captures of one generic match and the index just past it. */
  datatype RangeMatch = RangeMatch(low: string, high: string, grade: string, end: nat)

  predicate IsWord(s: string) {
    s != [] && forall k :: 0 <= k < |s| ==> IsAsciiLetter(s[k])
  }

  /** What the generic pattern's groups can capture: one or two digits, one or two digits,
      and a word of letters. */
  predicate ValidRange(m: RangeMatch) {
    && IsNumber(m.low) && |m.low| <= 2
    && IsNumber(m.high) && |m.high| <= 2
    && IsWord(m.grade)
  }

  /** `\d{1,2}` at index `i`. A run of three or more digits never matches: neither its
      two- nor its one-digit prefix is followed by what the pattern needs next. */
  function ShortNumberAt(t: string, i: nat): (r: Option<(string, nat)>)
    requires i <= |t|
    ensures r.Some? ==> IsNumber(r.value.0) && |r.value.0| <= 2 && i < r.value.1 <= |t|
    ensures r.Some? ==> r.value.0 == t[i..r.value.1] && (r.value.1 == |t| || !IsDigit(t[r.value.1]))
    ensures r.None? <==> i == |t| || !IsDigit(t[i]) || DigitRunEnd(t, i) > i + 2
  {
    match NumberAt(t, i)
    case None => None
    case Some((d, e)) => if |d| > 2 then None else Some((d, e))
  }

  /** The index just past `-` or `to` at index `s`, if one of them is there. */
  function SeparatorEnd(t: string, s: nat): (r: Option<nat>)
    requires s <= |t|
    ensures r.Some? ==> s < r.value <= |t|
    ensures r.None? <==> !(s < |t| && t[s] == '-') && !OccursAt("to", t, s)
  {
    if s < |t| && t[s] == '-' then Some(s + 1)
    else if OccursAt("to", t, s) then Some(s + 2)
    else None
  }

  /** The `%?\s*(?:=|:)?\s*([A-Za-z]+)` suffix starting at index `p`: the word and the
      index just past it. */
  function GradeWordAt(t: string, p: nat): (r: Option<(string, nat)>)
    requires p <= |t|
    ensures r.Some? ==> IsWord(r.value.0) && p < r.value.1 <= |t|
    ensures r.Some? ==> OccursAt(r.value.0, t, r.value.1 - |r.value.0|)
    ensures r.Some? ==> r.value.1 == |t| || !IsAsciiLetter(t[r.value.1])
  {
    var p1 := if p < |t| && t[p] == '%' then p + 1 else p;
    var q := SkipSpace(t, p1);
    var q1 := if q < |t| && (t[q] == '=' || t[q] == ':') then q + 1 else q;
    var w := SkipSpace(t, q1);
    var we := LetterRunEnd(t, w);
    if we == w then None
    else
      assert IsWord(t[w..we]) by {
        forall k | 0 <= k < we - w ensures IsAsciiLetter(t[w..we][k]) {
          assert t[w..we][k] == t[w + k];
        }
      }
      Some((t[w..we], we))
  }

  /** The generic pattern anchored at index `i`: the first number starts at `i` and is the
      whole digit run there, and the word ends the match and is the whole letter run. */
  function RangeMatchAt(t: string, i: nat): (m: Option<RangeMatch>)
    requires i <= |t|
    ensures m.Some? ==> i < m.value.end <= |t| && ValidRange(m.value)
    ensures m.Some? ==> OccursAt(m.value.low, t, i)
    ensures m.Some? ==> i + |m.value.low| == |t| || !IsDigit(t[i + |m.value.low|])
    ensures m.Some? ==> OccursAt(m.value.grade, t, m.value.end - |m.value.grade|)
    ensures m.Some? ==> m.value.end == |t| || !IsAsciiLetter(t[m.value.end])
    ensures ShortNumberAt(t, i).None? ==> m.None?
  {
    match ShortNumberAt(t, i)
    case None => None
    case Some((lo, e1)) =>
      match SeparatorEnd(t, SkipSpace(t, e1))
      case None => None
      case Some(s) =>
        match ShortNumberAt(t, SkipSpace(t, s))
        case None => None
        case Some((hi, e2)) =>
          match GradeWordAt(t, e2)
          case None => None
          case Some((g, we)) => Some(RangeMatch(lo, hi, g, we))
  }

  /** A digit run from `i` that stops at `j` is the one `DigitRunEnd` finds. */
  lemma {:induction false} DigitRunAt(t: string, i: nat, j: nat)
    requires i <= j <= |t|
    requires forall k :: i <= k < j ==> IsDigit(t[k])
    requires j == |t| || !IsDigit(t[j])
    ensures DigitRunEnd(t, i) == j
    decreases j - i
  {
    if i < j {
      DigitRunAt(t, i + 1, j);
    }
  }

  /** A letter run from `i` that stops at `j` is the one `LetterRunEnd` finds. */
  lemma {:induction false} LetterRunAt(t: string, i: nat, j: nat)
    requires i <= j <= |t|
    requires forall k :: i <= k < j ==> IsAsciiLetter(t[k])
    requires j == |t| || !IsAsciiLetter(t[j])
    ensures LetterRunEnd(t, i) == j
    decreases j - i
  {
    if i < j {
      LetterRunAt(t, i + 1, j);
    }
  }

  /** A run of one or two digits from `i` to `j` is a short number. */
  lemma ShortNumberRun(t: string, i: nat, j: nat)
    requires i < j <= i + 2 && j <= |t|
    requires forall k :: i <= k < j ==> IsDigit(t[k])
    requires j == |t| || !IsDigit(t[j])
    ensures ShortNumberAt(t, i) == Some((t[i..j], j))
  {
    DigitRunAt(t, i, j);
  }

  /** `% = ` followed by a maximal run of letters is the grade-word suffix. */
  lemma GradeWordRun(t: string, p: nat, we: nat)
    requires p + 4 < we <= |t|
    requires t[p] == '%' && t[p + 1] == ' ' && t[p + 2] == '=' && t[p + 3] == ' '
    requires forall k :: p + 4 <= k < we ==> IsAsciiLetter(t[k])
    requires we == |t| || !IsAsciiLetter(t[we])
    ensures GradeWordAt(t, p) == Some((t[p + 4..we], we))
  {
    LetterRunAt(t, p + 4, we);
    assert SkipSpace(t, p + 1) == p + 2;
    assert SkipSpace(t, p + 3) == p + 4;
  }

  /** A rubric line `<a>-<b>% = <word>` laid out from index `i`, with one or two digits in
      each number and a word not followed by a letter, is matched there, whatever precedes
      it. */
  lemma RangeLineAt(t: string, i: nat, e1: nat, e2: nat, we: nat)
    requires i < e1 <= i + 2 && e1 + 1 < e2 <= e1 + 3 && e2 + 4 < we <= |t|
    requires forall k :: i <= k < e1 ==> IsDigit(t[k])
    requires t[e1] == '-'
    requires forall k :: e1 + 1 <= k < e2 ==> IsDigit(t[k])
    requires t[e2] == '%' && t[e2 + 1] == ' ' && t[e2 + 2] == '=' && t[e2 + 3] == ' '
    requires forall k :: e2 + 4 <= k < we ==> IsAsciiLetter(t[k])
    requires we == |t| || !IsAsciiLetter(t[we])
    ensures RangeMatchAt(t, i) == Some(RangeMatch(t[i..e1], t[e1 + 1..e2], t[e2 + 4..we], we))
  {
    ShortNumberRun(t, i, e1);
    ShortNumberRun(t, e1 + 1, e2);
    GradeWordRun(t, e2, we);
    assert SkipSpace(t, e1) == e1;
    assert SkipSpace(t, e1 + 1) == e1 + 1;
  }

  /** A boundary whose two numbers have at most two digits each. */
  predicate TwoDigitRange(p: (int, int)) {
    0 <= p.0 <= 99 && 0 <= p.1 <= 99
  }

  /** The pair one generic match stores: `(int(low), int(high))`. */
  function PairOf(m: RangeMatch): (p: (int, int))
    requires ValidRange(m)
    ensures TwoDigitRange(p)
  {
    DigitsValueBound(m.low);
    DigitsValueBound(m.high);
    (DigitsValue(m.low), DigitsValue(m.high))
  }

  /** What a table of anchored matches can hold: each match ends after its start and
      within the text, and has the shape the pattern's groups capture. */
  predicate WellFormedHits(h: seq<Option<RangeMatch>>) {
    forall k :: 0 <= k < |h| && h[k].Some? ==> k < h[k].value.end <= |h| && ValidRange(h[k].value)
  }

  /** The generic pattern anchored at each index of `t`. */
  function MatchTable(t: string): (h: seq<Option<RangeMatch>>)
    ensures |h| == |t| && WellFormedHits(h)
    ensures forall k :: 0 <= k < |t| ==> h[k] == RangeMatchAt(t, k)
  {
    seq(|t|, k requires 0 <= k < |t| => RangeMatchAt(t, k))
  }

  /** The matches `re.finditer` yields from index `i`, each with its start index, given the
      anchored match at each index; after a match the search resumes where it ended. */
  function RangeMatches(h: seq<Option<RangeMatch>>, i: nat): (ms: seq<(nat, RangeMatch)>)
    requires WellFormedHits(h) && i <= |h|
    ensures forall n :: 0 <= n < |ms| ==> i <= ms[n].0 < |h| && h[ms[n].0] == Some(ms[n].1)
    ensures forall n :: 0 <= n < |ms| ==> ValidRange(ms[n].1) && ms[n].0 < ms[n].1.end
    ensures forall n :: 0 <= n < |ms| - 1 ==> ms[n].1.end <= ms[n + 1].0
    decreases |h| - i
  {
    if i == |h| then []
    else
      match h[i]
      case None => RangeMatches(h, i + 1)
      case Some(m) =>
        var rest := RangeMatches(h, m.end);
        var ms := [(i, m)] + rest;
        assert forall n :: 0 < n < |ms| ==> ms[n] == rest[n - 1];
        assert rest != [] ==> m.end <= rest[0].0;
        ms
  }

  /** Index `k` is the start of one of the matches `ms` or lies inside one. */
  predicate Covered(ms: seq<(nat, RangeMatch)>, k: nat) {
    exists n :: 0 <= n < |ms| && ms[n].0 <= k < ms[n].1.end
  }

  /** The listed match that starts at or covers `k`, where there is a match at `k`. */
  lemma {:induction false} CoveringMatch(h: seq<Option<RangeMatch>>, i: nat, k: nat) returns (n: nat)
    requires WellFormedHits(h) && i <= k < |h| && h[k].Some?
    ensures n < |RangeMatches(h, i)| && RangeMatches(h, i)[n].0 <= k < RangeMatches(h, i)[n].1.end
    decreases |h| - i
  {
    var ms := RangeMatches(h, i);
    if h[i].None? {
      assert k != i;
      assert ms == RangeMatches(h, i + 1);
      n := CoveringMatch(h, i + 1, k);
    } else {
      var m := h[i].value;
      var rest := RangeMatches(h, m.end);
      assert ms == [(i, m)] + rest;
      if k < m.end {
        n := 0;
      } else {
        var r := CoveringMatch(h, m.end, k);
        n := r + 1;
        assert ms[n] == rest[r];
      }
    }
  }

  /** `re.finditer` over `t` lists exactly the generic matches it should: each listed match
      is the pattern anchored at its start, and every index at which the pattern matches is
      the start of a listed match or lies inside one, where the search does not look. */
  lemma RangeMatchesComplete(t: string, i: nat, k: nat)
    requires i <= k <= |t|
    ensures forall n :: 0 <= n < |RangeMatches(MatchTable(t), i)| ==>
      RangeMatchAt(t, RangeMatches(MatchTable(t), i)[n].0) == Some(RangeMatches(MatchTable(t), i)[n].1)
    ensures RangeMatchAt(t, k).Some? ==> Covered(RangeMatches(MatchTable(t), i), k)
  {
    var h := MatchTable(t);
    var ms := RangeMatches(h, i);
    forall n | 0 <= n < |ms| ensures RangeMatchAt(t, ms[n].0) == Some(ms[n].1) {
      assert h[ms[n].0] == Some(ms[n].1);
    }
    if RangeMatchAt(t, k).Some? {
      assert k < |t| && h[k] == RangeMatchAt(t, k);
      var n := CoveringMatch(h, i, k);
      assert ms[n].0 <= k < ms[n].1.end;
    }
  }

  /** Every matched word, in match order. */
  function MatchedGrades(ms: seq<(nat, RangeMatch)>): (ws: seq<string>)
    ensures |ws| == |ms|
    ensures forall n :: 0 <= n < |ms| ==> ws[n] == ms[n].1.grade
  {
    seq(|ms|, n requires 0 <= n < |ms| => ms[n].1.grade)
  }

  /** The words of `ms` are those of its first `j` matches followed by those of the rest. */
  lemma MatchedGradesSplit(ms: seq<(nat, RangeMatch)>, j: nat)
    requires j <= |ms|
    ensures MatchedGrades(ms) == MatchedGrades(ms[..j]) + MatchedGrades(ms[j..])
  {
    var a, b := MatchedGrades(ms[..j]), MatchedGrades(ms[j..]);
    forall n | 0 <= n < |ms| ensures (a + b)[n] == MatchedGrades(ms)[n] {
      if n < j {
        assert ms[..j][n] == ms[n];
      } else {
        assert ms[j..][n - j] == ms[n];
      }
    }
  }

  /** The matched words not in `seen`, each once, in the order of their first match: the
      keys a sequence of `d[word] = ...` assignments adds to a dictionary with keys `seen`. */
  function NewWords(ms: seq<(nat, RangeMatch)>, seen: seq<string>): (r: seq<string>)
    ensures forall w :: w in r <==> w in MatchedGrades(ms) && w !in seen
    ensures forall a, b :: 0 <= a < b < |r| ==> r[a] != r[b]
    decreases |ms|
  {
    if ms == [] then []
    else
      var w := ms[0].1.grade;
      MatchedGradesSplit(ms, 1);
      assert MatchedGrades(ms[..1]) == [w];
      if w in seen then NewWords(ms[1..], seen)
      else
        var later := NewWords(ms[1..], seen + [w]);
        assert (seen + [w])[|seen|] == w;
        assert w !in later;
        assert forall k :: 0 <= k < |later| ==> later[k] in later && later[k] != w;
        [w] + later
  }

  /** The pair of the last match whose word is `w`: the value `d[w]` holds once every
      assignment has run. */
  function LastPair(ms: seq<(nat, RangeMatch)>, w: string): (r: Option<(int, int)>)
    requires forall n :: 0 <= n < |ms| ==> ValidRange(ms[n].1)
    ensures r.None? <==> w !in MatchedGrades(ms)
    decreases |ms|
  {
    if ms == [] then None
    else
      MatchedGradesSplit(ms, |ms| - 1);
      assert MatchedGrades(ms[|ms| - 1..]) == [ms[|ms| - 1].1.grade];
      if ms[|ms| - 1].1.grade == w then Some(PairOf(ms[|ms| - 1].1))
      else LastPair(ms[..|ms| - 1], w)
  }

  /** A match in front of `ms` only decides `LastPair` for a word `ms` never matches. */
  lemma {:induction false} LastPairCons(x: (nat, RangeMatch), ms: seq<(nat, RangeMatch)>, w: string)
    requires ValidRange(x.1)
    requires forall n :: 0 <= n < |ms| ==> ValidRange(ms[n].1)
    ensures forall n :: 0 <= n < |[x] + ms| ==> ValidRange(([x] + ms)[n].1)
    ensures LastPair([x] + ms, w) ==
      if LastPair(ms, w).Some? then LastPair(ms, w)
      else if x.1.grade == w then Some(PairOf(x.1))
      else None
    decreases |ms|
  {
    var xs := [x] + ms;
    assert forall n :: 0 < n < |xs| ==> xs[n] == ms[n - 1];
    if ms == [] {
      assert xs[..|xs| - 1] == [];
    } else {
      assert xs[|xs| - 1] == ms[|ms| - 1];
      assert xs[..|xs| - 1] == [x] + ms[..|ms| - 1];
      if ms[|ms| - 1].1.grade != w {
        LastPairCons(x, ms[..|ms| - 1], w);
      }
    }
  }

  /** The generic scan's loop over the matches `ms`: `d[word] = (int(low), int(high))` for
      each in turn. The keys are those of `acc` followed by the new words in order of first
      match, and each word holds the pair of its last match. */
  function StoreMatches(ms: seq<(nat, RangeMatch)>, acc: GradeBoundaries): (r: GradeBoundaries)
    requires forall n :: 0 <= n < |ms| ==> ValidRange(ms[n].1)
    requires OrderedMap.KeysDistinct(acc)
    ensures OrderedMap.KeysDistinct(r)
    ensures forall e :: e in r ==> e in acc || (IsWord(e.0) && TwoDigitRange(e.1))
    ensures OrderedMap.Keys(r) == OrderedMap.Keys(acc) + NewWords(ms, OrderedMap.Keys(acc))
    ensures forall w ::
      OrderedMap.Get(r, w) == (if LastPair(ms, w).Some? then LastPair(ms, w) else OrderedMap.Get(acc, w))
    decreases |ms|
  {
    if ms == [] then acc
    else
      var m := ms[0].1;
      var acc' := OrderedMap.Put(acc, m.grade, PairOf(m));
      StoreKeysStep(ms, acc);
      forall w ensures
        (if LastPair(ms[1..], w).Some? then LastPair(ms[1..], w) else OrderedMap.Get(acc', w))
        == (if LastPair(ms, w).Some? then LastPair(ms, w) else OrderedMap.Get(acc, w))
      {
        StoreGetStep(ms, acc, w);
      }
      StoreMatches(ms[1..], acc')
  }

  /** Storing the first match, then the new words of the rest, adds the new words of all. */
  lemma StoreKeysStep(ms: seq<(nat, RangeMatch)>, acc: GradeBoundaries)
    requires ms != [] && ValidRange(ms[0].1)
    ensures
      var acc' := OrderedMap.Put(acc, ms[0].1.grade, PairOf(ms[0].1));
      OrderedMap.Keys(acc') + NewWords(ms[1..], OrderedMap.Keys(acc'))
      == OrderedMap.Keys(acc) + NewWords(ms, OrderedMap.Keys(acc))
  {
    var g := ms[0].1.grade;
    var keys := OrderedMap.Keys(acc);
    if g !in keys {
      var later := NewWords(ms[1..], keys + [g]);
      assert NewWords(ms, keys) == [g] + later;
      assert keys + [g] + later == keys + ([g] + later);
    }
  }

  /** Storing the first match, then the last pairs of the rest, gives the last pairs of all. */
  lemma StoreGetStep(ms: seq<(nat, RangeMatch)>, acc: GradeBoundaries, w: string)
    requires ms != []
    requires forall n :: 0 <= n < |ms| ==> ValidRange(ms[n].1)
    ensures forall n :: 0 <= n < |ms[1..]| ==> ValidRange(ms[1..][n].1)
    ensures
      var acc' := OrderedMap.Put(acc, ms[0].1.grade, PairOf(ms[0].1));
      (if LastPair(ms[1..], w).Some? then LastPair(ms[1..], w) else OrderedMap.Get(acc', w))
      == (if LastPair(ms, w).Some? then LastPair(ms, w) else OrderedMap.Get(acc, w))
  {
    assert ms == [ms[0]] + ms[1..];
    OrderedMap.GetPut(acc, ms[0].1.grade, PairOf(ms[0].1), w);
    LastPairCons(ms[0], ms[1..], w);
  }

  /** No label is listed twice. */
  lemma LabelsDistinct()
    ensures forall i, j :: 0 <= i < j < |Labels| ==> Labels[i] != Labels[j]
  {
  }

  /** The result of the labelled scan over all nine labels: the found labels in list
      order, each with the boundary its search found. */
  function LabelledBoundaries(t: string): (r: GradeBoundaries)
    ensures OrderedMap.KeysDistinct(r)
    ensures OrderedMap.Keys(r) == Found(Searches(t, Labels))
    ensures forall g :: g in OrderedMap.Keys(r) <==> g in Labels && LabelledBoundary(t, g).Some?
    ensures forall i :: 0 <= i < |Labels| ==> OrderedMap.Get(r, Labels[i]) == LabelledBoundary(t, Labels[i])
  {
    LabelsDistinct();
    var empty: GradeBoundaries := [];
    assert OrderedMap.Keys(empty) == [];
    LabelledScan(Searches(t, Labels), empty)
  }

  /** `_extract_grade_boundaries`: the labelled scan, or the generic scan when the labelled
      scan found nothing. */
  function ExtractGradeBoundaries(t: string): (r: GradeBoundaries)
    ensures OrderedMap.KeysDistinct(r)
    ensures LabelledBoundaries(t) != [] ==> r == LabelledBoundaries(t)
    ensures LabelledBoundaries(t) == [] ==> forall e :: e in r ==> IsWord(e.0) && TwoDigitRange(e.1)
    ensures LabelledBoundaries(t) == [] ==> OrderedMap.Keys(r) == NewWords(RangeMatches(MatchTable(t), 0), [])
    ensures LabelledBoundaries(t) == [] ==> forall w :: OrderedMap.Get(r, w) == LastPair(RangeMatches(MatchTable(t), 0), w)
  {
    var labelled := LabelledBoundaries(t);
    if labelled != [] then labelled
    else
      var empty: GradeBoundaries := [];
      assert OrderedMap.Keys(empty) == [];
      StoreMatches(RangeMatches(MatchTable(t), 0), empty)
  }

  /** A rubric line with a labelled range. */
  const LabelledLine: string := "Grade A: 70-100"

  /** `Grade` at the start of the labelled line ends at index 5. */
  lemma LabelledLineKeyword()
    ensures KeywordEnd(LabelledLine, 0) == Some(5)
  {
    var t := LabelledLine;
    assert MatchesFolded(t, 0, "grade") by {
      assert t[..5] == "Grade";
      assert "grade"[1..] == "rade" && "rade"[1..] == "ade" && "ade"[1..] == "de" && "de"[1..] == "e" && "e"[1..] == "";
    }
  }

  /** The label `A` follows the keyword and a space. */
  lemma LabelledLineLabel()
    ensures SkipSpace(LabelledLine, 5) == 6 && Lower("A") == "a" && MatchesFolded(LabelledLine, 6, "a")
  {
    assert SkipSpace(LabelledLine, 5) == 6;
    assert Lower("A") == "a";
    assert "a"[1..] == "";
  }

  /** After `A:` and a space comes the number `70`. */
  lemma LabelledLineLow()
    ensures SkipSpace(LabelledLine, 8) == 9 && NumberAt(LabelledLine, 9) == Some(("70", 11))
  {
    var t := LabelledLine;
    assert SkipSpace(t, 8) == 9;
    assert DigitRunEnd(t, 9) == 11;
    assert t[9..11] == "70";
  }

  /** The range tail `-100`: all three digits are captured, as `\d+` does. */
  lemma LabelledLineHigh()
    ensures RangeTail(LabelledLine, 11) == Some("100")
  {
    var t := LabelledLine;
    assert SkipSpace(t, 11) == 11;
    assert SkipSpace(t, 12) == 12;
    assert DigitRunEnd(t, 12) == 15;
    assert t[12..15] == "100";
  }

  lemma SmallDigitValues()
    ensures DigitsValue("00") == 0 && DigitsValue("70") == 70
    ensures DigitsValue("79") == 79 && DigitsValue("100") == 100
  {
    assert "00"[..1] == "0" && "0"[..0] == "";
    assert "70"[..1] == "7" && "7"[..0] == "";
    assert "79"[..1] == "7";
    assert "100"[..2] == "10" && "10"[..1] == "1" && "1"[..0] == "";
  }

  /** `Grade A: 70-100` gives grade A the boundary (70, 100). */
  lemma LabelledRangeExample()
    ensures LabelledBoundary(LabelledLine, "A") == Some((70, 100))
  {
    LabelledLineKeyword();
    LabelledLineLabel();
    LabelledLineLow();
    LabelledLineHigh();
    SmallDigitValues();
    assert LabelledLine[7] == ':';
    assert LabelledMatchAt(LabelledLine, 0, "A") == Some(LabelledMatch("70", Some("100")));
  }

  /** A generic rubric line whose range starts at 100. */
  const HundredLine: string := "100-79% = A"

  /** The captures of the `100-79% = A` line, read off its characters. */
  lemma HundredLineParts()
    ensures HundredLine[1..3] == "00" && HundredLine[4..6] == "79" && HundredLine[10..11] == "A"
  {
  }

  /** In `100-79% = A` no match starts at the `1`, since three digits are too many, but one
      starts at the `00` after it: grade A gets the boundary (0, 79). */
  lemma HundredLineExample()
    ensures RangeMatchAt(HundredLine, 0).None?
    ensures RangeMatchAt(HundredLine, 1) == Some(RangeMatch("00", "79", "A", 11))
    ensures PairOf(RangeMatch("00", "79", "A", 11)) == (0, 79)
  {
    DigitRunAt(HundredLine, 0, 3);
    RangeLineAt(HundredLine, 1, 3, 6, 11);
    HundredLineParts();
    SmallDigitValues();
  }
}

/**
 * Rubric parsing (`process_rubric`): criteria by three tiers, each consulted only when the
 * previous one found nothing, plus the grade boundaries.
 *
 * 1. The weighted-header pass (`Name (40%): description`) is a regular-expression scan whose
 *    criteria carry keywords from the NLP keyword extractor; it is a parameter here.
 * 2. The paragraph pass: the text is split on blank lines; a stripped paragraph of at most ten
 *    words ending in `:` or `)` is a header, named by the paragraph with trailing `:` and `)`
 *    removed; the paragraphs after it, up to the next header, form its description. Every
 *    criterion of this pass weighs 25.
 * 3. The fixed default set Content 40, Structure 30, Research 20, Language 10.
 */
module Rubric {
  import opened Text
  import opened Boundaries

  datatype Criterion = Criterion(name: string, weight: int, description: string, keywords: seq<string>)

  datatype RubricAnalysis = RubricAnalysis(criteria: seq<Criterion>, gradeBoundaries: GradeBoundaries, fullText: string)

  /** `_extract_keywords`: named entities, noun phrases and verbs of a text, lower-cased,
      de-duplicated, longest first, at most twenty. Supplied by the NLP layer. */
  type KeywordExtractor = string -> seq<string>

  const ParagraphBreak: string := "\n\n"
  const HeaderWordLimit: nat := 10
  const ParagraphWeight: int := 25

  const DefaultCriteria: seq<Criterion> := [
    Criterion("Content", 40, "Quality and comprehensiveness of content",
      ["content", "quality", "comprehensive", "understanding", "knowledge"]),
    Criterion("Structure", 30, "Organization and logical flow",
      ["structure", "organization", "flow", "coherent", "logical"]),
    Criterion("Research", 20, "Use of sources and evidence",
      ["research", "sources", "evidence", "references", "citation"]),
    Criterion("Language", 10, "Grammar, spelling, and academic writing style",
      ["language", "grammar", "spelling", "writing", "style"])
  ]

  /** A stripped, non-empty paragraph that opens a new criterion. */
  predicate IsHeader(p: string) {
    |Words(p)| <= HeaderWordLimit && (EndsWithChar(p, ':') || EndsWithChar(p, ')'))
  }

  /** `para.rstrip(':)')`. */
  function HeaderName(p: string): string {
    RStripChars(p, {':', ')'})
  }

  /** The criterion a header named `name` produces from its description paragraphs. */
  function SectionCriterion(name: string, body: seq<string>, keywords: KeywordExtractor): (c: Criterion)
    ensures c.name == name && c.weight == ParagraphWeight
    ensures c.keywords == keywords(c.description)
  {
    var description := Join(body, " ");
    Criterion(name, ParagraphWeight, description, keywords(description))
  }

  /** Saving the criterion being built. The source tests it for truthiness, so a header whose
      name strips down to the empty string counts as no criterion at all. */
  function Flush(current: string, body: seq<string>, keywords: KeywordExtractor): (r: seq<Criterion>)
    ensures current == [] ==> r == []
    ensures current != [] ==> r == [SectionCriterion(current, body, keywords)]
  {
    if current == [] then [] else [SectionCriterion(current, body, keywords)]
  }

  /** A criterion the paragraph pass can produce. */
  predicate ParagraphShaped(c: Criterion, keywords: KeywordExtractor) {
    && c.weight == ParagraphWeight
    && c.name != []
    && c.keywords == keywords(c.description)
  }

  /** The paragraph loop over the remaining `paras`, with the criterion being built named
      `current` (empty when there is none) and its description paragraphs so far. */
  function ParagraphLoop(paras: seq<string>, current: string, body: seq<string>, keywords: KeywordExtractor): (r: seq<Criterion>)
    ensures forall k :: 0 <= k < |r| ==> ParagraphShaped(r[k], keywords)
    ensures |r| <= |paras| + 1
    decreases |paras|
  {
    if paras == [] then Flush(current, body, keywords)
    else
      var p := Strip(paras[0]);
      if p == [] then ParagraphLoop(paras[1..], current, body, keywords)
      else if IsHeader(p) then
        Flush(current, body, keywords) + ParagraphLoop(paras[1..], HeaderName(p), [], keywords)
      else if current != [] then ParagraphLoop(paras[1..], current, body + [p], keywords)
      else ParagraphLoop(paras[1..], current, body, keywords)
  }

  /** The paragraph pass over a whole rubric. */
  function ParagraphCriteria(text: string, keywords: KeywordExtractor): (r: seq<Criterion>)
    ensures forall k :: 0 <= k < |r| ==> ParagraphShaped(r[k], keywords)
  {
    ParagraphLoop(SplitOn(text, ParagraphBreak), [], [], keywords)
  }

  // An independent description of the paragraph pass: one section per named header.

  /** The stripped, non-empty paragraphs before the first header. */
  function BodyBeforeHeader(paras: seq<string>): seq<string> {
    if paras == [] then []
    else
      var p := Strip(paras[0]);
      if p == [] then BodyBeforeHeader(paras[1..])
      else if IsHeader(p) then []
      else [p] + BodyBeforeHeader(paras[1..])
  }

  /** Every header with a non-empty name, paired with the paragraphs that follow it up to
      the next header. */
  function Sections(paras: seq<string>): seq<(string, seq<string>)> {
    if paras == [] then []
    else
      var p := Strip(paras[0]);
      if p != [] && IsHeader(p) && HeaderName(p) != [] then
        [(HeaderName(p), BodyBeforeHeader(paras[1..]))] + Sections(paras[1..])
      else Sections(paras[1..])
  }

  function FromSections(secs: seq<(string, seq<string>)>, keywords: KeywordExtractor): (r: seq<Criterion>)
    ensures |r| == |secs|
    ensures forall k :: 0 <= k < |secs| ==> r[k] == SectionCriterion(secs[k].0, secs[k].1, keywords)
  {
    if secs == [] then [] else [SectionCriterion(secs[0].0, secs[0].1, keywords)] + FromSections(secs[1..], keywords)
  }

  /** The paragraph loop produces the pending criterion, completed with the body paragraphs
      before the next header, followed by one criterion per named header section. */
  lemma {:induction false} ParagraphLoopSections(paras: seq<string>, current: string, body: seq<string>, keywords: KeywordExtractor)
    ensures ParagraphLoop(paras, current, body, keywords)
         == Flush(current, body + BodyBeforeHeader(paras), keywords) + FromSections(Sections(paras), keywords)
    decreases |paras|, 1
  {
    if paras == [] {
      assert body + [] == body;
    } else if Strip(paras[0]) != [] && IsHeader(Strip(paras[0])) {
      HeaderStep(paras, current, body, keywords);
    } else {
      OtherStep(paras, current, body, keywords);
    }
  }

  /** The step of the loop at a blank paragraph or a description paragraph: the paragraph
      joins the pending criterion's description when there is one, and is dropped otherwise. */
  lemma {:induction false} OtherStep(paras: seq<string>, current: string, body: seq<string>, keywords: KeywordExtractor)
    requires paras != [] && !(Strip(paras[0]) != [] && IsHeader(Strip(paras[0])))
    ensures ParagraphLoop(paras, current, body, keywords)
         == Flush(current, body + BodyBeforeHeader(paras), keywords) + FromSections(Sections(paras), keywords)
    decreases |paras|, 0
  {
    var p := Strip(paras[0]);
    var rest := paras[1..];
    assert Sections(paras) == Sections(rest);
    if p == [] {
      ParagraphLoopSections(rest, current, body, keywords);
      assert BodyBeforeHeader(paras) == BodyBeforeHeader(rest);
    } else if current != [] {
      ParagraphLoopSections(rest, current, body + [p], keywords);
      assert BodyBeforeHeader(paras) == [p] + BodyBeforeHeader(rest);
      assert body + [p] + BodyBeforeHeader(rest) == body + BodyBeforeHeader(paras);
    } else {
      ParagraphLoopSections(rest, current, body, keywords);
    }
  }

  /** The step of the loop at a header: the pending criterion is saved with the body so far,
      and the header's own section begins. */
  lemma {:induction false} HeaderStep(paras: seq<string>, current: string, body: seq<string>, keywords: KeywordExtractor)
    requires paras != [] && Strip(paras[0]) != [] && IsHeader(Strip(paras[0]))
    ensures ParagraphLoop(paras, current, body, keywords)
         == Flush(current, body + BodyBeforeHeader(paras), keywords) + FromSections(Sections(paras), keywords)
    decreases |paras|, 0
  {
    var p := Strip(paras[0]);
    var rest := paras[1..];
    var name := HeaderName(p);
    ParagraphLoopSections(rest, name, [], keywords);
    var x := Flush(name, BodyBeforeHeader(rest), keywords);
    var y := FromSections(Sections(rest), keywords);
    assert [] + BodyBeforeHeader(rest) == BodyBeforeHeader(rest);
    assert ParagraphLoop(paras, current, body, keywords) == Flush(current, body, keywords) + (x + y);
    assert body + BodyBeforeHeader(paras) == body;
    assert FromSections(Sections(paras), keywords) == x + y by {
      if name != [] {
        var secs := Sections(paras);
        assert secs == [(name, BodyBeforeHeader(rest))] + Sections(rest);
        assert secs[0] == (name, BodyBeforeHeader(rest)) && secs[1..] == Sections(rest);
      } else {
        assert Sections(paras) == Sections(rest);
      }
    }
  }

  /** The paragraph pass yields exactly one criterion per named header, in order, each
      described by the paragraphs up to the next header and weighted 25. */
  lemma ParagraphCriteriaAreSections(text: string, keywords: KeywordExtractor)
    ensures ParagraphCriteria(text, keywords) == FromSections(Sections(SplitOn(text, ParagraphBreak)), keywords)
  {
    ParagraphLoopSections(SplitOn(text, ParagraphBreak), [], [], keywords);
  }

  /** The criteria tier selection: the first tier that found anything. */
  function SelectCriteria(fromHeaders: seq<Criterion>, fromParagraphs: seq<Criterion>): (r: seq<Criterion>)
    ensures |r| >= 1
    ensures fromHeaders != [] ==> r == fromHeaders
    ensures fromHeaders == [] && fromParagraphs != [] ==> r == fromParagraphs
    ensures fromHeaders == [] && fromParagraphs == [] ==> r == DefaultCriteria
  {
    if fromHeaders != [] then fromHeaders
    else if fromParagraphs != [] then fromParagraphs
    else DefaultCriteria
  }

  /** `process_rubric`, with the weighted-header pass supplied as `weighted`. */
  function ProcessRubric(text: string, weighted: string -> seq<Criterion>, keywords: KeywordExtractor): (r: RubricAnalysis)
    ensures |r.criteria| >= 1
    ensures weighted(text) != [] ==> r.criteria == weighted(text)
    ensures weighted(text) == [] && ParagraphCriteria(text, keywords) != [] ==>
              && r.criteria == ParagraphCriteria(text, keywords)
              && r.criteria == FromSections(Sections(SplitOn(text, ParagraphBreak)), keywords)
              && forall k :: 0 <= k < |r.criteria| ==> ParagraphShaped(r.criteria[k], keywords)
    ensures weighted(text) == [] && ParagraphCriteria(text, keywords) == [] ==> r.criteria == DefaultCriteria
    ensures r.gradeBoundaries == ExtractGradeBoundaries(text)
    ensures r.fullText == text
  {
    ParagraphCriteriaAreSections(text, keywords);
    RubricAnalysis(SelectCriteria(weighted(text), ParagraphCriteria(text, keywords)), ExtractGradeBoundaries(text), text)
  }

  /** The default criteria appear exactly when neither pass found a criterion (provided the
      weighted pass did not itself produce the default set verbatim). */
  lemma DefaultsExactlyWhenNothingParsed(text: string, weighted: string -> seq<Criterion>, keywords: KeywordExtractor)
    requires weighted(text) != DefaultCriteria
    ensures ProcessRubric(text, weighted, keywords).criteria == DefaultCriteria
        <==> weighted(text) == [] && ParagraphCriteria(text, keywords) == []
  {
    var para := ParagraphCriteria(text, keywords);
    if weighted(text) == [] && para != [] {
      assert para[0].weight == ParagraphWeight;
      assert para != DefaultCriteria by {
        assert DefaultCriteria[0].weight == 40;
      }
    }
  }
}

/**
 * Assessment-brief processing (`process_assessment_brief`): each sentence, stripped, is put
 * in every bucket whose cue phrases it mentions (case-insensitively), and the key topics are
 * the lower-cased multi-word noun chunks longer than five characters, without repeats, at most
 * ten. Sentence segmentation and noun chunking come from the NLP layer and are parameters.
 */
module Brief {
  import opened Text

  datatype BriefAnalysis = BriefAnalysis(
    requirements: seq<string>,
    learningOutcomes: seq<string>,
    submissionDetails: seq<string>,
    keyTopics: seq<string>,
    fullText: string)

  const RequirementCues: seq<string> := ["must", "should", "need to", "required to", "expected to"]
  const OutcomeCues: seq<string> := ["learning outcome", "will be able to", "demonstrate", "understand", "apply"]
  const SubmissionCues: seq<string> := ["submit", "submission", "deadline", "due date", "format", "word count"]

  const TopicCap: nat := 10
  const TopicMinLength: nat := 5

  /** `re.search('(cue1|cue2|...)', s, re.IGNORECASE)` finds a match: some cue occurs in `s`
      at some index, ignoring case. */
  predicate MentionsAny(s: string, cues: seq<string>) {
    exists i, c :: 0 <= i <= |s| && c in cues && MatchesFolded(s, i, c)
  }

  /** Every sentence of the brief, stripped. */
  function Stripped(sentences: seq<string>): (r: seq<string>)
    ensures |r| == |sentences|
    ensures forall i :: 0 <= i < |sentences| ==> r[i] == Strip(sentences[i])
  {
    seq(|sentences|, i requires 0 <= i < |sentences| => Strip(sentences[i]))
  }

  /** The elements of `xs` that mention one of `cues`, in order. */
  function FilterMentions(xs: seq<string>, cues: seq<string>): (r: seq<string>)
    ensures |r| <= |xs|
    ensures forall x :: x in r <==> x in xs && MentionsAny(x, cues)
  {
    if xs == [] then []
    else if MentionsAny(xs[0], cues) then [xs[0]] + FilterMentions(xs[1..], cues)
    else FilterMentions(xs[1..], cues)
  }

  /** Filtering keeps order and repeats: filtering two lists one after the other is
      filtering their concatenation. */
  lemma {:induction false} FilterMentionsAppend(xs: seq<string>, ys: seq<string>, cues: seq<string>)
    ensures FilterMentions(xs + ys, cues) == FilterMentions(xs, cues) + FilterMentions(ys, cues)
  {
    if xs == [] {
      assert xs + ys == ys;
    } else {
      assert (xs + ys)[0] == xs[0];
      assert (xs + ys)[1..] == xs[1..] + ys;
      FilterMentionsAppend(xs[1..], ys, cues);
    }
  }

  /** A bucket: the stripped sentences that mention one of `cues`, in sentence order. A
      sentence lands in a bucket exactly when it mentions one of that bucket's cues. */
  function Bucket(sentences: seq<string>, cues: seq<string>): (r: seq<string>)
    ensures |r| <= |sentences|
    ensures forall x :: x in r <==> x in Stripped(sentences) && MentionsAny(x, cues)
  {
    FilterMentions(Stripped(sentences), cues)
  }

  /** A noun chunk that can become a topic: more than one word, more than five characters. */
  predicate IsTopicChunk(c: string) {
    |Words(c)| > 1 && |c| > TopicMinLength
  }

  /** The topic chunks lower-cased, in chunk order. */
  function TopicCandidates(chunks: seq<string>): (r: seq<string>)
    ensures forall x :: x in r ==> |x| > TopicMinLength
    ensures forall c :: c in chunks && IsTopicChunk(c) ==> Lower(c) in r
    ensures forall x :: x in r ==> exists c :: c in chunks && IsTopicChunk(c) && x == Lower(c)
  {
    if chunks == [] then []
    else
      var rest := TopicCandidates(chunks[1..]);
      assert forall c :: c in chunks <==> c == chunks[0] || c in chunks[1..];
      if IsTopicChunk(chunks[0]) then [Lower(chunks[0])] + rest else rest
  }

  predicate Distinct(xs: seq<string>) {
    forall i, j :: 0 <= i < j < |xs| ==> xs[i] != xs[j]
  }

  /** `list(set(xs))[:cap]`, taking the distinct values in first-appearance order. Python's
      order is that of its string hashes; the contract below holds for any order. */
  function TakeDistinct(xs: seq<string>, cap: nat, acc: seq<string>): (r: seq<string>)
    requires Distinct(acc) && |acc| <= cap
    ensures Distinct(r) && |r| <= cap
    ensures forall k :: 0 <= k < |r| ==> r[k] in acc || r[k] in xs
    ensures forall x :: x in acc ==> x in r
    ensures |r| < cap ==> forall x :: x in xs ==> x in r
    decreases |xs|
  {
    if xs == [] || |acc| == cap then acc
    else if xs[0] in acc then TakeDistinct(xs[1..], cap, acc)
    else TakeDistinct(xs[1..], cap, acc + [xs[0]])
  }

  /** The key topics of a brief: distinct candidates, at most ten, and all of them when there
      are fewer than ten distinct candidates. */
  function KeyTopics(chunks: seq<string>): (r: seq<string>)
    ensures Distinct(r) && |r| <= TopicCap
    ensures forall x :: x in r ==> x in TopicCandidates(chunks)
    ensures |r| < TopicCap ==> forall x :: x in TopicCandidates(chunks) ==> x in r
  {
    TakeDistinct(TopicCandidates(chunks), TopicCap, [])
  }

  /** `process_assessment_brief`. */
  function ProcessBrief(text: string, sentences: string -> seq<string>, nounChunks: string -> seq<string>): (r: BriefAnalysis)
    ensures forall x :: x in r.requirements <==> x in Stripped(sentences(text)) && MentionsAny(x, RequirementCues)
    ensures forall x :: x in r.learningOutcomes <==> x in Stripped(sentences(text)) && MentionsAny(x, OutcomeCues)
    ensures forall x :: x in r.submissionDetails <==> x in Stripped(sentences(text)) && MentionsAny(x, SubmissionCues)
    ensures Distinct(r.keyTopics) && |r.keyTopics| <= TopicCap
    ensures forall x :: x in r.keyTopics ==> |x| > TopicMinLength
    ensures forall x :: x in r.keyTopics ==> exists c :: c in nounChunks(text) && IsTopicChunk(c) && x == Lower(c)
    ensures |r.keyTopics| < TopicCap ==> forall c :: c in nounChunks(text) && IsTopicChunk(c) ==> Lower(c) in r.keyTopics
    ensures r.fullText == text
  {
    var sents := sentences(text);
    BriefAnalysis(
      Bucket(sents, RequirementCues),
      Bucket(sents, OutcomeCues),
      Bucket(sents, SubmissionCues),
      KeyTopics(nounChunks(text)),
      text)
  }
}

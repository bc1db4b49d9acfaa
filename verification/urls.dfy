/**
 * Reference resolution: `extract_urls` and `analyze_url_content`.
 *
 * `extract_urls` is `re.findall` of `https?://(?:[-\w.]|(?:%[\da-fA-F]{2}))+(?:/[-\w./%?&=+#]*)?`
 * followed by a `urlparse` check that the candidate has a scheme and a host. The scanner below
 * is that regular expression: at a given start it is deterministic (greedy host units, then an
 * optional greedy path), and `findall` resumes where the previous match ended.
 *
 * `analyze_url_content` performs an HTTP GET and HTML parsing; both are the `fetch` parameter,
 * and the NLP phrase and entity extraction are parameters too.
 */
module Urls {
  import opened Wrappers
  import opened Text

  /** `\w`, restricted to ASCII. */
  predicate IsWordChar(c: char) {
    IsAsciiLetter(c) || IsDigit(c) || c == '_'
  }

  predicate IsHexDigit(c: char) {
    IsDigit(c) || ('a' <= c <= 'f') || ('A' <= c <= 'F')
  }

  /** `[-\w.]`, one host character. */
  predicate IsHostChar(c: char) {
    c == '-' || IsWordChar(c) || c == '.'
  }

  /** `[-\w./%?&=+#]`, one path character. */
  predicate IsPathChar(c: char) {
    IsHostChar(c) || c == '/' || c == '%' || c == '?' || c == '&' || c == '=' || c == '+' || c == '#'
  }

  /** The index just past `https://` or `http://` at `i`. */
  function SchemeEnd(t: string, i: nat): (r: Option<nat>)
    requires i <= |t|
    ensures r.Some? ==> i + 7 <= r.value <= |t|
    ensures r.Some? <==> OccursAt("https://", t, i) || OccursAt("http://", t, i)
  {
    if OccursAt("https://", t, i) then Some(i + 8)
    else if OccursAt("http://", t, i) then Some(i + 7)
    else None
  }

  /** `%` followed by two hexadecimal digits at `j`. */
  predicate IsEscapeAt(t: string, j: nat) {
    j + 3 <= |t| && t[j] == '%' && IsHexDigit(t[j + 1]) && IsHexDigit(t[j + 2])
  }

  /** The end of the greedy run of host units (host characters or `%XX` escapes) from `j`. */
  function HostEnd(t: string, j: nat): (e: nat)
    requires j <= |t|
    ensures j <= e <= |t|
    ensures e == j <==> j == |t| || (!IsHostChar(t[j]) && !IsEscapeAt(t, j))
    ensures e > j ==> OpensHost(t[j])
    decreases |t| - j
  {
    if j < |t| && IsHostChar(t[j]) then HostEnd(t, j + 1)
    else if IsEscapeAt(t, j) then HostEnd(t, j + 3)
    else j
  }

  /** The end of the greedy run of path characters from `j`. */
  function PathEnd(t: string, j: nat): (e: nat)
    requires j <= |t|
    ensures j <= e <= |t|
    ensures forall k :: j <= k < e ==> IsPathChar(t[k])
    ensures e == |t| || !IsPathChar(t[e])
    decreases |t| - j
  {
    if j < |t| && IsPathChar(t[j]) then PathEnd(t, j + 1) else j
  }

  /** A character that can open a host: a host character or the `%` of an escape. */
  predicate OpensHost(c: char) {
    c == '%' || IsHostChar(c)
  }

  /** The shape of every match: `http://` or `https://` followed by a host opener. */
  predicate UrlShaped(u: string) {
    || (StartsWith(u, "http://") && |u| > 7 && OpensHost(u[7]))
    || (StartsWith(u, "https://") && |u| > 8 && OpensHost(u[8]))
  }

  /** A match from `i` to `end` whose host starts right after the scheme prefix is URL-shaped. */
  lemma ShapeOfMatch(t: string, i: nat, h: nat, end: nat)
    requires i <= |t| && SchemeEnd(t, i) == Some(h)
    requires h < end <= |t| && OpensHost(t[h])
    ensures UrlShaped(t[i..end])
  {
  }

  /** The end of the URL match anchored at `i`, if there is one. */
  function UrlEndAt(t: string, i: nat): (r: Option<nat>)
    requires i <= |t|
    ensures r.Some? ==> i < r.value <= |t| && UrlShaped(t[i..r.value])
    ensures r.None? <==> SchemeEnd(t, i).None? || HostEnd(t, SchemeEnd(t, i).value) == SchemeEnd(t, i).value
  {
    match SchemeEnd(t, i)
    case None => None
    case Some(h) =>
      var e := HostEnd(t, h);
      if e == h then None
      else
        var end := if e < |t| && t[e] == '/' then PathEnd(t, e + 1) else e;
        ShapeOfMatch(t, i, h, end);
        Some(end)
  }

  /** The spans `[start, end)` of the URL matches in `t[i..]`, left to right, not overlapping. */
  function UrlSpans(t: string, i: nat): (spans: seq<(nat, nat)>)
    requires i <= |t|
    ensures forall k :: 0 <= k < |spans| ==> i <= spans[k].0 < spans[k].1 <= |t|
    ensures forall k :: 0 <= k < |spans| ==> UrlShaped(t[spans[k].0..spans[k].1])
    ensures forall k :: 0 <= k < |spans| - 1 ==> spans[k].1 <= spans[k + 1].0
    decreases |t| - i
  {
    if i == |t| then []
    else
      match UrlEndAt(t, i)
      case Some(e) => [(i, e)] + UrlSpans(t, e)
      case None => UrlSpans(t, i + 1)
  }

  /** Where no match starts, the search moves on by one index. */
  lemma UrlSpansSkip(t: string, i: nat)
    requires i < |t| && UrlEndAt(t, i).None?
    ensures UrlSpans(t, i) == UrlSpans(t, i + 1)
  {
  }

  /** Where a match starts, it is listed and the search resumes at its end. */
  lemma UrlSpansTake(t: string, i: nat)
    requires i < |t| && UrlEndAt(t, i).Some?
    ensures UrlSpans(t, i) == [(i, UrlEndAt(t, i).value)] + UrlSpans(t, UrlEndAt(t, i).value)
  {
  }

  /** The listed span that starts at or covers `k`, where a match starts at `k`. */
  lemma {:induction false} CoveringSpan(t: string, i: nat, k: nat) returns (n: nat)
    requires i <= k <= |t| && UrlEndAt(t, k).Some?
    ensures n < |UrlSpans(t, i)| && UrlSpans(t, i)[n].0 <= k < UrlSpans(t, i)[n].1
    decreases |t| - i
  {
    if i == |t| {
      assert false;
    } else if UrlEndAt(t, i).None? {
      assert k != i;
      UrlSpansSkip(t, i);
      n := CoveringSpan(t, i + 1, k);
    } else {
      var e := UrlEndAt(t, i).value;
      UrlSpansTake(t, i);
      var rest := UrlSpans(t, e);
      var spans := [(i, e)] + rest;
      if k < e {
        n := 0;
        assert spans[n] == (i, e);
      } else {
        var r := CoveringSpan(t, e, k);
        n := r + 1;
        assert spans[n] == rest[r];
      }
    }
  }

  /** `re.findall` misses nothing: each listed span is the match anchored at its start, and
      every index at which the pattern matches starts a listed span or lies inside one,
      where the search does not look. */
  lemma {:induction false} UrlSpansComplete(t: string, i: nat, k: nat)
    requires i <= k <= |t|
    ensures forall n :: 0 <= n < |UrlSpans(t, i)| ==> UrlEndAt(t, UrlSpans(t, i)[n].0) == Some(UrlSpans(t, i)[n].1)
    ensures UrlEndAt(t, k).Some? ==> exists n :: 0 <= n < |UrlSpans(t, i)| && UrlSpans(t, i)[n].0 <= k < UrlSpans(t, i)[n].1
    decreases |t| - i
  {
    var spans := UrlSpans(t, i);
    if i < |t| {
      if UrlEndAt(t, i).None? {
        UrlSpansSkip(t, i);
        UrlSpansComplete(t, i + 1, if k == i then i + 1 else k);
      } else {
        var e := UrlEndAt(t, i).value;
        UrlSpansTake(t, i);
        var rest := UrlSpans(t, e);
        UrlSpansComplete(t, e, if k < e then e else k);
        forall n | 0 < n < |spans| ensures UrlEndAt(t, spans[n].0) == Some(spans[n].1) {
          assert spans[n] == rest[n - 1];
        }
      }
    }
    if UrlEndAt(t, k).Some? {
      var n := CoveringSpan(t, i, k);
      assert spans[n].0 <= k < spans[n].1;
    }
  }

  /** `re.findall` of the URL pattern: the matched texts in order of appearance. */
  function UrlCandidates(t: string): (urls: seq<string>)
    ensures |urls| == |UrlSpans(t, 0)|
    ensures forall k :: 0 <= k < |urls| ==> urls[k] == t[UrlSpans(t, 0)[k].0..UrlSpans(t, 0)[k].1]
    ensures forall k :: 0 <= k < |urls| ==> UrlShaped(urls[k])
  {
    var spans := UrlSpans(t, 0);
    seq(|spans|, k requires 0 <= k < |spans| => t[spans[k].0..spans[k].1])
  }

  // `urllib.parse.urlparse`, as far as the scheme and the network location go.

  /** `scheme_chars`: letters, digits, `+`, `-` and `.`. */
  predicate IsSchemeChar(c: char) {
    IsAsciiLetter(c) || IsDigit(c) || c == '+' || c == '-' || c == '.'
  }

  /** The scheme: the text before the first `:` when it is non-empty, starts with an ASCII
      letter and consists of scheme characters; lower-cased. Otherwise empty. */
  function Scheme(u: string): string {
    var i := IndexOf(u, ":", 0);
    if i > 0 && IsAsciiLetter(u[0]) && forall k :: 0 <= k < i ==> IsSchemeChar(u[k]) then Lower(u[..i]) else []
  }

  /** What follows the scheme and its `:`, or the whole text when there is no scheme. */
  function AfterScheme(u: string): string {
    var i := IndexOf(u, ":", 0);
    if i > 0 && IsAsciiLetter(u[0]) && forall k :: 0 <= k < i ==> IsSchemeChar(u[k]) then u[i + 1..] else u
  }

  /** The first index at or after `j` holding `/`, `?` or `#`, or `|s|`. */
  function NetlocEnd(s: string, j: nat): (e: nat)
    requires j <= |s|
    ensures j <= e <= |s|
    ensures e == |s| || s[e] in "/?#"
    ensures forall k :: j <= k < e ==> s[k] !in "/?#"
    decreases |s| - j
  {
    if j == |s| || s[j] in "/?#" then j else NetlocEnd(s, j + 1)
  }

  /** The network location: after a leading `//`, up to the first `/`, `?` or `#`. */
  function Netloc(u: string): string {
    var rest := AfterScheme(u);
    if StartsWith(rest, "//") then rest[2..NetlocEnd(rest, 2)] else []
  }

  /** The `urlparse` check of `extract_urls`. */
  predicate HasSchemeAndHost(u: string) {
    Scheme(u) != [] && Netloc(u) != []
  }

  function KeepValid(urls: seq<string>): (r: seq<string>)
    ensures forall k :: 0 <= k < |r| ==> HasSchemeAndHost(r[k])
    ensures |r| <= |urls|
  {
    if urls == [] then []
    else if HasSchemeAndHost(urls[0]) then [urls[0]] + KeepValid(urls[1..])
    else KeepValid(urls[1..])
  }

  /** `extract_urls`: the URL matches that have a scheme and a host, in order. */
  function ExtractUrls(t: string): seq<string> {
    KeepValid(UrlCandidates(t))
  }

  /** The scheme of a URL-shaped text is `http` or `https`. */
  lemma {:induction false} UrlShapedScheme(u: string, n: nat)
    requires n == 4 || n == 5
    requires |u| > n + 3 && u[n..n + 3] == "://"
    requires forall k :: 0 <= k < n ==> IsAsciiLetter(u[k])
    ensures IndexOf(u, ":", 0) == n
    ensures Scheme(u) != [] && AfterScheme(u) == u[n + 1..]
  {
    assert u[n] == ':' && u[n..n + 1] == [u[n]];
    assert OccursAt(":", u, n);
    forall k | 0 <= k < n ensures !OccursAt(":", u, k) {
      assert u[k..k + 1][0] == u[k];
    }
  }

  /** Every URL-shaped text has a scheme and a host, so `urlparse` accepts it. */
  lemma {:induction false} UrlShapedValid(u: string)
    requires UrlShaped(u)
    ensures HasSchemeAndHost(u)
  {
    var n := if StartsWith(u, "http://") then 4 else 5;
    var prefix := if n == 4 then "http://" else "https://";
    assert OccursAt(prefix, u, 0);
    PrefixChars(u, prefix);
    UrlShapedScheme(u, n);
    HostAfterSlashes(u, n);
  }

  /** A text that starts with `p` agrees with `p` character by character. */
  lemma PrefixChars(u: string, p: string)
    requires OccursAt(p, u, 0)
    ensures forall k :: 0 <= k < |p| ==> u[k] == p[k]
  {
  }

  /** After `scheme:`, `//` and a host opener give a non-empty network location. */
  lemma HostAfterSlashes(u: string, n: nat)
    requires |u| > n + 3 && u[n + 1] == '/' && u[n + 2] == '/' && OpensHost(u[n + 3])
    requires AfterScheme(u) == u[n + 1..]
    ensures Netloc(u) != []
  {
  }

  /** The `urlparse` check never rejects a candidate: `extract_urls` returns exactly the
      regular-expression matches. */
  lemma CandidatesAllValid(t: string)
    ensures ExtractUrls(t) == UrlCandidates(t)
  {
    var c := UrlCandidates(t);
    var spans := UrlSpans(t, 0);
    forall k | 0 <= k < |c| ensures HasSchemeAndHost(c[k]) {
      UrlShapedValid(c[k]);
    }
    KeepAllValid(c);
  }

  lemma {:induction false} KeepAllValid(urls: seq<string>)
    requires forall k :: 0 <= k < |urls| ==> HasSchemeAndHost(urls[k])
    ensures KeepValid(urls) == urls
  {
    if urls != [] {
      KeepAllValid(urls[1..]);
    }
  }

  /** What `extract_urls` promises: each URL starts with `http://` or `https://`, occurs in
      the text, and they come in order of appearance without overlapping. */
  lemma ExtractUrlsFacts(t: string)
    ensures var urls := ExtractUrls(t);
      && |urls| == |UrlSpans(t, 0)|
      && (forall k :: 0 <= k < |urls| ==> StartsWith(urls[k], "http://") || StartsWith(urls[k], "https://"))
      && (forall k :: 0 <= k < |urls| ==> OccursAt(urls[k], t, UrlSpans(t, 0)[k].0))
      && (forall k :: 0 <= k < |urls| - 1 ==> UrlSpans(t, 0)[k].0 + |urls[k]| <= UrlSpans(t, 0)[k + 1].0)
  {
    CandidatesAllValid(t);
    CandidateFacts(t);
  }

  lemma CandidateFacts(t: string)
    ensures var urls := UrlCandidates(t);
      && (forall k :: 0 <= k < |urls| ==> StartsWith(urls[k], "http://") || StartsWith(urls[k], "https://"))
      && (forall k :: 0 <= k < |urls| ==> OccursAt(urls[k], t, UrlSpans(t, 0)[k].0))
      && (forall k :: 0 <= k < |urls| - 1 ==> UrlSpans(t, 0)[k].0 + |urls[k]| <= UrlSpans(t, 0)[k + 1].0)
  {
  }

  /** A text in which `http` does not occur has no URLs. */
  lemma NoHttpNoUrls(t: string)
    requires !Contains(t, "http")
    ensures ExtractUrls(t) == []
  {
    NoHttpNoCandidates(t);
    CandidatesAllValid(t);
  }

  lemma NoHttpNoCandidates(t: string)
    requires !Contains(t, "http")
    ensures UrlCandidates(t) == []
  {
    var c := UrlCandidates(t);
    if c != [] {
      var i := UrlSpans(t, 0)[0].0;
      assert OccursAt("http", t, i) by {
        assert t[i..i + 4] == c[0][..4];
      }
    }
  }

  /** A position that does not hold `h` starts no match. */
  lemma {:induction false} SkipWithoutH(t: string, i: nat, j: nat)
    requires i <= j <= |t|
    requires forall k :: i <= k < j ==> t[k] != 'h'
    ensures UrlSpans(t, i) == UrlSpans(t, j)
    decreases j - i
  {
    if i < j {
      if i + 7 <= |t| {
        assert t[i..i + 7][0] == t[i];
      }
      if i + 8 <= |t| {
        assert t[i..i + 8][0] == t[i];
      }
      SkipWithoutH(t, i + 1, j);
    }
  }

  lemma {:induction false} HostRun(t: string, j: nat, e: nat)
    requires j <= e <= |t|
    requires forall k :: j <= k < e ==> IsHostChar(t[k])
    requires e == |t| || (!IsHostChar(t[e]) && !IsEscapeAt(t, e))
    ensures HostEnd(t, j) == e
    decreases e - j
  {
    if j < e {
      HostRun(t, j + 1, e);
    }
  }

  lemma {:induction false} PathRun(t: string, j: nat, e: nat)
    requires j <= e <= |t|
    requires forall k :: j <= k < e ==> IsPathChar(t[k])
    requires e == |t| || !IsPathChar(t[e])
    ensures PathEnd(t, j) == e
    decreases e - j
  {
  }

  /** The only match in a text whose other positions hold no `h`. */
  lemma SingleMatch(t: string, i: nat, end: nat)
    requires i < end <= |t| && UrlEndAt(t, i) == Some(end)
    requires forall k :: 0 <= k < i ==> t[k] != 'h'
    requires forall k :: end <= k < |t| ==> t[k] != 'h'
    ensures UrlSpans(t, 0) == [(i, end)]
  {
    SkipWithoutH(t, 0, i);
    SkipWithoutH(t, end, |t|);
  }

  /** The match at `i` of `https://`, a run of host characters, `/`, and a run of path
      characters that the character at `end` stops. */
  lemma MatchThroughPath(t: string, i: nat, slash: nat, end: nat)
    requires i + 8 < slash < end <= |t|
    requires t[i..i + 8] == "https://"
    requires forall k :: i + 8 <= k < slash ==> IsHostChar(t[k])
    requires t[slash] == '/'
    requires forall k :: slash + 1 <= k < end ==> IsPathChar(t[k])
    requires end == |t| || !IsPathChar(t[end])
    ensures UrlEndAt(t, i) == Some(end)
  {
    assert OccursAt("https://", t, i);
    HostRun(t, i + 8, slash);
    PathRun(t, slash + 1, end);
  }

  /** A URL in parentheses, in text where no other `h` occurs: exactly the URL is extracted,
      without the closing parenthesis or what follows it. */
  lemma {:induction false} ParenthesisedUrl(before: string, host: string, path: string, after: string)
    requires forall k :: 0 <= k < |before| ==> before[k] != 'h'
    requires host != [] && forall k :: 0 <= k < |host| ==> IsHostChar(host[k])
    requires forall k :: 0 <= k < |path| ==> IsPathChar(path[k])
    requires after != [] && after[0] == ')' && forall k :: 0 <= k < |after| ==> after[k] != 'h'
    ensures ExtractUrls(before + ("https://" + host + "/" + path) + after) == ["https://" + host + "/" + path]
  {
    var url := "https://" + host + "/" + path;
    var t := before + url + after;
    var i := |before|;
    var slash := i + 8 + |host|;
    var end := slash + 1 + |path|;
    assert t[i..end] == url;
    assert t[i..i + 8] == "https://" by {
      assert url[..8] == "https://";
    }
    assert forall k :: i + 8 <= k < slash ==> t[k] == host[k - i - 8];
    assert t[slash] == '/';
    assert forall k :: slash + 1 <= k < end ==> t[k] == path[k - slash - 1];
    assert forall k :: end <= k < |t| ==> t[k] == after[k - end];
    MatchThroughPath(t, i, slash, end);
    assert forall k :: 0 <= k < i ==> t[k] == before[k];
    SingleMatch(t, i, end);
    CandidatesAllValid(t);
  }

  /** The closing words of the essay in the end-to-end test yield exactly its one reference. */
  lemma EssayReference()
    ensures ExtractUrls("backgrounds (" + ("https://" + "www.educationaccessibility.org" + "/" + "ai-tools") + ").")
         == ["https://" + "www.educationaccessibility.org" + "/" + "ai-tools"]
  {
    ParenthesisedUrl("backgrounds (", "www.educationaccessibility.org", "ai-tools", ").");
  }

  // `analyze_url_content`.

  /** A fetched HTML page: its `<title>` text if it has one, the text of each `<p>` element,
      and the `description` meta tag's content (empty when absent). */
  datatype Page = Page(title: Option<string>, paragraphs: seq<string>, metaDescription: string)

  /** The outcome of the bounded-timeout GET and HTML parse of a URL. */
  datatype FetchOutcome = Fetched(page: Page) | FetchFailed(error: string)

  datatype PageTerms = PageTerms(keyPhrases: seq<string>, entities: seq<(string, string)>)

  datatype UrlAnalysis =
    | Analyzed(url: string, title: string, metaDescription: string, terms: Option<PageTerms>, contentSample: string)
    | Failed(url: string, error: string)

  const SampleLength: nat := 500
  const NlpInputLength: nat := 5000
  const TermCap: nat := 10
  const UrlAnalysisCap: nat := 5

  /** The page text: every paragraph followed by a space. */
  function PageContent(paragraphs: seq<string>): (c: string)
    ensures c == [] <==> paragraphs == []
  {
    if paragraphs == [] then [] else paragraphs[0] + " " + PageContent(paragraphs[1..])
  }

  /** The stored content sample: the first 500 characters followed by `...` when the content
      is longer, otherwise the content itself. */
  function ContentSample(content: string): (s: string)
    ensures |s| <= SampleLength + 3
    ensures |content| <= SampleLength ==> s == content
    ensures |content| > SampleLength ==> |s| == SampleLength + 3 && s[..SampleLength] == content[..SampleLength] && s[SampleLength..] == "..."
  {
    if |content| > SampleLength then content[..SampleLength] + "..." else content
  }

  function MultiWord(phrases: seq<string>): (r: seq<string>)
    ensures forall x :: x in r <==> x in phrases && |Words(x)| > 1
  {
    if phrases == [] then []
    else if |Words(phrases[0])| > 1 then [phrases[0]] + MultiWord(phrases[1..])
    else MultiWord(phrases[1..])
  }

  function Take<T>(xs: seq<T>, n: nat): (r: seq<T>)
    ensures |r| <= n && |r| <= |xs|
    ensures r == xs[..|r|]
    ensures |xs| >= n ==> |r| == n
  {
    if |xs| <= n then xs else xs[..n]
  }

  /** `analyze_url_content`, with the network fetch and the NLP phrase and entity extraction
      as parameters. */
  function AnalyzeUrl(url: string, fetch: string -> FetchOutcome,
                      nounChunks: string -> seq<string>, entities: string -> seq<(string, string)>): (a: UrlAnalysis)
    ensures a.url == url
    ensures a.Failed? <==> fetch(url).FetchFailed?
    ensures a.Analyzed? ==> |a.contentSample| <= SampleLength + 3
    ensures a.Analyzed? ==> (a.terms.Some? <==> fetch(url).page.paragraphs != [])
    ensures a.Analyzed? && a.terms.Some? ==>
      && |a.terms.value.keyPhrases| <= TermCap
      && |a.terms.value.entities| <= TermCap
      && (forall x :: x in a.terms.value.keyPhrases ==> |Words(x)| > 1)
  {
    match fetch(url)
    case FetchFailed(e) => Failed(url, e)
    case Fetched(page) =>
      var content := PageContent(page.paragraphs);
      var title := page.title.GetOr("No title");
      var terms :=
        if content == [] then None
        else
          var head := Take(content, NlpInputLength);
          var phrases := Take(MultiWord(nounChunks(head)), TermCap);
          assert forall x :: x in phrases ==> x in MultiWord(nounChunks(head));
          Some(PageTerms(phrases, Take(entities(head), TermCap)));
      Analyzed(url, title, page.metaDescription, terms, ContentSample(content))
  }

  /** The analyses of the first five URLs, one per URL, in order. */
  function AnalyzeUrls(urls: seq<string>, fetch: string -> FetchOutcome,
                       nounChunks: string -> seq<string>, entities: string -> seq<(string, string)>): (r: seq<UrlAnalysis>)
    ensures |r| == if |urls| < UrlAnalysisCap then |urls| else UrlAnalysisCap
    ensures forall k :: 0 <= k < |r| ==> r[k].url == urls[k]
    ensures forall k :: 0 <= k < |r| ==> r[k] == AnalyzeUrl(urls[k], fetch, nounChunks, entities)
  {
    var first := Take(urls, UrlAnalysisCap);
    seq(|first|, k requires 0 <= k < |first| => AnalyzeUrl(first[k], fetch, nounChunks, entities))
  }
}

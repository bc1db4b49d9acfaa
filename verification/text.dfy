/**
 * String primitives with the semantics of the Python built-ins the marking rules use:
 * `str.isspace`, `str.strip`, `str.split`, `str.rstrip(chars)`, `str.lower`, `in` on strings,
 * `int` on a run of decimal digits, and decimal formatting of a count.
 */
module Text {

  /** Python's `str.isspace` for one character: the ASCII whitespace and separator
      controls together with the Unicode space characters. */
  predicate IsSpace(c: char) {
    var n := c as int;
    || (9 <= n <= 13) || (0x1c <= n <= 0x20)
    || n == 0x85 || n == 0xa0 || n == 0x1680
    || (0x2000 <= n <= 0x200a)
    || n == 0x2028 || n == 0x2029 || n == 0x202f || n == 0x205f || n == 0x3000
  }

  predicate IsDigit(c: char) {
    '0' <= c <= '9'
  }

  predicate IsAsciiLetter(c: char) {
    ('a' <= c <= 'z') || ('A' <= c <= 'Z')
  }

  predicate AllSpace(s: string) {
    forall i :: 0 <= i < |s| ==> IsSpace(s[i])
  }

  predicate NoSpace(s: string) {
    forall i :: 0 <= i < |s| ==> !IsSpace(s[i])
  }

  predicate AllDigits(s: string) {
    forall i :: 0 <= i < |s| ==> IsDigit(s[i])
  }

  function LowerChar(c: char): (r: char)
    ensures 'A' <= c <= 'Z' ==> 'a' <= r <= 'z' && r as int == c as int + 32
    ensures !('A' <= c <= 'Z') ==> r == c
  {
    if 'A' <= c <= 'Z' then (c as int + 32) as char else c
  }

  /** `str.lower`, restricted to the ASCII letters. */
  function Lower(s: string): (r: string)
    ensures |r| == |s|
    ensures forall i :: 0 <= i < |s| ==> r[i] == LowerChar(s[i])
  {
    seq(|s|, i requires 0 <= i < |s| => LowerChar(s[i]))
  }

  /** `p` occurs in `s` starting at index `i`. */
  predicate OccursAt(p: string, s: string, i: int) {
    0 <= i && i + |p| <= |s| && s[i..i + |p|] == p
  }

  /** Python's `p in s` on strings. */
  predicate Contains(s: string, p: string) {
    exists i :: 0 <= i <= |s| && OccursAt(p, s, i)
  }

  predicate StartsWith(s: string, p: string) {
    OccursAt(p, s, 0)
  }

  predicate EndsWithChar(s: string, c: char) {
    |s| > 0 && s[|s| - 1] == c
  }

  /** Under `re.IGNORECASE`, text character `c` matches pattern character `p` (an ASCII
      character, given in lower case): `c` lower-cases to `p`, or `c` is one of the
      non-ASCII letters the regex engine treats as case variants of `i`, `k` or `s`. */
  predicate FoldEq(c: char, p: char) {
    || LowerChar(c) == p
    || (p == 'i' && (c as int == 0x130 || c as int == 0x131))
    || (p == 'k' && c as int == 0x212a)
    || (p == 's' && c as int == 0x17f)
  }

  /** The lower-case word `w` matches `t` at index `i`, ignoring case. */
  predicate MatchesFolded(t: string, i: nat, w: string)
    decreases |w|
  {
    i + |w| <= |t| && (w == [] || (FoldEq(t[i], w[0]) && MatchesFolded(t, i + 1, w[1..])))
  }

  /** The first index at or after `i` that does not hold whitespace, or `|s|`. */
  function SkipSpace(s: string, i: nat): (j: nat)
    requires i <= |s|
    ensures i <= j <= |s|
    ensures forall k :: i <= k < j ==> IsSpace(s[k])
    ensures j == |s| || !IsSpace(s[j])
    decreases |s| - i
  {
    if i == |s| || !IsSpace(s[i]) then i else SkipSpace(s, i + 1)
  }

  /** The least index `b <= j` such that everything in `s[b..j]` is whitespace. */
  function SkipSpaceBack(s: string, j: nat): (b: nat)
    requires j <= |s|
    ensures b <= j
    ensures forall k :: b <= k < j ==> IsSpace(s[k])
    ensures b == 0 || !IsSpace(s[b - 1])
  {
    if j == 0 || !IsSpace(s[j - 1]) then j else SkipSpaceBack(s, j - 1)
  }

  /** The end of the run of non-whitespace characters starting at `i`. */
  function TokenEnd(s: string, i: nat): (j: nat)
    requires i <= |s|
    ensures i <= j <= |s|
    ensures forall k :: i <= k < j ==> !IsSpace(s[k])
    ensures j == |s| || IsSpace(s[j])
    decreases |s| - i
  {
    if i == |s| || IsSpace(s[i]) then i else TokenEnd(s, i + 1)
  }

  /** Where `str.strip()` starts keeping characters. */
  function StripStart(s: string): nat {
    SkipSpace(s, 0)
  }

  /** `str.strip()`: the text between the leading and the trailing whitespace. */
  function Strip(s: string): (r: string)
    ensures StripStart(s) + |r| <= |s| && r == s[StripStart(s)..StripStart(s) + |r|]
    ensures forall k :: 0 <= k < StripStart(s) ==> IsSpace(s[k])
    ensures forall k :: StripStart(s) + |r| <= k < |s| ==> IsSpace(s[k])
    ensures r == [] <==> AllSpace(s)
    ensures r == [] || (!IsSpace(r[0]) && !IsSpace(r[|r| - 1]))
  {
    var a := SkipSpace(s, 0);
    if a == |s| then []
    else
      var b := SkipSpaceBack(s, |s|);
      assert a < b;
      s[a..b]
  }

  /** `str.rstrip(chars)`: drops trailing characters that belong to `chars`. */
  function RStripChars(s: string, chars: set<char>): (r: string)
    ensures |r| <= |s| && r == s[..|r|]
    ensures forall i :: |r| <= i < |s| ==> s[i] in chars
    ensures r == [] || r[|r| - 1] !in chars
  {
    if s == [] || s[|s| - 1] !in chars then s
    else RStripChars(s[..|s| - 1], chars)
  }

  /** The whitespace-separated words of `s[i..]`, in order. */
  function WordsFrom(s: string, i: nat): (ws: seq<string>)
    requires i <= |s|
    ensures forall k :: 0 <= k < |ws| ==> ws[k] != [] && NoSpace(ws[k])
    ensures ws == [] <==> forall k :: i <= k < |s| ==> IsSpace(s[k])
    decreases |s| - i
  {
    var a := SkipSpace(s, i);
    if a == |s| then []
    else
      var b := TokenEnd(s, a);
      [s[a..b]] + WordsFrom(s, b)
  }

  /** `str.split()` with no separator: the maximal runs of non-whitespace characters, in order. */
  function Words(s: string): (ws: seq<string>)
    ensures forall k :: 0 <= k < |ws| ==> ws[k] != [] && NoSpace(ws[k])
    ensures ws == [] <==> AllSpace(s)
  {
    WordsFrom(s, 0)
  }

  /** `s[a..b]` is a whole run of non-whitespace characters: it is non-empty, holds no
      whitespace, and whitespace or the end of the text follows it. */
  predicate IsRun(s: string, a: nat, b: nat) {
    && a < b <= |s|
    && (forall k :: a <= k < b ==> !IsSpace(s[k]))
    && (b == |s| || IsSpace(s[b]))
  }

  /** Everything in `s[a..b]` is whitespace. */
  predicate IsGap(s: string, a: nat, b: nat)
    requires a <= b <= |s|
  {
    forall k :: a <= k < b ==> IsSpace(s[k])
  }

  /** The spans `[a, b)` of the maximal non-whitespace runs of `s[i..]`, left to right. */
  function WordSpans(s: string, i: nat): (spans: seq<(nat, nat)>)
    requires i <= |s|
    ensures forall n :: 0 <= n < |spans| ==> i <= spans[n].0 < spans[n].1 <= |s|
    decreases |s| - i
  {
    var a := SkipSpace(s, i);
    if a == |s| then []
    else
      var b := TokenEnd(s, a);
      [(a, b)] + WordSpans(s, b)
  }

  /** One step of `WordSpans`: skip whitespace, take the run that follows, go on after it. */
  lemma WordSpansStep(s: string, i: nat)
    requires i <= |s|
    ensures SkipSpace(s, i) == |s| ==> WordSpans(s, i) == []
    ensures SkipSpace(s, i) < |s| ==>
      var a := SkipSpace(s, i);
      TokenEnd(s, a) > a && WordSpans(s, i) == [(a, TokenEnd(s, a))] + WordSpans(s, TokenEnd(s, a))
  {
  }

  /** Span `n` is a whole run, preceded by whitespace unless it starts at `i`. */
  lemma {:induction false} WordSpanIsRun(s: string, i: nat, n: nat)
    requires i <= |s| && n < |WordSpans(s, i)|
    ensures IsRun(s, WordSpans(s, i)[n].0, WordSpans(s, i)[n].1)
    ensures WordSpans(s, i)[n].0 == i || IsSpace(s[WordSpans(s, i)[n].0 - 1])
    decreases |s| - i
  {
    WordSpansStep(s, i);
    var a := SkipSpace(s, i);
    var b := TokenEnd(s, a);
    if n == 0 {
      assert WordSpans(s, i)[0] == (a, b);
      assert a == i || IsSpace(s[a - 1]);
    } else {
      WordSpanIsRun(s, b, n - 1);
      var sp := WordSpans(s, b)[n - 1];
      assert WordSpans(s, i)[n] == sp;
      assert sp.0 == b || IsSpace(s[sp.0 - 1]);
    }
  }

  /** Each span is a whole run, preceded by whitespace unless it starts at `i`. */
  lemma WordSpansAreRuns(s: string, i: nat)
    requires i <= |s|
    ensures forall n :: 0 <= n < |WordSpans(s, i)| ==> IsRun(s, WordSpans(s, i)[n].0, WordSpans(s, i)[n].1)
    ensures forall n :: 0 <= n < |WordSpans(s, i)| ==>
      WordSpans(s, i)[n].0 == i || IsSpace(s[WordSpans(s, i)[n].0 - 1])
  {
    forall n | 0 <= n < |WordSpans(s, i)|
      ensures IsRun(s, WordSpans(s, i)[n].0, WordSpans(s, i)[n].1)
      ensures WordSpans(s, i)[n].0 == i || IsSpace(s[WordSpans(s, i)[n].0 - 1])
    {
      WordSpanIsRun(s, i, n);
    }
  }

  /** The text before the first span and after the last is whitespace; all of it when
      there is no span. */
  lemma {:induction false} WordSpansEnds(s: string, i: nat)
    requires i <= |s|
    ensures WordSpans(s, i) == [] ==> IsGap(s, i, |s|)
    ensures WordSpans(s, i) != [] ==> IsGap(s, i, WordSpans(s, i)[0].0)
    ensures WordSpans(s, i) != [] ==> IsGap(s, WordSpans(s, i)[|WordSpans(s, i)| - 1].1, |s|)
    decreases |s| - i
  {
    WordSpansStep(s, i);
    var a := SkipSpace(s, i);
    if a < |s| {
      var b := TokenEnd(s, a);
      var rest := WordSpans(s, b);
      WordSpansEnds(s, b);
      if rest != [] {
        assert ([(a, b)] + rest)[|rest|] == rest[|rest| - 1];
      }
    }
  }

  /** Spans `n` and `n + 1` are separated by whitespace, at least one character of it. */
  lemma {:induction false} WordSpanGapAt(s: string, i: nat, n: nat)
    requires i <= |s| && n + 1 < |WordSpans(s, i)|
    ensures WordSpans(s, i)[n].1 < WordSpans(s, i)[n + 1].0
    ensures IsGap(s, WordSpans(s, i)[n].1, WordSpans(s, i)[n + 1].0)
    decreases |s| - i
  {
    WordSpansStep(s, i);
    var a := SkipSpace(s, i);
    var b := TokenEnd(s, a);
    var rest := WordSpans(s, b);
    assert WordSpans(s, i) == [(a, b)] + rest;
    if n == 0 {
      WordSpansStep(s, b);
      assert rest[0].0 == SkipSpace(s, b);
    } else {
      WordSpanGapAt(s, b, n - 1);
    }
  }

  /** Consecutive spans are separated by whitespace, at least one character of it. */
  lemma WordSpansBetween(s: string, i: nat)
    requires i <= |s|
    ensures forall n :: 0 <= n < |WordSpans(s, i)| - 1 ==>
      WordSpans(s, i)[n].1 < WordSpans(s, i)[n + 1].0 && IsGap(s, WordSpans(s, i)[n].1, WordSpans(s, i)[n + 1].0)
  {
    forall n | 0 <= n < |WordSpans(s, i)| - 1
      ensures WordSpans(s, i)[n].1 < WordSpans(s, i)[n + 1].0
      ensures IsGap(s, WordSpans(s, i)[n].1, WordSpans(s, i)[n + 1].0)
    {
      WordSpanGapAt(s, i, n);
    }
  }

  /** `str.split()` returns the texts of the maximal non-whitespace runs, one word per run,
      in order. */
  lemma {:induction false} WordsAreRuns(s: string, i: nat)
    requires i <= |s|
    ensures |WordsFrom(s, i)| == |WordSpans(s, i)|
    ensures forall n :: 0 <= n < |WordsFrom(s, i)| ==>
      WordsFrom(s, i)[n] == s[WordSpans(s, i)[n].0..WordSpans(s, i)[n].1]
    decreases |s| - i
  {
    var a := SkipSpace(s, i);
    WordSpansStep(s, i);
    if a < |s| {
      var b := TokenEnd(s, a);
      WordsAreRuns(s, b);
      var ws, spans := WordsFrom(s, i), WordSpans(s, i);
      assert ws == [s[a..b]] + WordsFrom(s, b);
      assert spans == [(a, b)] + WordSpans(s, b);
      forall n | 0 < n < |ws| ensures ws[n] == s[spans[n].0..spans[n].1] {
        assert ws[n] == WordsFrom(s, b)[n - 1] && spans[n] == WordSpans(s, b)[n - 1];
      }
    }
  }

  /** The first index at or after `from` where `sep` occurs in `s`, or -1. */
  function IndexOf(s: string, sep: string, from: nat): (r: int)
    requires from <= |s|
    ensures r == -1 || (from <= r && OccursAt(sep, s, r))
    ensures r == -1 ==> forall k :: from <= k <= |s| ==> !OccursAt(sep, s, k)
    ensures r != -1 ==> forall k :: from <= k < r ==> !OccursAt(sep, s, k)
    decreases |s| - from
  {
    if OccursAt(sep, s, from) then from
    else if from == |s| then -1
    else IndexOf(s, sep, from + 1)
  }

  /** `s.split(sep)` for a non-empty separator: the pieces between non-overlapping
      occurrences of `sep`, scanned left to right. */
  function SplitOn(s: string, sep: string): (pieces: seq<string>)
    requires sep != []
    ensures |pieces| >= 1
    ensures forall k :: 0 <= k < |pieces| ==> !Contains(pieces[k], sep)
    decreases |s|
  {
    var i := IndexOf(s, sep, 0);
    if i == -1 then
      [s]
    else
      NoEarlierOccurrence(s, sep, i);
      [s[..i]] + SplitOn(s[i + |sep|..], sep)
  }

  /** The text before the first occurrence of `sep` does not contain `sep`. */
  lemma NoEarlierOccurrence(s: string, sep: string, i: nat)
    requires sep != [] && i <= |s|
    requires forall k :: 0 <= k < i ==> !OccursAt(sep, s, k)
    ensures !Contains(s[..i], sep)
  {
    forall k | 0 <= k <= i && OccursAt(sep, s[..i], k)
      ensures false
    {
      assert s[k..k + |sep|] == s[..i][k..k + |sep|];
      assert OccursAt(sep, s, k);
    }
  }

  /** `sep.join(pieces)`. */
  function Join(pieces: seq<string>, sep: string): string {
    if pieces == [] then []
    else if |pieces| == 1 then pieces[0]
    else pieces[0] + sep + Join(pieces[1..], sep)
  }

  lemma JoinCons(head: string, tail: seq<string>, sep: string)
    requires |tail| >= 1
    ensures Join([head] + tail, sep) == head + sep + Join(tail, sep)
  {
  }

  /** Splitting on a separator and joining the pieces back with it gives the text back. */
  lemma {:induction false} JoinSplitOn(s: string, sep: string)
    requires sep != []
    ensures Join(SplitOn(s, sep), sep) == s
    decreases |s|
  {
    var i := IndexOf(s, sep, 0);
    if i != -1 {
      var rest := s[i + |sep|..];
      var tail := SplitOn(rest, sep);
      assert SplitOn(s, sep) == [s[..i]] + tail;
      JoinSplitOn(rest, sep);
      JoinCons(s[..i], tail, sep);
      assert s[i..i + |sep|] == sep;
      assert s == s[..i] + s[i..i + |sep|] + rest;
    }
  }

  function DigitValue(c: char): (d: nat)
    requires IsDigit(c)
    ensures d < 10
  {
    c as int - '0' as int
  }

  function DigitChar(d: nat): (c: char)
    requires d < 10
    ensures IsDigit(c) && DigitValue(c) == d
  {
    ('0' as int + d) as char
  }

  /** `int(ds)` for a string of decimal digits (leading zeros allowed). */
  function DigitsValue(ds: string): nat
    requires AllDigits(ds)
    decreases |ds|
  {
    if ds == [] then 0
    else DigitsValue(ds[..|ds| - 1]) * 10 + DigitValue(ds[|ds| - 1])
  }

  function Pow10(k: nat): (p: nat)
    ensures p >= 1
  {
    if k == 0 then 1 else 10 * Pow10(k - 1)
  }

  /** The value of `k` digits is below `10^k`. */
  lemma {:induction false} DigitsValueBound(ds: string)
    requires AllDigits(ds)
    ensures DigitsValue(ds) < Pow10(|ds|)
    decreases |ds|
  {
    if ds != [] {
      DigitsValueBound(ds[..|ds| - 1]);
    }
  }

  /** `str(n)` for a natural number: its decimal digits without leading zeros. */
  function NatToString(n: nat): (s: string)
    ensures |s| >= 1 && AllDigits(s)
    ensures |s| > 1 ==> s[0] != '0'
  {
    if n < 10 then [DigitChar(n)] else NatToString(n / 10) + [DigitChar(n % 10)]
  }

  /** Formatting a count and reading it back gives the count. */
  lemma {:induction false} DigitsValueNatToString(n: nat)
    ensures DigitsValue(NatToString(n)) == n
  {
    if n >= 10 {
      DigitsValueNatToString(n / 10);
      var s := NatToString(n);
      assert s[..|s| - 1] == NatToString(n / 10);
    }
  }
}

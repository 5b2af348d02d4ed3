/**
 * Link extraction from message text (`find_links_in_text`).
 *
 * The script calls `re.findall` with the pattern
 * `http[s]?://(?:[a-zA-Z]|[0-9]|[$-_@.&+]|[!*\\(\\),]|(?:%[0-9a-fA-F][0-9a-fA-F]))+`
 * as a raw string, so the class `[!*\\(\\),]` holds a backslash besides
 * `!`, `*`, `(`, `)` and `,`.
 * `IsLinkMatch` states what one match is, `IsFindAll` what the whole list of
 * matches is (left to right, non-overlapping, each search resuming where the
 * previous match ended), and `FindSpans`/`FindLinks` compute it.
 */
module LinkExtractor {
  import opened Strings

  const Http: string := "http://"
  const Https: string := "https://"

  /** One repetition of the pattern's group: the four single-character alternatives. */
  predicate IsLinkChar(c: char) {
    || ('a' <= c <= 'z') || ('A' <= c <= 'Z')
    || ('0' <= c <= '9')
    || ('$' <= c <= '_') || c == '@' || c == '.' || c == '&' || c == '+'
    || c == '!' || c == '*' || c == '\\' || c == '(' || c == ')' || c == ','
  }

  /** The class `[0-9a-fA-F]` of the percent-escape alternative. */
  predicate IsHexDigit(c: char) {
    ('0' <= c <= '9') || ('a' <= c <= 'f') || ('A' <= c <= 'F')
  }

  /**
   * The range `$-_` already holds the upper-case letters, the digits and all
   * of `@.&+*\(),`: a link character is a lower-case letter, a character
   * from `$` to `_`, or `!`.
   */
  lemma LinkCharRanges(c: char)
    ensures IsLinkChar(c) <==> ('a' <= c <= 'z') || ('$' <= c <= '_') || c == '!'
  {
  }

  /**
   * The `%XX` alternative adds nothing: every character it could consume is
   * matched on its own by the single-character alternatives.
   */
  lemma PercentEscapeIsLinkChars(h1: char, h2: char)
    requires IsHexDigit(h1) && IsHexDigit(h2)
    ensures IsLinkChar('%') && IsLinkChar(h1) && IsLinkChar(h2)
  {
  }

  /**
   * Length of the `http[s]?://` match at `p`, or 0. The optional `s` is
   * tried first; the two alternatives never both apply.
   */
  function SchemeLength(s: string, p: nat): nat {
    if StartsAt(s, p, Https) then |Https|
    else if StartsAt(s, p, Http) then |Http|
    else 0
  }

  /** The pattern matches at `p`: a scheme and at least one link character. */
  predicate LinkStartsAt(s: string, p: nat) {
    var n := SchemeLength(s, p);
    n > 0 && p + n < |s| && IsLinkChar(s[p + n])
  }

  /** The match at `p` is `s[p..e]`: the greedy `+` takes the longest run of link characters. */
  ghost predicate IsLinkMatch(s: string, p: nat, e: nat) {
    && LinkStartsAt(s, p)
    && p + SchemeLength(s, p) < e <= |s|
    && (forall k :: p + SchemeLength(s, p) <= k < e ==> IsLinkChar(s[k]))
    && (e == |s| || !IsLinkChar(s[e]))
  }

  /** The end of the run of link characters that starts at `q`. */
  function RunEnd(s: string, q: nat): (e: nat)
    requires q <= |s|
    ensures q <= e <= |s|
    ensures forall k :: q <= k < e ==> IsLinkChar(s[k])
    ensures e == |s| || !IsLinkChar(s[e])
    decreases |s| - q
  {
    if q < |s| && IsLinkChar(s[q]) then RunEnd(s, q + 1) else q
  }

  /** The position of one match in the text, `text[start..end]`. */
  datatype Span = Span(start: nat, end: nat)

  /** Where the search that found match `k` began. */
  function GapStart(from: nat, spans: seq<Span>, k: nat): nat
    requires k <= |spans|
  {
    if k == 0 then from else spans[k - 1].end
  }

  /** No match of the pattern starts at a position in `[lo, hi)`. */
  ghost predicate NoMatchIn(s: string, lo: nat, hi: nat) {
    forall p :: lo <= p < hi ==> !LinkStartsAt(s, p)
  }

  /** Every span is a match that starts at or after `from`. */
  ghost predicate AllMatch(s: string, from: nat, spans: seq<Span>) {
    forall k :: 0 <= k < |spans| ==> from <= spans[k].start && IsLinkMatch(s, spans[k].start, spans[k].end)
  }

  /** The spans come in text order without overlapping. */
  predicate InOrder(spans: seq<Span>) {
    forall k, l :: 0 <= k < l < |spans| ==> spans[k].end <= spans[l].start
  }

  /** No match starts in the stretch a search passed over before finding each span. */
  ghost predicate GapsClear(s: string, from: nat, spans: seq<Span>) {
    forall k {:trigger GapStart(from, spans, k)} :: 0 <= k < |spans| ==> NoMatchIn(s, GapStart(from, spans, k), spans[k].start)
  }

  /**
   * `spans` is what `re.findall` reports searching from `from`: every span is
   * a match, they come in text order without overlapping, no match starts in
   * the gap before a span, and none starts after the last one.
   */
  ghost predicate IsFindAll(s: string, from: nat, spans: seq<Span>) {
    && AllMatch(s, from, spans)
    && InOrder(spans)
    && GapsClear(s, from, spans)
    && NoMatchIn(s, GapStart(from, spans, |spans|), |s|)
  }

  /** The scanner behind `re.findall`: try each position, and resume after a match. */
  function FindSpans(s: string, from: nat): (spans: seq<Span>)
    requires from <= |s|
    ensures IsFindAll(s, from, spans)
    decreases |s| - from
  {
    if from == |s| then []
    else if LinkStartsAt(s, from) then
      var e := RunEnd(s, from + SchemeLength(s, from));
      var rest := FindSpans(s, e);
      FindSpansMatch(s, from, e, rest);
      [Span(from, e)] + rest
    else
      var rest := FindSpans(s, from + 1);
      FindSpansSkip(s, from, rest);
      rest
  }

  /** Searches that start at a span's end and at the start of the list before it see the same gaps. */
  lemma GapStartCons(from: nat, span: Span, rest: seq<Span>, k: nat)
    requires k <= |rest|
    ensures GapStart(from, [span] + rest, k + 1) == GapStart(span.end, rest, k)
  {
    var spans := [span] + rest;
    assert spans[k] == if k == 0 then span else rest[k - 1];
  }

  /** A match at `from`, found by the search from `from`, followed by the spans found after it. */
  lemma FindSpansMatch(s: string, from: nat, e: nat, rest: seq<Span>)
    requires IsLinkMatch(s, from, e) && IsFindAll(s, e, rest)
    ensures IsFindAll(s, from, [Span(from, e)] + rest)
  {
    var span := Span(from, e);
    AllMatchCons(s, from, span, rest);
    InOrderCons(span, rest);
    GapsClearCons(s, from, span, rest);
    GapStartCons(from, span, rest, |rest|);
  }

  lemma AllMatchCons(s: string, from: nat, span: Span, rest: seq<Span>)
    requires from <= span.start && IsLinkMatch(s, span.start, span.end) && AllMatch(s, span.end, rest)
    ensures AllMatch(s, from, [span] + rest)
  {
    var spans := [span] + rest;
    forall k | 0 < k < |spans|
      ensures from <= spans[k].start && IsLinkMatch(s, spans[k].start, spans[k].end)
    {
      assert spans[k] == rest[k - 1];
    }
  }

  lemma InOrderCons(span: Span, rest: seq<Span>)
    requires forall k :: 0 <= k < |rest| ==> span.end <= rest[k].start
    requires InOrder(rest)
    ensures InOrder([span] + rest)
  {
    var spans := [span] + rest;
    forall k, l | 0 <= k < l < |spans|
      ensures spans[k].end <= spans[l].start
    {
      assert spans[l] == rest[l - 1];
      if k > 0 {
        assert spans[k] == rest[k - 1];
      }
    }
  }

  lemma GapsClearCons(s: string, from: nat, span: Span, rest: seq<Span>)
    requires NoMatchIn(s, from, span.start) && GapsClear(s, span.end, rest)
    ensures GapsClear(s, from, [span] + rest)
  {
    var spans := [span] + rest;
    forall k | 0 < k < |spans|
      ensures NoMatchIn(s, GapStart(from, spans, k), spans[k].start)
    {
      GapStartCons(from, span, rest, k - 1);
      assert spans[k] == rest[k - 1];
    }
  }

  /** No match in `[lo + 1, hi)` and none at `lo` is none in `[lo, hi)`. */
  lemma NoMatchExtend(s: string, lo: nat, hi: nat)
    requires !LinkStartsAt(s, lo) && NoMatchIn(s, lo + 1, hi)
    ensures NoMatchIn(s, lo, hi)
  {
  }

  /** No match at `from`: the spans found from `from + 1` are those from `from`. */
  lemma FindSpansSkip(s: string, from: nat, rest: seq<Span>)
    requires !LinkStartsAt(s, from) && IsFindAll(s, from + 1, rest)
    ensures IsFindAll(s, from, rest)
  {
    assert GapsClear(s, from, rest) by {
      forall k | 0 <= k < |rest|
        ensures NoMatchIn(s, GapStart(from, rest, k), rest[k].start)
      {
        if k == 0 {
          assert NoMatchIn(s, GapStart(from + 1, rest, 0), rest[0].start);
          NoMatchExtend(s, from, rest[0].start);
        } else {
          assert GapStart(from, rest, k) == GapStart(from + 1, rest, k);
        }
      }
    }
    if rest == [] {
      NoMatchExtend(s, from, |s|);
    } else {
      assert GapStart(from, rest, |rest|) == GapStart(from + 1, rest, |rest|);
    }
  }

  /** The greedy run has only one possible end. */
  lemma LinkMatchEndUnique(s: string, p: nat, e1: nat, e2: nat)
    requires IsLinkMatch(s, p, e1) && IsLinkMatch(s, p, e2)
    ensures e1 == e2
  {
  }

  /** After the first match, the rest is what the search resuming at its end finds. */
  lemma FindAllTail(s: string, from: nat, spans: seq<Span>)
    requires IsFindAll(s, from, spans) && |spans| > 0
    ensures IsFindAll(s, spans[0].end, spans[1..])
  {
    AllMatchTail(s, from, spans);
    InOrderTail(spans);
    GapsClearTail(s, from, spans);
    GapStartTail(from, spans, |spans| - 1);
  }

  /** `GapStartCons` seen from the whole list. */
  lemma GapStartTail(from: nat, spans: seq<Span>, k: nat)
    requires k < |spans|
    ensures GapStart(from, spans, k + 1) == GapStart(spans[0].end, spans[1..], k)
  {
    if k > 0 {
      assert spans[1..][k - 1] == spans[k];
    }
  }

  lemma AllMatchTail(s: string, from: nat, spans: seq<Span>)
    requires AllMatch(s, from, spans) && InOrder(spans) && |spans| > 0
    ensures AllMatch(s, spans[0].end, spans[1..])
  {
    var rest := spans[1..];
    forall k | 0 <= k < |rest|
      ensures spans[0].end <= rest[k].start && IsLinkMatch(s, rest[k].start, rest[k].end)
    {
      assert rest[k] == spans[k + 1];
    }
  }

  lemma InOrderTail(spans: seq<Span>)
    requires InOrder(spans) && |spans| > 0
    ensures InOrder(spans[1..])
  {
    var rest := spans[1..];
    forall k, l | 0 <= k < l < |rest|
      ensures rest[k].end <= rest[l].start
    {
      assert rest[k] == spans[k + 1] && rest[l] == spans[l + 1];
    }
  }

  lemma GapsClearTail(s: string, from: nat, spans: seq<Span>)
    requires GapsClear(s, from, spans) && |spans| > 0
    ensures GapsClear(s, spans[0].end, spans[1..])
  {
    var rest := spans[1..];
    forall k | 0 <= k < |rest|
      ensures NoMatchIn(s, GapStart(spans[0].end, rest, k), rest[k].start)
    {
      GapStartTail(from, spans, k);
      assert rest[k] == spans[k + 1];
    }
  }

  /** Any description of `re.findall` reports a first match no later than another one's. */
  lemma FirstMatchNoLater(s: string, from: nat, a: seq<Span>, b: seq<Span>)
    requires IsFindAll(s, from, a) && IsFindAll(s, from, b) && a != []
    ensures b != [] && b[0].start <= a[0].start
  {
    var x := a[0].start;
    assert from <= x && LinkStartsAt(s, x) && x < |s|;
    assert GapStart(from, b, 0) == from;
  }

  /** Both descriptions agree on whether there is a first match, and on where it is. */
  lemma FindAllFirst(s: string, from: nat, a: seq<Span>, b: seq<Span>)
    requires IsFindAll(s, from, a) && IsFindAll(s, from, b)
    ensures a == [] <==> b == []
    ensures a != [] ==> a[0] == b[0]
  {
    if a != [] {
      FirstMatchNoLater(s, from, a, b);
      FirstMatchNoLater(s, from, b, a);
      LinkMatchEndUnique(s, a[0].start, a[0].end, b[0].end);
    } else if b != [] {
      FirstMatchNoLater(s, from, b, a);
    }
  }

  lemma SameHeadSameTail<T>(a: seq<T>, b: seq<T>)
    requires |a| > 0 && |b| > 0 && a[0] == b[0] && a[1..] == b[1..]
    ensures a == b
  {
    assert a == [a[0]] + a[1..] && b == [b[0]] + b[1..];
  }

  /** The description of `re.findall` determines its result. */
  lemma {:induction false} FindAllUnique(s: string, from: nat, a: seq<Span>, b: seq<Span>)
    requires IsFindAll(s, from, a) && IsFindAll(s, from, b)
    ensures a == b
    decreases |a|
  {
    FindAllFirst(s, from, a, b);
    if a != [] {
      FindAllTail(s, from, a);
      FindAllTail(s, from, b);
      FindAllUnique(s, a[0].end, a[1..], b[1..]);
      SameHeadSameTail(a, b);
    }
  }

  /** The scanner's list is the only one meeting the description of `re.findall`. */
  lemma FindSpansOnly(s: string, from: nat, spans: seq<Span>)
    requires from <= |s| && IsFindAll(s, from, spans)
    ensures spans == FindSpans(s, from)
  {
    FindAllUnique(s, from, spans, FindSpans(s, from));
  }

  /** What each returned link looks like: a scheme and then only link characters, at least one. */
  predicate IsLinkShaped(link: string) {
    var n := SchemeLength(link, 0);
    n > 0 && n < |link| && forall k :: n <= k < |link| ==> IsLinkChar(link[k])
  }

  /** The text of a match is link-shaped and occurs in the text. */
  lemma MatchedLinkShape(s: string, p: nat, e: nat)
    requires IsLinkMatch(s, p, e)
    ensures IsLinkShaped(s[p..e]) && Contains(s, s[p..e])
  {
    var link := s[p..e];
    assert StartsAt(s, p, link);
    StartsAtSlice(s, p, e, p, Https);
    StartsAtSlice(s, p, e, p, Http);
    assert SchemeLength(link, 0) == SchemeLength(s, p);
    forall k | SchemeLength(link, 0) <= k < |link|
      ensures IsLinkChar(link[k])
    {
      assert link[k] == s[p + k];
    }
  }

  /**
   * `find_links_in_text`: the texts of the `re.findall` matches, in order.
   * Each is link-shaped and a substring of the text.
   */
  function FindLinks(text: string): (links: seq<string>)
    ensures exists spans: seq<Span> :: IsFindAll(text, 0, spans) && links == SpanTexts(text, spans)
    ensures forall link <- links :: IsLinkShaped(link) && Contains(text, link)
  {
    var spans := FindSpans(text, 0);
    SpanTextsShape(text, spans);
    SpanTexts(text, spans)
  }

  /** The texts of a list of matches. */
  function SpanTexts(text: string, spans: seq<Span>): (links: seq<string>)
    requires forall k :: 0 <= k < |spans| ==> spans[k].start <= spans[k].end <= |text|
  {
    seq(|spans|, k requires 0 <= k < |spans| => text[spans[k].start..spans[k].end])
  }

  /** Every matched text is link-shaped and occurs in the text. */
  lemma SpanTextsShape(text: string, spans: seq<Span>)
    requires IsFindAll(text, 0, spans)
    ensures forall link <- SpanTexts(text, spans) :: IsLinkShaped(link) && Contains(text, link)
  {
    var links := SpanTexts(text, spans);
    forall link <- links
      ensures IsLinkShaped(link) && Contains(text, link)
    {
      var k :| 0 <= k < |links| && links[k] == link;
      MatchedLinkShape(text, spans[k].start, spans[k].end);
    }
  }

  /** `FindLinks` returns the texts of the spans of any description of `re.findall`. */
  lemma FindLinksIsFindAll(text: string, spans: seq<Span>)
    requires IsFindAll(text, 0, spans)
    ensures FindLinks(text) == SpanTexts(text, spans)
  {
    var spans' :| IsFindAll(text, 0, spans') && FindLinks(text) == SpanTexts(text, spans');
    FindAllUnique(text, 0, spans, spans');
  }

  /** A scheme starts with the letters `ht`. */
  lemma SchemeStartsWithHt(s: string, p: nat)
    requires SchemeLength(s, p) > 0
    ensures p + 1 < |s| && s[p] == 'h' && s[p + 1] == 't'
  {
    if StartsAt(s, p, Https) {
      assert s[p] == s[p..p + |Https|][0] && s[p + 1] == s[p..p + |Https|][1];
    } else {
      assert s[p] == s[p..p + |Http|][0] && s[p + 1] == s[p..p + |Http|][1];
    }
  }

  /** The example text: words, then a short link that runs to the end. */
  const ExampleText: string := "Check this out https://amzn.to/xyz"

  lemma ExampleTextMatch()
    ensures IsLinkMatch(ExampleText, 15, |ExampleText|)
  {
    var text := ExampleText;
    assert text[15..15 + |Https|] == Https;
    assert SchemeLength(text, 15) == |Https|;
    assert forall k :: 15 + |Https| <= k < |text| ==> IsLinkChar(text[k]);
  }

  lemma ExampleTextNoEarlierMatch()
    ensures forall p :: 0 <= p < 15 ==> !LinkStartsAt(ExampleText, p)
  {
    forall p | 0 <= p < 15
      ensures !LinkStartsAt(ExampleText, p)
    {
      if SchemeLength(ExampleText, p) > 0 {
        SchemeStartsWithHt(ExampleText, p);
      }
    }
  }

  lemma ExampleTextLink()
    ensures ExampleText[15..|ExampleText|] == "https://amzn.to/xyz"
  {
  }

  /** The one match of the example text is the whole short link. */
  lemma ExampleFindAll()
    ensures IsFindAll(ExampleText, 0, [Span(15, |ExampleText|)])
  {
    var spans := [Span(15, |ExampleText|)];
    ExampleTextMatch();
    ExampleTextNoEarlierMatch();
    assert AllMatch(ExampleText, 0, spans);
    assert GapStart(0, spans, 0) == 0 && GapStart(0, spans, 1) == |ExampleText|;
    assert GapsClear(ExampleText, 0, spans);
  }

  /** The link in `Check this out https://amzn.to/xyz` is found, and nothing else. */
  lemma ExampleOneLink()
    ensures FindLinks(ExampleText) == ["https://amzn.to/xyz"]
  {
    var spans := [Span(15, |ExampleText|)];
    ExampleFindAll();
    FindLinksIsFindAll(ExampleText, spans);
    SingleSpanText(ExampleText, spans[0]);
    ExampleTextLink();
  }

  lemma SingleSpanText(text: string, span: Span)
    requires span.start <= span.end <= |text|
    ensures SpanTexts(text, [span]) == [text[span.start..span.end]]
  {
  }
}

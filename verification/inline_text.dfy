/** The inline pass of the report renderer (`processText`): it finds markdown
    links and bold spans in one line of text, drops every match that starts
    inside an earlier kept one, and splits the text into plain-text pieces and
    marked-up nodes. */
module InlineText {
  import opened JsString

  /** A child of a rendered block, with the JSX elements replaced by data. */
  datatype Inline =
    | Text(value: string)                          // a plain string child
    | Bold(value: string)                          // a <strong> element
    | Link(caption: string, url: string)             // an <a> that opens `url` in a new tab
    | ActionLink(caption: string, reportId: string)  // a <button> that starts the e-mail delivery of `reportId`

  /** What a match captured: a link's caption and url, or a bold span's body. */
  datatype Capture = LinkCapture(caption: string, url: string) | BoldCapture(body: string)

  /** A regular-expression match: where it starts, how long it is, what it captured. */
  datatype Match = Match(index: nat, length: nat, capture: Capture) {
    function End(): nat { index + length }
  }

  /** The two global regular expressions of processText. */
  datatype Pattern = LinkPattern | BoldPattern

  /** The url fragment that marks a link to a downloadable report. */
  const DownloadPath: string := "/reports/download/"

  /** The source text of a link captioned `caption` that points at `url`. */
  function LinkSource(caption: string, url: string): string {
    ['['] + caption + [']', '('] + url + [')']
  }

  /** `raw` is exactly a link that `\[([^\]]+)\]\(([^)]+)\)` captures as `caption`, `url`. */
  predicate IsLinkSource(raw: string, caption: string, url: string) {
    raw == LinkSource(caption, url) && caption != [] && url != [] && ']' !in caption && ')' !in url
  }

  /** `raw` is exactly a span `dd([^d]+)dd` that captures `body`. */
  predicate IsBoldSource(raw: string, d: char, body: string) {
    raw == [d, d] + body + [d, d] && body != [] && d !in body
  }

  // ---------------------------------------------------------------------------
  // The two regular expressions, as deterministic matchers
  // ---------------------------------------------------------------------------

  /** `\[([^\]]+)\]\(([^)]+)\)` tried at position `p`: the caption runs to the
      first `]`, which must be followed by `(`; the url runs to the next `)`.
      Neither class can backtrack past a delimiter, so this is the only match
      at `p` (LinkAtShape, LinkAtFindsEveryLink). */
  function LinkAt(text: string, p: nat): (r: Option<Match>)
    requires p <= |text|
    ensures r.Some? ==> r.value.index == p && r.value.End() <= |text| && r.value.length >= 4
    ensures r.Some? ==> text[p] == '[' && r.value.capture.LinkCapture?
  {
    if p < |text| && text[p] == '[' then
      var q := FirstFrom(text, ']', p + 1);
      if q > p + 1 && q + 1 < |text| && text[q + 1] == '(' then
        var e := FirstFrom(text, ')', q + 2);
        if e > q + 2 && e < |text| then
          Some(Match(p, e + 1 - p, LinkCapture(text[p + 1..q], text[q + 2..e])))
        else None
      else None
    else None
  }

  /** `dd([^d]+)dd` tried at position `p`: the body runs to the next `d`, which
      must be doubled. */
  function DelimitedAt(text: string, p: nat, d: char): (r: Option<Match>)
    requires p <= |text|
    ensures r.Some? ==> r.value.index == p && r.value.End() <= |text| && r.value.length >= 5
    ensures r.Some? ==> text[p] == d && r.value.capture.BoldCapture?
  {
    if p + 1 < |text| && text[p] == d && text[p + 1] == d then
      var q := FirstFrom(text, d, p + 2);
      if q > p + 2 && q + 1 < |text| && text[q + 1] == d then
        Some(Match(p, q + 2 - p, BoldCapture(text[p + 2..q])))
      else None
    else None
  }

  /** `\*\*([^*]+)\*\*|__([^_]+)__` tried at position `p`: the first alternative,
      then the second. */
  function BoldAt(text: string, p: nat): (r: Option<Match>)
    requires p <= |text|
    ensures r.Some? ==> r.value.index == p && r.value.End() <= |text| && r.value.length >= 5
    ensures r.Some? ==> (text[p] == '*' || text[p] == '_') && r.value.capture.BoldCapture?
  {
    var star := DelimitedAt(text, p, '*');
    if star.Some? then star else DelimitedAt(text, p, '_')
  }

  function MatchAt(pat: Pattern, text: string, p: nat): (r: Option<Match>)
    requires p <= |text|
    ensures r.Some? ==> r.value.index == p && r.value.End() <= |text| && r.value.length > 0
  {
    match pat
    case LinkPattern => LinkAt(text, p)
    case BoldPattern => BoldAt(text, p)
  }

  /** `m` is the match its own pattern finds at `m.index` of `text`. */
  predicate IsMatchIn(text: string, m: Match) {
    && m.index <= |text|
    && match m.capture
       case LinkCapture(_, _) => LinkAt(text, m.index) == Some(m)
       case BoldCapture(_) => BoldAt(text, m.index) == Some(m)
  }

  /** The text a link match covers is `[caption](url)` with its captures. */
  lemma LinkAtShape(text: string, p: nat)
    requires p <= |text| && LinkAt(text, p).Some?
    ensures var m := LinkAt(text, p).value;
      IsLinkSource(text[p..m.End()], m.capture.caption, m.capture.url)
  {
    var q := FirstFrom(text, ']', p + 1);
    var e := FirstFrom(text, ')', q + 2);
    var caption, url := text[p + 1..q], text[q + 2..e];
    assert LinkAt(text, p).value == Match(p, e + 1 - p, LinkCapture(caption, url));
    forall j | 0 <= j < |caption| ensures caption[j] != ']' {
      assert caption[j] == text[p + 1 + j];
    }
    forall j | 0 <= j < |url| ensures url[j] != ')' {
      assert url[j] == text[q + 2 + j];
    }
    LinkSourceOfBrackets(text, p, q, e);
  }

  /** Brackets at `p`, `q`, `q + 1` and `e` frame the link written out between them. */
  lemma LinkSourceOfBrackets(text: string, p: nat, q: nat, e: nat)
    requires p < q && q + 2 <= e < |text|
    requires text[p] == '[' && text[q] == ']' && text[q + 1] == '(' && text[e] == ')'
    ensures text[p..e + 1] == LinkSource(text[p + 1..q], text[q + 2..e])
  {
    assert text[p..e + 1] == text[p..q] + text[q..e + 1];
    assert text[p..q] == ['['] + text[p + 1..q];
    assert text[q..e + 1] == [']', '('] + text[q + 2..e + 1];
    assert text[q + 2..e + 1] == text[q + 2..e] + [')'];
  }

  /** The text a delimited match covers is `dd body dd` with its capture. */
  lemma DelimitedAtShape(text: string, p: nat, d: char)
    requires p <= |text| && DelimitedAt(text, p, d).Some?
    ensures var m := DelimitedAt(text, p, d).value;
      IsBoldSource(text[p..m.End()], d, m.capture.body)
  {
    var m := DelimitedAt(text, p, d).value;
    var q := m.End() - 2;
    assert text[p..m.End()] == text[p..p + 2] + text[p + 2..q] + text[q..m.End()];
  }

  /** The text a bold match covers is `**body**` or `__body__` with its capture. */
  lemma BoldAtShape(text: string, p: nat)
    requires p <= |text| && BoldAt(text, p).Some?
    ensures var m := BoldAt(text, p).value;
      IsBoldSource(text[p..m.End()], '*', m.capture.body) || IsBoldSource(text[p..m.End()], '_', m.capture.body)
  {
    if DelimitedAt(text, p, '*').Some? {
      DelimitedAtShape(text, p, '*');
    } else {
      DelimitedAtShape(text, p, '_');
    }
  }

  /** Pins down the first `c` at or after `from`. */
  lemma FirstFromIs(s: string, c: char, from: nat, k: nat)
    requires from <= k < |s| && s[k] == c
    requires forall j :: from <= j < k ==> s[j] != c
    ensures FirstFrom(s, c, from) == k
  {
  }

  /** Conversely to LinkAtShape: every link written out at `p` is the match
      found at `p`, with the same captures. */
  lemma LinkAtFindsEveryLink(text: string, p: nat, caption: string, url: string)
    requires p + |caption| + |url| + 4 <= |text|
    requires IsLinkSource(text[p..p + |caption| + |url| + 4], caption, url)
    ensures LinkAt(text, p) == Some(Match(p, |caption| + |url| + 4, LinkCapture(caption, url)))
  {
    var q, e := p + 1 + |caption|, p + 3 + |caption| + |url|;
    LinkSourceLayout(text, p, caption, url);
    FirstFromIs(text, ']', p + 1, q);
    FirstFromIs(text, ')', q + 2, e);
  }

  /** The characters of a link written out. */
  lemma LinkSourceChars(caption: string, url: string)
    ensures var raw := LinkSource(caption, url);
      && |raw| == |caption| + |url| + 4
      && raw[0] == '[' && raw[1 + |caption|] == ']' && raw[2 + |caption|] == '(' && raw[3 + |caption| + |url|] == ')'
      && (forall j :: 0 <= j < |caption| ==> raw[1 + j] == caption[j])
      && (forall j :: 0 <= j < |url| ==> raw[3 + |caption| + j] == url[j])
  {
    var pre := ['['] + caption + [']', '('];
    assert LinkSource(caption, url) == pre + url + [')'];
    assert forall j :: 0 <= j < |caption| ==> pre[1 + j] == caption[j];
  }

  lemma SliceChars(text: string, p: nat, raw: string)
    requires p + |raw| <= |text| && text[p..p + |raw|] == raw
    ensures forall k :: 0 <= k < |raw| ==> text[p + k] == raw[k]
  {
  }

  /** Where the brackets, the caption and the url of a link written out at `p` sit. */
  lemma LinkSourceLayout(text: string, p: nat, caption: string, url: string)
    requires p + |caption| + |url| + 4 <= |text|
    requires IsLinkSource(text[p..p + |caption| + |url| + 4], caption, url)
    ensures var q, e := p + 1 + |caption|, p + 3 + |caption| + |url|;
      && text[p] == '[' && text[q] == ']' && text[q + 1] == '(' && text[e] == ')'
      && text[p + 1..q] == caption && text[q + 2..e] == url
      && (forall j :: p + 1 <= j < q ==> text[j] != ']')
      && (forall j :: q + 2 <= j < e ==> text[j] != ')')
  {
    LinkCaptionLayout(text, p, caption, url);
    LinkUrlLayout(text, p, caption, url);
  }

  /** The opening bracket, the caption and the closing bracket of LinkSourceLayout. */
  lemma LinkCaptionLayout(text: string, p: nat, caption: string, url: string)
    requires p + |caption| + |url| + 4 <= |text|
    requires IsLinkSource(text[p..p + |caption| + |url| + 4], caption, url)
    ensures var q := p + 1 + |caption|;
      && text[p] == '[' && text[q] == ']'
      && text[p + 1..q] == caption && (forall j :: p + 1 <= j < q ==> text[j] != ']')
  {
    LinkSourceChars(caption, url);
    SliceChars(text, p, LinkSource(caption, url));
    SliceIs(text, p + 1, caption);
  }

  /** The opening parenthesis, the url and the closing parenthesis of LinkSourceLayout. */
  lemma LinkUrlLayout(text: string, p: nat, caption: string, url: string)
    requires p + |caption| + |url| + 4 <= |text|
    requires IsLinkSource(text[p..p + |caption| + |url| + 4], caption, url)
    ensures var q, e := p + 1 + |caption|, p + 3 + |caption| + |url|;
      && text[q + 1] == '(' && text[e] == ')'
      && text[q + 2..e] == url && (forall j :: q + 2 <= j < e ==> text[j] != ')')
  {
    var raw, u := LinkSource(caption, url), p + 3 + |caption|;
    LinkSourceChars(caption, url);
    SliceChars(text, p, raw);
    forall j | 0 <= j < |url|
      ensures text[u + j] == url[j]
    {
      assert text[p + (3 + |caption| + j)] == raw[3 + |caption| + j];
    }
    SliceIs(text, u, url);
  }

  /** A stretch of `text` that agrees with `s` character by character is `s`,
      and holds no character `s` lacks. */
  lemma SliceIs(text: string, start: nat, s: string)
    requires start + |s| <= |text|
    requires forall j :: 0 <= j < |s| ==> text[start + j] == s[j]
    ensures text[start..start + |s|] == s
    ensures forall j :: start <= j < start + |s| ==> text[j] in s
  {
    forall j | start <= j < start + |s|
      ensures text[j] in s
    {
      assert text[start + (j - start)] == s[j - start];
    }
  }

  /** Conversely to DelimitedAtShape: every span `dd body dd` written out at
      `p` is the match found at `p`, with the same body. */
  lemma DelimitedAtFindsEverySpan(text: string, p: nat, d: char, body: string)
    requires p + |body| + 4 <= |text|
    requires IsBoldSource(text[p..p + |body| + 4], d, body)
    ensures DelimitedAt(text, p, d) == Some(Match(p, |body| + 4, BoldCapture(body)))
  {
    var q := p + 2 + |body|;
    var raw := text[p..q + 2];
    assert raw == [d, d] + body + [d, d];
    SliceChars(text, p, raw);
    assert forall j :: 0 <= j < |body| ==> raw[2 + j] == body[j];
    assert text[p] == d && text[p + 1] == d && text[q] == d && text[q + 1] == d;
    assert forall j :: p + 2 <= j < q ==> text[j] == body[j - p - 2];
    assert text[p + 2..q] == body;
    FirstFromIs(text, d, p + 2, q);
  }

  /** Conversely to BoldAtShape: every `**body**` or `__body__` span written
      out at `p` is the bold match found at `p`, with that body. A `__` span is
      found by the second alternative, since the first needs `*` at `p`. */
  lemma BoldAtFindsEverySpan(text: string, p: nat, d: char, body: string)
    requires d == '*' || d == '_'
    requires p + |body| + 4 <= |text|
    requires IsBoldSource(text[p..p + |body| + 4], d, body)
    ensures BoldAt(text, p) == Some(Match(p, |body| + 4, BoldCapture(body)))
  {
    DelimitedAtFindsEverySpan(text, p, d, body);
    if d == '_' {
      assert text[p] == text[p..p + |body| + 4][0];
    }
  }

  // ---------------------------------------------------------------------------
  // The global scans: `while ((match = regex.exec(text)) !== null)`
  // ---------------------------------------------------------------------------

  /** `regex.exec(text)` with `lastIndex == from`: the leftmost match at or after `from`. */
  function FirstMatch(pat: Pattern, text: string, from: nat): (r: Option<Match>)
    requires from <= |text|
    ensures r.Some? ==> from <= r.value.index <= |text| && MatchAt(pat, text, r.value.index) == r
    ensures forall p :: from <= p <= |text| && (r.None? || p < r.value.index) ==> MatchAt(pat, text, p).None?
    decreases |text| - from
  {
    var here := MatchAt(pat, text, from);
    if here.Some? || from == |text| then here else FirstMatch(pat, text, from + 1)
  }

  /** The matches the exec loop collects when it starts at `from`: after each
      hit the scan resumes where the hit ends. */
  function Scan(pat: Pattern, text: string, from: nat): (ms: seq<Match>)
    requires from <= |text|
    ensures forall i :: 0 <= i < |ms| ==> from <= ms[i].index <= |text| && MatchAt(pat, text, ms[i].index) == Some(ms[i])
    ensures forall i, j :: 0 <= i < j < |ms| ==> ms[i].End() <= ms[j].index
    decreases |text| - from
  {
    match FirstMatch(pat, text, from)
    case None => []
    case Some(m) =>
      var rest := Scan(pat, text, m.End());
      ConsScanned(pat, text, from, m, rest);
      [m] + rest
  }

  /** A hit followed by the hits of the scan that resumes where it ends. */
  lemma ConsScanned(pat: Pattern, text: string, from: nat, m: Match, rest: seq<Match>)
    requires from <= m.index && m.End() <= |text| && MatchAt(pat, text, m.index) == Some(m)
    requires forall i :: 0 <= i < |rest| ==> m.End() <= rest[i].index <= |text| && MatchAt(pat, text, rest[i].index) == Some(rest[i])
    requires forall i, j :: 0 <= i < j < |rest| ==> rest[i].End() <= rest[j].index
    ensures var ms := [m] + rest;
      && (forall i :: 0 <= i < |ms| ==> from <= ms[i].index <= |text| && MatchAt(pat, text, ms[i].index) == Some(ms[i]))
      && (forall i, j :: 0 <= i < j < |ms| ==> ms[i].End() <= ms[j].index)
  {
    var ms := [m] + rest;
    forall i | 0 < i < |ms| ensures ms[i] == rest[i - 1] {
    }
  }

  /** Some hit of `ms` covers position `p`: it starts at or before `p` and ends after it. */
  predicate Covers(ms: seq<Match>, p: nat) {
    exists i :: 0 <= i < |ms| && ms[i].index <= p < ms[i].End()
  }

  /** The scan misses no match: every position at or after `from` where the
      pattern matches is covered by a collected hit, either as its start or
      inside it (the exec loop resumes only where a hit ends). */
  lemma {:induction false} ScanMissesNoMatch(pat: Pattern, text: string, from: nat, p: nat)
    requires from <= p <= |text| && MatchAt(pat, text, p).Some?
    ensures Covers(Scan(pat, text, from), p)
    decreases |text| - from
  {
    var found := FirstMatch(pat, text, from);
    assert found.Some? && found.value.index <= p;
    var m := found.value;
    ScanStep(pat, text, from);
    var rest := Scan(pat, text, m.End());
    if p < m.End() {
      CoversHead(m, rest, p);
    } else {
      ScanMissesNoMatch(pat, text, m.End(), p);
      CoversTail(m, rest, p);
    }
  }

  lemma CoversHead(m: Match, rest: seq<Match>, p: nat)
    requires m.index <= p < m.End()
    ensures Covers([m] + rest, p)
  {
    assert ([m] + rest)[0] == m;
  }

  lemma CoversTail(m: Match, rest: seq<Match>, p: nat)
    requires Covers(rest, p)
    ensures Covers([m] + rest, p)
  {
    var i :| 0 <= i < |rest| && rest[i].index <= p < rest[i].End();
    assert ([m] + rest)[i + 1] == rest[i];
  }

  /** The exec loop of processText for one of its two regular expressions. */
  method CollectMatches(pat: Pattern, text: string) returns (matches: seq<Match>)
    ensures matches == Scan(pat, text, 0)
  {
    matches := [];
    var lastIndex := 0;
    var found := FirstMatch(pat, text, lastIndex);
    while found.Some?
      invariant lastIndex <= |text|
      invariant found == FirstMatch(pat, text, lastIndex)
      invariant matches + Scan(pat, text, lastIndex) == Scan(pat, text, 0)
      decreases |text| - lastIndex
    {
      var m := found.value;
      ScanStep(pat, text, lastIndex);
      PushFront(matches, m, Scan(pat, text, m.End()));
      matches := matches + [m];
      lastIndex := m.End();
      found := FirstMatch(pat, text, lastIndex);
    }
  }

  /** Moving one element from the front of the rest to the end of the prefix. */
  lemma PushFront<T>(done: seq<T>, x: T, rest: seq<T>)
    ensures (done + [x]) + rest == done + ([x] + rest)
  {
  }

  /** One hit of the exec loop. */
  lemma ScanStep(pat: Pattern, text: string, from: nat)
    requires from <= |text| && FirstMatch(pat, text, from).Some?
    ensures var m := FirstMatch(pat, text, from).value;
      m.End() <= |text| && Scan(pat, text, from) == [m] + Scan(pat, text, m.End())
  {
  }

  /** A link and a bold span never start at the same index (they begin with `[`
      and with `*` or `_`), and the scans are non-overlapping, so every match of
      both lists starts at its own index. */
  lemma ScannedIndicesDistinct(text: string)
    ensures DistinctIndices(Scan(LinkPattern, text, 0) + Scan(BoldPattern, text, 0))
  {
    var links, bolds := Scan(LinkPattern, text, 0), Scan(BoldPattern, text, 0);
    var all := links + bolds;
    forall i, j | 0 <= i < j < |all| ensures all[i].index != all[j].index {
      if j < |links| {
        assert all[i] == links[i] && all[j] == links[j];
      } else if i >= |links| {
        assert all[i] == bolds[i - |links|] && all[j] == bolds[j - |links|];
      } else {
        assert text[all[i].index] == '[';
        assert text[all[j].index] == '*' || text[all[j].index] == '_';
      }
    }
  }

  // ---------------------------------------------------------------------------
  // Merging and sorting: `[...links, ...bolds].sort((a, b) => a.index - b.index)`
  // ---------------------------------------------------------------------------

  predicate SortedByIndex(ms: seq<Match>) {
    forall i, j :: 0 <= i < j < |ms| ==> ms[i].index <= ms[j].index
  }

  predicate StrictlySortedByIndex(ms: seq<Match>) {
    forall i, j :: 0 <= i < j < |ms| ==> ms[i].index < ms[j].index
  }

  predicate DistinctIndices(ms: seq<Match>) {
    forall i, j :: 0 <= i < j < |ms| ==> ms[i].index != ms[j].index
  }

  /** Inserts `m` before the first element that does not start before it. */
  function InsertByIndex(m: Match, ms: seq<Match>): (r: seq<Match>)
    requires SortedByIndex(ms)
    ensures SortedByIndex(r)
    ensures multiset(r) == multiset(ms) + multiset{m}
  {
    if ms == [] || m.index <= ms[0].index then [m] + ms
    else
      var rest := InsertByIndex(m, ms[1..]);
      assert ms == [ms[0]] + ms[1..];
      PrependKeepsOrder(ms, m, rest);
      [ms[0]] + rest
  }

  /** `ms[0]` still comes first when `m`, which starts after it, joins the rest. */
  lemma PrependKeepsOrder(ms: seq<Match>, m: Match, rest: seq<Match>)
    requires ms != [] && SortedByIndex(ms) && ms[0].index < m.index
    requires SortedByIndex(rest) && multiset(rest) == multiset(ms[1..]) + multiset{m}
    ensures SortedByIndex([ms[0]] + rest)
    ensures StrictlySortedByIndex(ms) && StrictlySortedByIndex(rest) ==> StrictlySortedByIndex([ms[0]] + rest)
  {
    forall i | 0 <= i < |rest|
      ensures ms[0].index <= rest[i].index
      ensures StrictlySortedByIndex(ms) ==> ms[0].index < rest[i].index
    {
      assert rest[i] in multiset(rest);
      if rest[i] != m {
        assert rest[i] in ms[1..];
        var k :| 0 <= k < |ms[1..]| && ms[1..][k] == rest[i];
        assert ms[k + 1] == rest[i];
      }
    }
  }

  /** `Array.prototype.sort` with the comparator `a.index - b.index`: a stable
      sort by start index (an element is inserted before the equal-index
      elements that follow it). */
  function SortByIndex(ms: seq<Match>): (r: seq<Match>)
    ensures SortedByIndex(r)
    ensures multiset(r) == multiset(ms)
  {
    if ms == [] then []
    else
      assert ms == [ms[0]] + ms[1..];
      InsertByIndex(ms[0], SortByIndex(ms[1..]))
  }

  /** Inserting a match whose start index is new keeps the order strict. */
  lemma {:induction false} InsertKeepsStrictOrder(m: Match, ms: seq<Match>)
    requires StrictlySortedByIndex(ms)
    requires forall i :: 0 <= i < |ms| ==> ms[i].index != m.index
    ensures StrictlySortedByIndex(InsertByIndex(m, ms))
  {
    if ms == [] || m.index <= ms[0].index {
      assert ms != [] ==> ms[0].index != m.index;
      PrependStrict(m, ms);
    } else {
      var tail := ms[1..];
      assert forall i :: 0 <= i < |tail| ==> tail[i] == ms[i + 1];
      InsertKeepsStrictOrder(m, tail);
      var rest := InsertByIndex(m, tail);
      assert ms == [ms[0]] + tail;
      assert InsertByIndex(m, ms) == [ms[0]] + rest;
      PrependKeepsOrder(ms, m, rest);
    }
  }

  /** A match that starts before the first of a strictly sorted list can lead it. */
  lemma PrependStrict(m: Match, ms: seq<Match>)
    requires StrictlySortedByIndex(ms)
    requires ms != [] ==> m.index < ms[0].index
    ensures StrictlySortedByIndex([m] + ms)
  {
    var r := [m] + ms;
    forall i, j | 0 <= i < j < |r| ensures r[i].index < r[j].index {
      if i > 0 {
        assert r[i] == ms[i - 1] && r[j] == ms[j - 1];
      } else if j > 1 {
        assert ms[0].index < ms[j - 1].index;
      }
    }
  }

  /** With pairwise distinct start indices the sort is strictly increasing, so
      it is the only ordering the comparator allows: stability plays no part. */
  lemma {:induction false} SortIsStrictOnDistinctIndices(ms: seq<Match>)
    requires DistinctIndices(ms)
    ensures StrictlySortedByIndex(SortByIndex(ms))
  {
    if ms != [] {
      assert ms == [ms[0]] + ms[1..];
      SortIsStrictOnDistinctIndices(ms[1..]);
      var sorted := SortByIndex(ms[1..]);
      forall i | 0 <= i < |sorted| ensures sorted[i].index != ms[0].index {
        var x := sorted[i];
        assert x in multiset(sorted);
        assert x in multiset(ms[1..]);
        var k :| 0 <= k < |ms[1..]| && ms[1..][k] == x;
        assert ms[k + 1] == x;
      }
      InsertKeepsStrictOrder(ms[0], SortByIndex(ms[1..]));
    }
  }

  /** Any list sorted by start index that holds exactly the matches of `ms`
      is the one SortByIndex gives, when the start indices are distinct: every
      sorting algorithm the engine may use agrees with this one. */
  lemma SortIsTheOnlyOrder(ms: seq<Match>, r: seq<Match>)
    requires DistinctIndices(ms)
    requires SortedByIndex(r) && multiset(r) == multiset(ms)
    ensures r == SortByIndex(ms)
  {
    SortIsStrictOnDistinctIndices(ms);
    SortedPermutationUnique(SortByIndex(ms), r);
  }

  /** A strictly sorted list and a sorted list with the same elements are equal. */
  lemma {:induction false} SortedPermutationUnique(a: seq<Match>, b: seq<Match>)
    requires StrictlySortedByIndex(a) && SortedByIndex(b)
    requires multiset(a) == multiset(b)
    ensures a == b
    decreases |a|
  {
    assert |a| == |b| by {
      assert |a| == |multiset(a)| && |b| == |multiset(b)|;
    }
    if a != [] {
      SameHead(a, b);
      SameTail(a, b);
      var ta, tb := a[1..], b[1..];
      assert StrictlySortedByIndex(ta) by {
        assert forall i :: 0 <= i < |ta| ==> ta[i] == a[i + 1];
      }
      assert SortedByIndex(tb) by {
        assert forall i :: 0 <= i < |tb| ==> tb[i] == b[i + 1];
      }
      SortedPermutationUnique(ta, tb);
      assert a == [a[0]] + ta && b == [b[0]] + tb;
    }
  }

  /** The least start index leads both lists, and it names a single match. */
  lemma SameHead(a: seq<Match>, b: seq<Match>)
    requires StrictlySortedByIndex(a) && SortedByIndex(b)
    requires multiset(a) == multiset(b) && a != [] && b != []
    ensures a[0] == b[0]
  {
    assert a[0] in multiset(b) && b[0] in multiset(a);
    var k :| 0 <= k < |b| && b[k] == a[0];
    var m :| 0 <= m < |a| && a[m] == b[0];
    assert b[0].index <= b[k].index;
  }

  /** With the heads equal, the tails hold the same elements. */
  lemma SameTail(a: seq<Match>, b: seq<Match>)
    requires multiset(a) == multiset(b) && a != [] && b != [] && a[0] == b[0]
    ensures multiset(a[1..]) == multiset(b[1..])
  {
    assert a == [a[0]] + a[1..] && b == [b[0]] + b[1..];
    assert multiset(a[1..]) == multiset(a) - multiset{a[0]};
    assert multiset(b[1..]) == multiset(b) - multiset{b[0]};
  }

  // ---------------------------------------------------------------------------
  // The overlap filter: `if (m.index >= currentEnd) { keep; currentEnd = end }`
  // ---------------------------------------------------------------------------

  /** The matches the filter loop keeps when its cursor stands at `currentEnd`:
      each kept match starts at or after the end of the one kept before it. */
  function KeepFrom(ms: seq<Match>, currentEnd: nat): (kept: seq<Match>)
    ensures forall i :: 0 <= i < |kept| ==> currentEnd <= kept[i].index
    ensures forall i, j :: 0 <= i < j < |kept| ==> kept[i].End() <= kept[j].index
    decreases |ms|
  {
    if ms == [] then []
    else if ms[0].index >= currentEnd then [ms[0]] + KeepFrom(ms[1..], ms[0].End())
    else KeepFrom(ms[1..], currentEnd)
  }

  /** What is kept is kept whole: every kept match is one of the candidates,
      never a trimmed copy. */
  lemma {:induction false} KeptAreCandidates(ms: seq<Match>, currentEnd: nat)
    ensures forall i :: 0 <= i < |KeepFrom(ms, currentEnd)| ==> KeepFrom(ms, currentEnd)[i] in ms
    decreases |ms|
  {
    if ms != [] {
      assert ms == [ms[0]] + ms[1..];
      if ms[0].index >= currentEnd {
        KeptAreCandidates(ms[1..], ms[0].End());
      } else {
        KeptAreCandidates(ms[1..], currentEnd);
      }
    }
  }

  /** Position `p` lies inside one of the `kept` matches. */
  predicate InsideSome(kept: seq<Match>, p: nat) {
    exists j :: 0 <= j < |kept| && kept[j].index <= p < kept[j].End()
  }

  /** On candidates sorted by start index, a candidate is dropped only when it
      starts before the cursor or inside a kept match. */
  lemma {:induction false} KeepDropsOnlyOverlaps(ms: seq<Match>, currentEnd: nat)
    requires SortedByIndex(ms)
    ensures var kept := KeepFrom(ms, currentEnd);
      forall i :: 0 <= i < |ms| ==> ms[i] in kept || ms[i].index < currentEnd || InsideSome(kept, ms[i].index)
    decreases |ms|
  {
    if ms != [] {
      var kept := KeepFrom(ms, currentEnd);
      var m, tail := ms[0], ms[1..];
      assert SortedByIndex(tail);
      if m.index >= currentEnd {
        KeepDropsOnlyOverlaps(tail, m.End());
        var rest := KeepFrom(tail, m.End());
        assert kept == [m] + rest;
        forall i | 0 < i < |ms|
          ensures ms[i] in kept || InsideSome(kept, ms[i].index)
        {
          assert ms[i] == tail[i - 1];
          if ms[i] !in rest {
            if ms[i].index < m.End() {
              assert kept[0].index <= ms[i].index < kept[0].End();
            } else {
              InsideTailInside(m, rest, ms[i].index);
            }
          }
        }
      } else {
        KeepDropsOnlyOverlaps(tail, currentEnd);
        forall i | 0 < i < |ms|
          ensures ms[i] in kept || ms[i].index < currentEnd || InsideSome(kept, ms[i].index)
        {
          assert ms[i] == tail[i - 1];
        }
      }
    }
  }

  /** A position inside a later kept match is inside one of the whole list. */
  lemma InsideTailInside(m: Match, rest: seq<Match>, p: nat)
    requires InsideSome(rest, p)
    ensures InsideSome([m] + rest, p)
  {
    var j :| 0 <= j < |rest| && rest[j].index <= p < rest[j].End();
    assert ([m] + rest)[j + 1] == rest[j];
  }

  /** The filter loop of processText. */
  method FilterOverlaps(allMatches: seq<Match>) returns (filtered: seq<Match>)
    ensures filtered == KeepFrom(allMatches, 0)
  {
    filtered := [];
    var currentEnd := 0;
    for i := 0 to |allMatches|
      invariant filtered + KeepFrom(allMatches[i..], currentEnd) == KeepFrom(allMatches, 0)
    {
      var m := allMatches[i];
      assert allMatches[i..][1..] == allMatches[i + 1..];
      if m.index >= currentEnd {
        filtered := filtered + [m];
        currentEnd := m.End();
      }
    }
    assert allMatches[|allMatches|..] == [];
  }

  // ---------------------------------------------------------------------------
  // Emission: gap text, then the node for each kept match, then the tail
  // ---------------------------------------------------------------------------

  /** The download-link test: a url that contains `/reports/download/` becomes an
      ActionLink carrying what `url.split('/reports/download/')[1]` gives;
      any other url stays a Link, caption and url verbatim. */
  function ClassifyLink(caption: string, url: string): (n: Inline)
    ensures n.ActionLink? <==> Contains(url, DownloadPath)
    ensures n.Link? ==> n.caption == caption && n.url == url
    ensures !Contains(url, DownloadPath) ==> n == Link(caption, url)
    ensures n.ActionLink? ==> n.caption == caption && !Contains(n.reportId, DownloadPath)
    ensures n.ActionLink? ==> FollowsFirst(url, DownloadPath, n.reportId)
  {
    if Contains(url, DownloadPath) then
      var id := AfterFirst(url, DownloadPath);
      ActionLink(caption, id)
    else Link(caption, url)
  }

  /** The node emitted for a kept match. */
  function NodeOf(m: Match): (n: Inline)
    ensures !n.Text?
    ensures n.Bold? <==> m.capture.BoldCapture?
    ensures n.Bold? ==> n.value == m.capture.body
    ensures m.capture.LinkCapture? ==> (n.Link? || n.ActionLink?) && n.caption == m.capture.caption
  {
    match m.capture
    case LinkCapture(caption, url) => ClassifyLink(caption, url)
    case BoldCapture(body) => Bold(body)
  }

  /** What a node of the run stands for in the source text: a non-empty gap
      verbatim, a bold span around its body, or a link around its caption and url. */
  predicate Renders(n: Inline, source: string) {
    match n
    case Text(s) => s == source && s != []
    case Bold(b) => IsBoldSource(source, '*', b) || IsBoldSource(source, '_', b)
    case Link(caption, url) => IsLinkSource(source, caption, url) && !Contains(url, DownloadPath)
    case ActionLink(caption, id) =>
      && |source| >= |caption| + 4
      && var url := source[|caption| + 3..|source| - 1];
      && IsLinkSource(source, caption, url)
      && Contains(url, DownloadPath)
      && id == AfterFirst(url, DownloadPath)
  }

  /** The node of a genuine match renders the text the match covers. */
  lemma NodeOfRenders(text: string, m: Match)
    requires IsMatchIn(text, m)
    ensures m.End() <= |text|
    ensures Renders(NodeOf(m), text[m.index..m.End()])
  {
    match m.capture
    case LinkCapture(caption, url) =>
      LinkAtShape(text, m.index);
      var raw := text[m.index..m.End()];
      assert raw[|caption| + 3..|raw| - 1] == url;
    case BoldCapture(body) =>
      BoldAtShape(text, m.index);
  }

  /** One emitted node with the source text it stands for. */
  datatype Piece = Piece(node: Inline, source: string)

  function Nodes(ps: seq<Piece>): (ns: seq<Inline>)
    ensures |ns| == |ps|
  {
    if ps == [] then [] else [ps[0].node] + Nodes(ps[1..])
  }

  function Concat(ps: seq<Piece>): string {
    if ps == [] then "" else ps[0].source + Concat(ps[1..])
  }

  /** `kept` lie inside `text`, at or after `last`, in order and pairwise disjoint. */
  predicate InOrder(text: string, kept: seq<Match>, last: nat) {
    && last <= |text|
    && (forall i :: 0 <= i < |kept| ==> last <= kept[i].index && kept[i].End() <= |text|)
    && (forall i, j :: 0 <= i < j < |kept| ==> kept[i].End() <= kept[j].index)
  }

  /** Each of `kept` is the match its pattern finds at its index. */
  predicate AllMatchIn(text: string, kept: seq<Match>) {
    forall i :: 0 <= i < |kept| ==> IsMatchIn(text, kept[i])
  }

  lemma InOrderTail(text: string, kept: seq<Match>, last: nat)
    requires kept != [] && InOrder(text, kept, last)
    ensures kept[0].index <= kept[0].End() <= |text|
    ensures InOrder(text, kept[1..], kept[0].End())
  {
  }

  /** The emission walk with its cursor at `last`: a Text for each non-empty
      gap, the node of each kept match, a Text for a non-empty tail. */
  function Pieces(text: string, kept: seq<Match>, last: nat): (ps: seq<Piece>)
    requires InOrder(text, kept, last)
    decreases |kept|
  {
    if kept == [] then
      if last < |text| then [Piece(Text(text[last..]), text[last..])] else []
    else
      var m := kept[0];
      InOrderTail(text, kept, last);
      var tail := [Piece(NodeOf(m), text[m.index..m.End()])] + Pieces(text, kept[1..], m.End());
      if m.index > last then [Piece(Text(text[last..m.index]), text[last..m.index])] + tail else tail
  }

  /** Exact coverage: the gap pieces and the raw text of every kept match,
      concatenated in order, give back `text[last..]`. */
  lemma {:induction false} PiecesCoverText(text: string, kept: seq<Match>, last: nat)
    requires InOrder(text, kept, last)
    ensures Concat(Pieces(text, kept, last)) == text[last..]
    decreases |kept|
  {
    if kept != [] {
      var m := kept[0];
      InOrderTail(text, kept, last);
      PiecesCoverText(text, kept[1..], m.End());
      var head := Piece(NodeOf(m), text[m.index..m.End()]);
      ConcatCons(head, Pieces(text, kept[1..], m.End()));
      SuffixSplit(text, m.index, m.End());
      if m.index > last {
        ConcatCons(Piece(Text(text[last..m.index]), text[last..m.index]), [head] + Pieces(text, kept[1..], m.End()));
        SuffixSplit(text, last, m.index);
      }
    }
  }

  /** Concat on a piece put in front. */
  lemma ConcatCons(p: Piece, ps: seq<Piece>)
    ensures Concat([p] + ps) == p.source + Concat(ps)
  {
    assert ([p] + ps)[1..] == ps;
  }

  /** A suffix cut in two at `j`. */
  lemma SuffixSplit(s: string, i: nat, j: nat)
    requires i <= j <= |s|
    ensures s[i..] == s[i..j] + s[j..]
  {
  }

  /** Every piece renders its source text. */
  predicate AllRender(ps: seq<Piece>) {
    ps == [] || (Renders(ps[0].node, ps[0].source) && AllRender(ps[1..]))
  }

  /** Every piece of the walk renders its source text; in particular no Text
      piece is empty. */
  lemma {:induction false} PiecesRender(text: string, kept: seq<Match>, last: nat)
    requires InOrder(text, kept, last) && AllMatchIn(text, kept)
    ensures AllRender(Pieces(text, kept, last))
    decreases |kept|
  {
    if kept != [] {
      var m := kept[0];
      InOrderTail(text, kept, last);
      assert forall i :: 0 <= i < |kept| - 1 ==> kept[1..][i] == kept[i + 1];
      PiecesRender(text, kept[1..], m.End());
      NodeOfRenders(text, m);
      var tail := [Piece(NodeOf(m), text[m.index..m.End()])] + Pieces(text, kept[1..], m.End());
      assert AllRender(tail);
    }
  }

  /** The matches processText keeps for `text`: both scans, sorted by start
      index, filtered for overlaps. */
  function KeptMatches(text: string): (kept: seq<Match>)
    ensures InOrder(text, kept, 0)
  {
    var sorted := SortByIndex(Scan(LinkPattern, text, 0) + Scan(BoldPattern, text, 0));
    KeptAreCandidates(sorted, 0);
    SortedAreMatches(text);
    KeepFrom(sorted, 0)
  }

  /** Every element of the sorted candidate list is a genuine match in `text`. */
  lemma SortedAreMatches(text: string)
    ensures var sorted := SortByIndex(Scan(LinkPattern, text, 0) + Scan(BoldPattern, text, 0));
      forall x :: x in sorted ==> IsMatchIn(text, x) && x.End() <= |text|
  {
    var links, bolds := Scan(LinkPattern, text, 0), Scan(BoldPattern, text, 0);
    var sorted := SortByIndex(links + bolds);
    forall x | x in sorted ensures IsMatchIn(text, x) && x.End() <= |text| {
      assert x in multiset(links + bolds);
      assert x in links + bolds;
      if x in links {
        ScannedIsMatch(LinkPattern, text, links, x);
      } else {
        ScannedIsMatch(BoldPattern, text, bolds, x);
      }
    }
  }

  /** An element of a scan is a genuine match in `text`. */
  lemma ScannedIsMatch(pat: Pattern, text: string, ms: seq<Match>, x: Match)
    requires ms == Scan(pat, text, 0) && x in ms
    ensures IsMatchIn(text, x) && x.End() <= |text|
  {
    var i :| 0 <= i < |ms| && ms[i] == x;
    assert MatchAt(pat, text, x.index) == Some(x);
  }

  /** Every kept match is a genuine match in `text`. */
  lemma KeptMatchesAreMatches(text: string)
    ensures AllMatchIn(text, KeptMatches(text))
  {
    var sorted := SortByIndex(Scan(LinkPattern, text, 0) + Scan(BoldPattern, text, 0));
    KeptAreCandidates(sorted, 0);
    SortedAreMatches(text);
  }

  /** processText as a function of its argument: no children for the empty
      string, else the nodes of the emission walk. */
  function InlineRun(text: string): seq<Inline> {
    if text == [] then [] else Nodes(Pieces(text, KeptMatches(text), 0))
  }

  /** One step of the emission walk, seen through Nodes: the nodes emitted so
      far, then the gap and the node of the next kept match, then the rest. */
  lemma EmitStep(text: string, rest: seq<Match>, last: nat, parts: seq<Inline>, whole: seq<Inline>)
    requires rest != [] && InOrder(text, rest, last)
    requires parts + Nodes(Pieces(text, rest, last)) == whole
    ensures InOrder(text, rest[1..], rest[0].End())
    ensures var m := rest[0];
      var gap := if m.index > last then [Text(text[last..m.index])] else [];
      (parts + gap + [NodeOf(m)]) + Nodes(Pieces(text, rest[1..], m.End())) == whole
  {
    InOrderTail(text, rest, last);
  }

  /** The body of the emission forEach for one kept match: the gap before
      it when there is one, then its node. */
  method EmitMatch(text: string, m: Match, lastIndex: nat, parts: seq<Inline>) returns (parts': seq<Inline>)
    requires lastIndex <= m.index <= m.End() <= |text|
    ensures parts' == parts + (if m.index > lastIndex then [Text(text[lastIndex..m.index])] else []) + [NodeOf(m)]
  {
    parts' := parts;
    if m.index > lastIndex {
      parts' := parts' + [Text(text[lastIndex..m.index])];
    } else {
      assert parts + [] == parts;
    }
    match m.capture {
      case LinkCapture(caption, url) =>
        parts' := parts' + [ClassifyLink(caption, url)];
      case BoldCapture(body) =>
        parts' := parts' + [Bold(body)];
    }
  }

  /** The emission loop of processText. */
  method EmitParts(text: string, filtered: seq<Match>) returns (parts: seq<Inline>)
    requires InOrder(text, filtered, 0)
    ensures parts == Nodes(Pieces(text, filtered, 0))
  {
    parts := [];
    var lastIndex: nat := 0;
    for idx := 0 to |filtered|
      invariant InOrder(text, filtered[idx..], lastIndex)
      invariant parts + Nodes(Pieces(text, filtered[idx..], lastIndex)) == Nodes(Pieces(text, filtered, 0))
    {
      var m := filtered[idx];
      EmitStep(text, filtered[idx..], lastIndex, parts, Nodes(Pieces(text, filtered, 0)));
      assert filtered[idx..][1..] == filtered[idx + 1..];
      parts := EmitMatch(text, m, lastIndex, parts);
      lastIndex := m.End();
    }
    assert filtered[|filtered|..] == [];
    if lastIndex < |text| {
      parts := parts + [Text(text[lastIndex..])];
    }
  }

  /** processText: empty text renders as nothing (`null`); any other text
      yields a non-empty run, so the `: text` fallback is never taken. */
  method ProcessText(text: string) returns (parts: seq<Inline>)
    ensures parts == InlineRun(text)
    ensures text != [] ==> parts != []
  {
    if text == [] {
      return [];
    }
    var linkMatches := CollectMatches(LinkPattern, text);
    var boldMatches := CollectMatches(BoldPattern, text);
    var allMatches := SortByIndex(linkMatches + boldMatches);
    var filteredMatches := FilterOverlaps(allMatches);
    assert filteredMatches == KeptMatches(text);
    parts := EmitParts(text, filteredMatches);
    InlineRunNonEmpty(text);
  }

  /** Non-empty text always yields at least one node. */
  lemma InlineRunNonEmpty(text: string)
    ensures text != [] ==> InlineRun(text) != []
  {
    if text != [] {
      PiecesCoverText(text, KeptMatches(text), 0);
    }
  }

  /** Read back: the run of `text` comes from consecutive pieces that spell out
      `text` exactly, each rendered faithfully by its node. */
  lemma InlineRunReadsBack(text: string)
    ensures var ps := Pieces(text, KeptMatches(text), 0);
      && Nodes(ps) == InlineRun(text)
      && Concat(ps) == text
      && AllRender(ps)
  {
    var kept := KeptMatches(text);
    PiecesCoverText(text, kept, 0);
    KeptMatchesAreMatches(text);
    PiecesRender(text, kept, 0);
    if text == [] {
      NoMarkerNoScan(LinkPattern, text, 0);
      NoMarkerNoScan(BoldPattern, text, 0);
    }
  }

  /** A scan finds nothing in a stretch of text without `[`, `*` or `_`. */
  lemma NoMarkerNoScan(pat: Pattern, text: string, from: nat)
    requires from <= |text|
    requires forall i :: from <= i < |text| ==> text[i] != '[' && text[i] != '*' && text[i] != '_'
    ensures Scan(pat, text, from) == []
  {
  }

  /** Text without any `[`, `*` or `_` renders as itself: one Text node, or
      nothing at all when it is empty. */
  lemma PlainTextIsOneText(text: string)
    requires forall i :: 0 <= i < |text| ==> text[i] != '[' && text[i] != '*' && text[i] != '_'
    ensures InlineRun(text) == if text == [] then [] else [Text(text)]
  {
    NoMarkerNoScan(LinkPattern, text, 0);
    NoMarkerNoScan(BoldPattern, text, 0);
  }
}

/** The block pass of the report renderer `renderMessageContent`: the content
    is split into lines, every trimmed line is classified (header, list item,
    rule, paragraph or blank) and a pending list buffer is flushed into one
    List block before any other kind of line and once more at the end. */
module MessageContent {
  import opened JsString
  import opened InlineText

  datatype Block =
    | Header(level: nat, inline: seq<Inline>)
    | List(items: seq<seq<Inline>>)
    | Rule
    | Paragraph(inline: seq<Inline>)
    | LineBreak

  /** The renderer accepts any value: a string is rendered, anything else is
      handed back as it is. */
  datatype Content<V> = Str(s: string) | NotString(value: V)

  datatype Rendered<V> = Elements(blocks: seq<Block>) | Unchanged(content: Content<V>)

  // ---------------------------------------------------------------------------
  // Header lines: `^#{1,6}\s+` and `^(#{1,6})\s+(.+)$`
  // ---------------------------------------------------------------------------

  /** `#{1,6}\s` matches at the start of `t` taking `k` hashes. */
  predicate HeaderPrefixAt(t: string, k: int) {
    1 <= k <= 6 && k < |t| && (forall j :: 0 <= j < k ==> t[j] == '#') && IsSpace(t[k])
  }

  /** `^#{1,6}\s+` matches `t`, decided on the run of leading hashes. */
  predicate IsHeaderLine(t: string) {
    var h := RunEnd(t, '#', 0);
    1 <= h <= 6 && h < |t| && IsSpace(t[h])
  }

  /** The test on the run of leading hashes is the regular expression's own
      meaning, backtracking included. */
  lemma IsHeaderLineIff(t: string)
    ensures IsHeaderLine(t) <==> exists k :: HeaderPrefixAt(t, k)
  {
    var h := RunEnd(t, '#', 0);
    if IsHeaderLine(t) {
      assert HeaderPrefixAt(t, h);
    }
    if exists k :: HeaderPrefixAt(t, k) {
      var k :| HeaderPrefixAt(t, k);
      assert k == h;
    }
  }

  /** A line that starts with seven or more hashes is not a header. */
  lemma SevenHashesAreNoHeader(t: string)
    requires |t| >= 7 && forall j :: 0 <= j < 7 ==> t[j] == '#'
    ensures !IsHeaderLine(t)
    ensures !exists k :: HeaderPrefixAt(t, k)
  {
    IsHeaderLineIff(t);
  }

  datatype HeaderParts = HeaderParts(level: nat, text: string)

  /** `^(#{1,6})\s+(.+)$` on a trimmed header line: the level is the number of
      leading hashes, the text is what follows the white space, trimmed. The
      match fails exactly when that text holds a line terminator, which `.`
      does not match. */
  function HeaderMatch(t: string): (r: Option<HeaderParts>)
    requires IsHeaderLine(t) && !IsSpace(t[|t| - 1])
    ensures r.Some? ==> 1 <= r.value.level <= 6 && r.value.level == RunEnd(t, '#', 0)
    ensures r.Some? ==>
      var x := r.value.text;
      && x != [] && |x| < |t| && t[|t| - |x|..] == x
      && !IsSpace(x[0]) && !IsSpace(x[|x| - 1])
      && (forall j :: 0 <= j < |x| ==> !IsLineTerminator(x[j]))
      && r.value.level < |t| - |x|
      && (forall j :: r.value.level <= j < |t| - |x| ==> IsSpace(t[j]))
    ensures r.None? <==>
      exists j :: SpaceEnd(t, RunEnd(t, '#', 0)) <= j < |t| && IsLineTerminator(t[j])
  {
    var h := RunEnd(t, '#', 0);
    var j := SpaceEnd(t, h);
    var x := t[j..];
    if forall k :: 0 <= k < |x| ==> !IsLineTerminator(x[k]) then
      TrimKeepsUnpadded(x);
      Some(HeaderParts(if h < 6 then h else 6, Trim(x)))
    else
      None
  }

  /** The header text is exactly what follows the hashes and the white space
      after them: the second capture of `^(#{1,6})\s+(.+)$`. */
  lemma HeaderTextFollowsHashes(t: string)
    requires IsHeaderLine(t) && !IsSpace(t[|t| - 1]) && HeaderMatch(t).Some?
    ensures var hp := HeaderMatch(t).value;
      hp.level <= |t| && hp.text == t[SpaceEnd(t, hp.level)..]
  {
    var hp := HeaderMatch(t).value;
    SpaceEndAt(t, hp.level, |t| - |hp.text|);
  }

  /** Trimming a string that neither starts nor ends with white space changes nothing. */
  lemma TrimKeepsUnpadded(x: string)
    requires x != [] && !IsSpace(x[0]) && !IsSpace(x[|x| - 1])
    ensures Trim(x) == x
  {
    assert SpaceEnd(x, 0) == 0;
  }

  // ---------------------------------------------------------------------------
  // List items: `^[-*]\s+` or `^\d+\.\s+`, and the marker stripping
  // ---------------------------------------------------------------------------

  predicate IsBulletStart(t: string) {
    |t| >= 2 && (t[0] == '-' || t[0] == '*') && IsSpace(t[1])
  }

  predicate IsNumberStart(t: string) {
    var d := DigitEnd(t, 0);
    d >= 1 && d + 1 < |t| && t[d] == '.' && IsSpace(t[d + 1])
  }

  /** `^\d+\.\s` matches at the start of `t` taking `d` digits. */
  predicate NumberPrefixAt(t: string, d: int) {
    1 <= d && d + 1 < |t| && (forall j :: 0 <= j < d ==> IsDigit(t[j])) && t[d] == '.' && IsSpace(t[d + 1])
  }

  /** The test on the run of leading digits is the regular expression's own
      meaning: `\d+` cannot stop early, since `.` is no digit. */
  lemma IsNumberStartIff(t: string)
    ensures IsNumberStart(t) <==> exists d :: NumberPrefixAt(t, d)
  {
    if IsNumberStart(t) {
      assert NumberPrefixAt(t, DigitEnd(t, 0));
    }
    if exists d :: NumberPrefixAt(t, d) {
      var d :| NumberPrefixAt(t, d);
      DigitEndAt(t, 0, d);
    }
  }

  predicate IsListItemLine(t: string) {
    IsBulletStart(t) || IsNumberStart(t)
  }

  /** `replace(/^[-*]\s+/, '')`: a bullet and all the white space after it go. */
  function StripBullet(t: string): (u: string)
    ensures |u| <= |t| && t[|t| - |u|..] == u
    ensures IsBulletStart(t) ==>
      (|u| < |t| && (forall j :: 1 <= j < |t| - |u| ==> IsSpace(t[j])) && (u != [] ==> !IsSpace(u[0])))
    ensures !IsBulletStart(t) ==> u == t
  {
    if IsBulletStart(t) then t[SpaceEnd(t, 1)..] else t
  }

  /** `replace(/^\d+\.\s+/, '')`: a number, its dot and all the white space
      after it go. */
  function StripNumber(u: string): (v: string)
    ensures |v| <= |u| && u[|u| - |v|..] == v
    ensures IsNumberStart(u) ==> |v| < |u| && (v != [] ==> !IsSpace(v[0]))
    ensures IsNumberStart(u) ==>
      var d := DigitEnd(u, 0);
      && d + 2 <= |u| - |v|
      && (forall j :: 0 <= j < d ==> IsDigit(u[j])) && u[d] == '.'
      && (forall j :: d + 1 <= j < |u| - |v| ==> IsSpace(u[j]))
    ensures !IsNumberStart(u) ==> v == u
  {
    if IsNumberStart(u) then u[SpaceEnd(u, DigitEnd(u, 0) + 1)..] else u
  }

  /** The text of a list item: the bullet is stripped, then a number marker. */
  function ListText(t: string): string {
    StripNumber(StripBullet(t))
  }

  /** Marker stripping undoes a bullet followed by white space. */
  lemma StripBulletUndoesBullet(b: char, sp: string, x: string)
    requires b == '-' || b == '*'
    requires sp != [] && forall j :: 0 <= j < |sp| ==> IsSpace(sp[j])
    requires x != [] && !IsSpace(x[0])
    ensures StripBullet([b] + sp + x) == x
  {
    var t := [b] + sp + x;
    assert t[1] == sp[0];
    SpaceEndAt(t, 1, 1 + |sp|);
    assert t[1 + |sp|..] == x;
  }

  /** Marker stripping undoes a number, a dot and white space. */
  lemma StripNumberUndoesNumber(ds: string, sp: string, x: string)
    requires ds != [] && forall j :: 0 <= j < |ds| ==> IsDigit(ds[j])
    requires sp != [] && forall j :: 0 <= j < |sp| ==> IsSpace(sp[j])
    requires x != [] && !IsSpace(x[0])
    ensures StripNumber(ds + ['.'] + sp + x) == x
  {
    var u := ds + ['.'] + sp + x;
    var d := |ds|;
    assert u[d] == '.';
    DigitEndAt(u, 0, d);
    assert u[d + 1] == sp[0];
    SpaceEndAt(u, d + 1, d + 1 + |sp|);
    assert u[d + 1 + |sp|..] == x;
  }

  /** A bullet line whose text starts with a number marker loses both markers. */
  lemma ListTextStripsBothMarkers(b: char, sp: string, ds: string, sp2: string, x: string)
    requires b == '-' || b == '*'
    requires sp != [] && forall j :: 0 <= j < |sp| ==> IsSpace(sp[j])
    requires ds != [] && forall j :: 0 <= j < |ds| ==> IsDigit(ds[j])
    requires sp2 != [] && forall j :: 0 <= j < |sp2| ==> IsSpace(sp2[j])
    requires x != [] && !IsSpace(x[0])
    ensures ListText([b] + sp + (ds + ['.'] + sp2 + x)) == x
  {
    var rest := ds + ['.'] + sp2 + x;
    assert rest[0] == ds[0];
    StripBulletUndoesBullet(b, sp, rest);
    StripNumberUndoesNumber(ds, sp2, x);
  }

  lemma SpaceEndAt(s: string, from: nat, k: nat)
    requires from <= k <= |s|
    requires forall j :: from <= j < k ==> IsSpace(s[j])
    requires k < |s| ==> !IsSpace(s[k])
    ensures SpaceEnd(s, from) == k
    decreases k - from
  {
    if from < k {
      SpaceEndAt(s, from + 1, k);
    }
  }

  lemma DigitEndAt(s: string, from: nat, k: nat)
    requires from <= k <= |s|
    requires forall j :: from <= j < k ==> IsDigit(s[j])
    requires k < |s| ==> !IsDigit(s[k])
    ensures DigitEnd(s, from) == k
    decreases k - from
  {
    if from < k {
      DigitEndAt(s, from + 1, k);
    }
  }

  // ---------------------------------------------------------------------------
  // Rules: `^---+$`
  // ---------------------------------------------------------------------------

  predicate IsRuleLine(t: string) {
    |t| >= 3 && forall j :: 0 <= j < |t| ==> t[j] == '-'
  }

  /** No trimmed line is both a list item and a rule: a list item has white
      space or a digit where a rule has only hyphens. So the order of the two
      tests in the loop decides nothing. */
  lemma ListItemIsNoRule(t: string)
    ensures IsListItemLine(t) ==> !IsRuleLine(t)
  {
    if IsBulletStart(t) {
      assert IsSpace(t[1]);
    } else if IsNumberStart(t) {
      assert IsDigit(t[0]);
    }
  }

  /** `- - -` is a list item with text `- -`, and no rule: `^---+$` wants the
      hyphens adjacent. */
  lemma SpacedDashesAreAListItem()
    ensures IsListItemLine("- - -") && !IsRuleLine("- - -")
    ensures ListText("- - -") == "- -"
  {
    var t := "- - -";
    assert !IsSpace(t[2]);
    SpaceEndAt(t, 1, 2);
    assert DigitEnd("- -", 0) == 0;
  }

  // ---------------------------------------------------------------------------
  // What each line contributes, before any inline rendering
  // ---------------------------------------------------------------------------

  /** A block whose texts have not yet been through processText. */
  datatype RawBlock =
    | RawHeader(level: nat, text: string)
    | RawList(items: seq<string>)
    | RawRule
    | RawParagraph(text: string)
    | RawBreak

  /** How the line loop treats one line: it pushes a list item, or it flushes
      the pending list and then contributes blocks of its own. */
  datatype LineKind = ItemLine(text: string) | OtherLine(blocks: seq<RawBlock>)

  /** A trimmed line pushes a list item: it is not a header, and it is a list item. */
  predicate PushesItem(t: string) {
    !IsHeaderLine(t) && IsListItemLine(t)
  }

  /** A header line adds a header, or nothing when the full pattern fails. */
  function HeaderBlocks(t: string): seq<RawBlock>
    requires IsHeaderLine(t) && !IsSpace(t[|t| - 1])
  {
    match HeaderMatch(t)
    case Some(hp) => [RawHeader(hp.level, hp.text)]
    case None => []
  }

  /** Any other line adds a paragraph, or for a blank line a line break when
      the line before is not blank. */
  function ParagraphBlocks(t: string, afterText: bool): seq<RawBlock> {
    if t != [] then [RawParagraph(t)]
    else if afterText then [RawBreak]
    else []
  }

  /** The blocks a trimmed line `t` adds after the flush when it does not
      push a list item: a header (nothing if the full header pattern fails),
      a rule, a paragraph of the trimmed line, a line break for a blank line
      right after a non-blank one (`afterText`), or nothing. */
  function OwnBlocks(t: string, afterText: bool): seq<RawBlock>
    requires t != [] ==> !IsSpace(t[|t| - 1])
  {
    if IsHeaderLine(t) then HeaderBlocks(t)
    else if IsRuleLine(t) then [RawRule]
    else ParagraphBlocks(t, afterText)
  }

  /** A line adds at most one block of its own, never a List; a header line
      adds only a header, of level 1 to 6; a blank line adds only a line break,
      and only right after a non-blank line. */
  lemma OwnBlocksShape(t: string, afterText: bool)
    requires t != [] ==> !IsSpace(t[|t| - 1])
    ensures var bs := OwnBlocks(t, afterText);
      && |bs| <= 1
      && (forall j :: 0 <= j < |bs| ==> !bs[j].RawList?)
      && (IsHeaderLine(t) ==> forall j :: 0 <= j < |bs| ==> bs[j].RawHeader? && 1 <= bs[j].level <= 6)
      && (t == [] ==> bs == if afterText then [RawBreak] else [])
      && (!IsHeaderLine(t) && IsRuleLine(t) ==> bs == [RawRule])
      && (t != [] && !IsHeaderLine(t) && !IsRuleLine(t) ==> bs == [RawParagraph(t)])
  {
  }

  /** How the loop treats a trimmed line `t`. */
  function LineKindOf(t: string, afterText: bool): LineKind
    requires t != [] ==> !IsSpace(t[|t| - 1])
  {
    if PushesItem(t) then ItemLine(ListText(t)) else OtherLine(OwnBlocks(t, afterText))
  }

  /** How the loop treats line `i`: `afterText` says whether the line before
      it is non-blank once trimmed. */
  function KindOf(lines: seq<string>, i: nat): LineKind
    requires i < |lines|
  {
    LineKindOf(Trim(lines[i]), i > 0 && Trim(lines[i - 1]) != [])
  }

  function Kinds(lines: seq<string>): seq<LineKind> {
    seq(|lines|, i requires 0 <= i < |lines| => KindOf(lines, i))
  }

  // ---------------------------------------------------------------------------
  // The line loop as a state machine
  // ---------------------------------------------------------------------------

  /** The three variables the line loop updates. */
  datatype ParseState = ParseState(elements: seq<RawBlock>, listItems: seq<string>, inList: bool)

  /** The flush: a pending non-empty list becomes one List block and the
      buffer is emptied; otherwise nothing changes. */
  function Flushed(st: ParseState): (r: ParseState)
    ensures st.inList && |st.listItems| > 0 ==>
      r.elements == st.elements + [RawList(st.listItems)] && r.listItems == [] && !r.inList
    ensures !(st.inList && |st.listItems| > 0) ==> r == st
  {
    if st.inList && |st.listItems| > 0 then
      ParseState(st.elements + [RawList(st.listItems)], [], false)
    else st
  }

  /** One turn of the line loop. */
  function Step(k: LineKind, st: ParseState): (r: ParseState)
    ensures st.elements <= r.elements
    ensures k.ItemLine? ==> r.elements == st.elements && r.listItems == st.listItems + [k.text] && r.inList
    ensures k.OtherLine? ==> r.elements == Flushed(st).elements + k.blocks && !(r.inList && |r.listItems| > 0)
  {
    match k
    case ItemLine(x) => st.(listItems := st.listItems + [x], inList := true)
    case OtherLine(bs) =>
      var f := Flushed(st);
      f.(elements := f.elements + bs)
  }

  /** The line loop from line `i` with state `st`, then the final flush. */
  function Drive(ks: seq<LineKind>, i: nat, st: ParseState): (r: seq<RawBlock>)
    requires i <= |ks|
    ensures st.elements <= r
    decreases |ks| - i
  {
    if i == |ks| then Flushed(st).elements else Drive(ks, i + 1, Step(ks[i], st))
  }

  /** The blocks of a string before inline rendering: the line loop over
      `split('\n')` from the empty state. */
  function RawBlocks(s: string): seq<RawBlock> {
    Drive(Kinds(Split(s, '\n')), 0, ParseState([], [], false))
  }

  /** The inline runs of a list's items, in order. */
  function Runs(texts: seq<string>): seq<seq<Inline>> {
    seq(|texts|, k requires 0 <= k < |texts| => InlineRun(texts[k]))
  }

  /** Each text of a block goes through processText. */
  function RenderBlock(b: RawBlock): Block {
    match b
    case RawHeader(level, text) => Header(level, InlineRun(text))
    case RawList(items) => List(Runs(items))
    case RawRule => Rule
    case RawParagraph(text) => Paragraph(InlineRun(text))
    case RawBreak => LineBreak
  }

  function RenderAll(bs: seq<RawBlock>): seq<Block> {
    seq(|bs|, i requires 0 <= i < |bs| => RenderBlock(bs[i]))
  }

  lemma RenderAllAppend(bs: seq<RawBlock>, b: RawBlock)
    ensures RenderAll(bs + [b]) == RenderAll(bs) + [RenderBlock(b)]
    ensures b.RawParagraph? ==> RenderBlock(b) == Paragraph(InlineRun(b.text))
  {
  }

  lemma RenderAllConcat(a: seq<RawBlock>, b: seq<RawBlock>)
    ensures RenderAll(a + b) == RenderAll(a) + RenderAll(b)
  {
  }

  /** The blocks of a string. */
  function Blocks(s: string): seq<Block> {
    RenderAll(RawBlocks(s))
  }

  /** renderMessageContent as a function of its argument: anything but a
      string, and a string that yields no block, come back unchanged. */
  function Render<V>(content: Content<V>): (r: Rendered<V>)
    ensures r.Unchanged? <==> content.NotString? || Blocks(content.s) == []
    ensures r.Unchanged? ==> r.content == content
    ensures r.Elements? ==> content.Str? && r.blocks == Blocks(content.s)
  {
    match content
    case NotString(_) => Unchanged(content)
    case Str(s) =>
      var blocks := Blocks(s);
      if |blocks| > 0 then Elements(blocks) else Unchanged(content)
  }

  /** The flag `inList` is true exactly when the buffer holds items, before
      and after every turn of the loop. */
  lemma StepKeepsListFlag(k: LineKind, st: ParseState)
    requires st.inList == (|st.listItems| > 0)
    ensures var r := Step(k, st); r.inList == (|r.listItems| > 0)
  {
  }

  // ---------------------------------------------------------------------------
  // An independent description: maximal runs of list lines
  // ---------------------------------------------------------------------------

  /** End of the run of item lines that starts at `i`. */
  function ListRunEnd(ks: seq<LineKind>, i: nat): (e: nat)
    requires i <= |ks|
    ensures i <= e <= |ks|
    ensures forall j :: i <= j < e ==> ks[j].ItemLine?
    ensures e < |ks| ==> !ks[e].ItemLine?
    decreases |ks| - i
  {
    if i == |ks| || !ks[i].ItemLine? then i else ListRunEnd(ks, i + 1)
  }

  /** The texts of the item lines among lines `i` to `e`, in order. */
  function ItemTexts(ks: seq<LineKind>, i: nat, e: nat): seq<string>
    requires i <= e <= |ks|
    decreases e - i
  {
    if i == e then []
    else (if ks[i].ItemLine? then [ks[i].text] else []) + ItemTexts(ks, i + 1, e)
  }

  lemma {:induction false} ItemTextsSplit(ks: seq<LineKind>, i: nat, m: nat, e: nat)
    requires i <= m <= e <= |ks|
    ensures ItemTexts(ks, i, e) == ItemTexts(ks, i, m) + ItemTexts(ks, m, e)
    decreases m - i
  {
    if i < m {
      ItemTextsSplit(ks, i + 1, m, e);
    }
  }

  /** The blocks as a reader describes them: each maximal run of list lines
      is one List holding its items in order; every other line contributes
      its own blocks. */
  function Grouped(ks: seq<LineKind>, i: nat): seq<RawBlock>
    requires i <= |ks|
    decreases |ks| - i
  {
    if i == |ks| then []
    else match ks[i]
      case ItemLine(_) =>
        var e := ListRunEnd(ks, i);
        [RawList(ItemTexts(ks, i, e))] + Grouped(ks, e)
      case OtherLine(bs) => bs + Grouped(ks, i + 1)
  }

  /** What is still to come from line `i` while `pending` items are
      buffered: they head the List of the run that starts at `i`. */
  function Pending(ks: seq<LineKind>, i: nat, pending: seq<string>): seq<RawBlock>
    requires i <= |ks|
  {
    if pending == [] then Grouped(ks, i)
    else
      var e := ListRunEnd(ks, i);
      [RawList(pending + ItemTexts(ks, i, e))] + Grouped(ks, e)
  }

  /** An item line joins the pending items. */
  lemma PendingItemStep(ks: seq<LineKind>, i: nat, pending: seq<string>, x: string)
    requires i < |ks| && ks[i] == ItemLine(x)
    ensures Pending(ks, i + 1, pending + [x]) == Pending(ks, i, pending)
  {
    var e := ListRunEnd(ks, i);
    assert ListRunEnd(ks, i + 1) == e;
    assert ItemTexts(ks, i, e) == [x] + ItemTexts(ks, i + 1, e);
    assert (pending + [x]) + ItemTexts(ks, i + 1, e) == pending + ItemTexts(ks, i, e);
    if pending == [] {
      assert [] + ItemTexts(ks, i, e) == ItemTexts(ks, i, e);
    }
  }

  /** Any other line closes the pending items into a List, then adds its own blocks. */
  lemma PendingOtherStep(ks: seq<LineKind>, i: nat, pending: seq<string>, bs: seq<RawBlock>)
    requires i < |ks| && ks[i] == OtherLine(bs)
    ensures (if pending == [] then [] else [RawList(pending)]) + bs + Grouped(ks, i + 1)
         == Pending(ks, i, pending)
  {
    assert Grouped(ks, i) == bs + Grouped(ks, i + 1);
    if pending == [] {
      assert [] + bs == bs;
    } else {
      assert ListRunEnd(ks, i) == i;
      assert ItemTexts(ks, i, i) == [];
      assert pending + [] == pending;
      assert [RawList(pending)] + bs + Grouped(ks, i + 1) == [RawList(pending)] + Grouped(ks, i);
    }
  }

  /** The state machine and the description by runs agree, from any line and
      any buffer that respects the flag invariant. */
  lemma {:induction false} DriveIsGrouped(ks: seq<LineKind>, i: nat, elements: seq<RawBlock>, pending: seq<string>)
    requires i <= |ks|
    ensures Drive(ks, i, ParseState(elements, pending, |pending| > 0)) == elements + Pending(ks, i, pending)
    decreases |ks| - i
  {
    if i == |ks| {
      assert pending + [] == pending;
    } else {
      match ks[i]
      case ItemLine(x) =>
        DriveIsGrouped(ks, i + 1, elements, pending + [x]);
        DriveItemStep(ks, i, elements, pending, x);
      case OtherLine(bs) =>
        var closed := if pending == [] then [] else [RawList(pending)];
        DriveIsGrouped(ks, i + 1, elements + closed + bs, []);
        DriveOtherStep(ks, i, elements, pending, bs);
    }
  }

  /** DriveIsGrouped at an item line, from its instance at the next line. */
  lemma DriveItemStep(ks: seq<LineKind>, i: nat, elements: seq<RawBlock>, pending: seq<string>, x: string)
    requires i < |ks| && ks[i] == ItemLine(x)
    requires Drive(ks, i + 1, ParseState(elements, pending + [x], true)) == elements + Pending(ks, i + 1, pending + [x])
    ensures Drive(ks, i, ParseState(elements, pending, |pending| > 0)) == elements + Pending(ks, i, pending)
  {
    var st := ParseState(elements, pending, |pending| > 0);
    assert Drive(ks, i, st) == Drive(ks, i + 1, ParseState(elements, pending + [x], true)) by {
      assert Step(ks[i], st) == ParseState(elements, pending + [x], true);
    }
    PendingItemStep(ks, i, pending, x);
  }

  /** DriveIsGrouped at any other line, from its instance at the next line. */
  lemma DriveOtherStep(ks: seq<LineKind>, i: nat, elements: seq<RawBlock>, pending: seq<string>, bs: seq<RawBlock>)
    requires i < |ks| && ks[i] == OtherLine(bs)
    requires var closed := if pending == [] then [] else [RawList(pending)];
      Drive(ks, i + 1, ParseState(elements + closed + bs, [], false)) == (elements + closed + bs) + Pending(ks, i + 1, [])
    ensures Drive(ks, i, ParseState(elements, pending, |pending| > 0)) == elements + Pending(ks, i, pending)
  {
    var st := ParseState(elements, pending, |pending| > 0);
    var closed := if pending == [] then [] else [RawList(pending)];
    var next := ParseState(elements + closed + bs, [], false);
    assert Drive(ks, i, st) == Drive(ks, i + 1, next) by {
      assert Step(ks[i], st) == next;
    }
    assert closed + bs + Grouped(ks, i + 1) == Pending(ks, i, pending) by {
      PendingOtherStep(ks, i, pending, bs);
    }
    Regroup(elements, closed, bs, Grouped(ks, i + 1));
  }

  /** Concatenation regrouped. */
  lemma Regroup<T>(a: seq<T>, b: seq<T>, c: seq<T>, d: seq<T>)
    ensures a + b + c + d == a + (b + c + d)
  {
  }

  /** The blocks of a string are its lines described by runs. */
  lemma RawBlocksAreGrouped(s: string)
    ensures var ks := Kinds(Split(s, '\n')); RawBlocks(s) == Grouped(ks, 0)
  {
    DriveIsGrouped(Kinds(Split(s, '\n')), 0, [], []);
  }

  // ---------------------------------------------------------------------------
  // Every list line ends up in exactly one List, in input order
  // ---------------------------------------------------------------------------

  /** The items of all List blocks, one after the other. */
  function ListItemsOf(bs: seq<RawBlock>): seq<string> {
    if bs == [] then []
    else (if bs[0].RawList? then bs[0].items else []) + ListItemsOf(bs[1..])
  }

  /** Only item lines feed lists: no other line contributes a List. */
  predicate WellKinded(ks: seq<LineKind>) {
    forall i :: 0 <= i < |ks| && ks[i].OtherLine? ==> ListItemsOf(ks[i].blocks) == []
  }

  lemma {:induction false} ListItemsOfAppend(a: seq<RawBlock>, b: seq<RawBlock>)
    ensures ListItemsOf(a + b) == ListItemsOf(a) + ListItemsOf(b)
    decreases |a|
  {
    if a != [] {
      var head := if a[0].RawList? then a[0].items else [];
      assert (a + b)[0] == a[0];
      assert (a + b)[1..] == a[1..] + b;
      assert ListItemsOf(a + b) == head + ListItemsOf(a[1..] + b);
      ListItemsOfAppend(a[1..], b);
    } else {
      assert a + b == b;
    }
  }

  /** Reading off the List blocks gives the texts of the item lines, each
      exactly once and in input order. */
  lemma {:induction false} GroupedListItems(ks: seq<LineKind>, i: nat)
    requires i <= |ks| && WellKinded(ks)
    ensures ListItemsOf(Grouped(ks, i)) == ItemTexts(ks, i, |ks|)
    decreases |ks| - i
  {
    if i < |ks| {
      match ks[i]
      case ItemLine(_) =>
        var e := ListRunEnd(ks, i);
        GroupedListItems(ks, e);
        var head := [RawList(ItemTexts(ks, i, e))];
        ListItemsOfAppend(head, Grouped(ks, e));
        assert ListItemsOf(head) == ItemTexts(ks, i, e) + [] by {
          assert head[1..] == [];
        }
        ItemTextsSplit(ks, i, e, |ks|);
      case OtherLine(bs) =>
        GroupedListItems(ks, i + 1);
        ListItemsOfAppend(bs, Grouped(ks, i + 1));
    }
  }

  /** The blocks a line contributes after a flush are never Lists. */
  lemma KindsAreWellKinded(lines: seq<string>)
    ensures WellKinded(Kinds(lines))
  {
    forall i | 0 <= i < |lines| && Kinds(lines)[i].OtherLine?
      ensures ListItemsOf(Kinds(lines)[i].blocks) == []
    {
      var t := Trim(lines[i]);
      var bs := OwnBlocks(t, i > 0 && Trim(lines[i - 1]) != []);
      OwnBlocksShape(t, i > 0 && Trim(lines[i - 1]) != []);
      if bs != [] {
        assert bs[1..] == [];
      }
    }
  }

  /** The list items of a rendered string are the texts of its list lines,
      each once and in input order. */
  lemma RawBlocksListItems(s: string)
    ensures var ks := Kinds(Split(s, '\n')); ListItemsOf(RawBlocks(s)) == ItemTexts(ks, 0, |ks|)
  {
    var ks := Kinds(Split(s, '\n'));
    RawBlocksAreGrouped(s);
    KindsAreWellKinded(Split(s, '\n'));
    GroupedListItems(ks, 0);
  }

  // ---------------------------------------------------------------------------
  // Blank content
  // ---------------------------------------------------------------------------

  /** Lines that contribute nothing give no block at all. */
  lemma {:induction false} SilentLinesGiveNothing(ks: seq<LineKind>, i: nat)
    requires i <= |ks|
    requires forall k :: 0 <= k < |ks| ==> ks[k] == OtherLine([])
    ensures Grouped(ks, i) == []
    decreases |ks| - i
  {
    if i < |ks| {
      SilentLinesGiveNothing(ks, i + 1);
    }
  }

  /** Every piece of a split of white space is white space. */
  lemma {:induction false} JoinedSpaces(parts: seq<string>, c: char, k: nat)
    requires k < |parts|
    requires forall j :: 0 <= j < |Join(parts, c)| ==> IsSpace(Join(parts, c)[j])
    ensures forall j :: 0 <= j < |parts[k]| ==> IsSpace(parts[k][j])
    decreases |parts|
  {
    if |parts| == 1 {
      assert Join(parts, c) == parts[0];
    } else {
      var whole := Join(parts, c);
      var rest := Join(parts[1..], c);
      assert whole == parts[0] + [c] + rest;
      if k == 0 {
        assert forall j :: 0 <= j < |parts[0]| ==> parts[0][j] == whole[j];
      } else {
        assert forall j :: 0 <= j < |rest| ==> rest[j] == whole[|parts[0]| + 1 + j];
        assert parts[1..][k - 1] == parts[k];
        JoinedSpaces(parts[1..], c, k - 1);
      }
    }
  }

  /** Content made only of white space (blank lines included) is handed back
      unchanged rather than as an empty document. */
  lemma BlankContentIsUnchanged<V>(s: string)
    requires forall j :: 0 <= j < |s| ==> IsSpace(s[j])
    ensures Render<V>(Str(s)) == Unchanged(Str(s))
  {
    var lines := Split(s, '\n');
    var ks := Kinds(lines);
    forall k | 0 <= k < |lines| ensures Trim(lines[k]) == [] {
      JoinedSpaces(lines, '\n', k);
    }
    forall k | 0 <= k < |ks| ensures ks[k] == OtherLine([]) {
      OwnBlocksShape([], k > 0 && Trim(lines[k - 1]) != []);
    }
    SilentLinesGiveNothing(ks, 0);
    RawBlocksAreGrouped(s);
  }

  // ---------------------------------------------------------------------------
  // The imperative renderer
  // ---------------------------------------------------------------------------

  /** `<ul>{listItems.map(item => <li>{processText(item)}</li>)}</ul>` */
  method RenderList(listItems: seq<string>) returns (block: Block)
    ensures block == RenderBlock(RawList(listItems))
  {
    var rendered: seq<seq<Inline>> := [];
    for k := 0 to |listItems|
      invariant rendered == Runs(listItems[..k])
    {
      var inline := ProcessText(listItems[k]);
      assert listItems[..k + 1] == listItems[..k] + [listItems[k]];
      RunsAppend(listItems[..k], listItems[k]);
      rendered := rendered + [inline];
    }
    assert listItems[..|listItems|] == listItems;
    block := List(rendered);
  }

  /** The runs of one more item. */
  lemma RunsAppend(texts: seq<string>, t: string)
    ensures Runs(texts + [t]) == Runs(texts) + [InlineRun(t)]
  {
  }

  /** The flush block that precedes a header, a rule, a paragraph or a blank
      line, and ends the loop: a pending non-empty list becomes one List
      element and the buffer is emptied. */
  method FlushList(elements: seq<Block>, listItems: seq<string>, inList: bool, ghost raw: seq<RawBlock>)
    returns (elements': seq<Block>, listItems': seq<string>, inList': bool, ghost raw': seq<RawBlock>)
    requires elements == RenderAll(raw)
    ensures inList && |listItems| > 0 ==>
      elements' == elements + [RenderBlock(RawList(listItems))] && listItems' == [] && !inList'
    ensures !(inList && |listItems| > 0) ==> elements' == elements && listItems' == listItems && inList' == inList
    ensures ParseState(raw', listItems', inList') == Flushed(ParseState(raw, listItems, inList))
    ensures elements' == RenderAll(raw')
  {
    elements', listItems', inList', raw' := elements, listItems, inList, raw;
    if inList && |listItems| > 0 {
      var list := RenderList(listItems);
      RenderAllAppend(raw, RawList(listItems));
      elements', raw' := elements + [list], raw + [RawList(listItems)];
      listItems', inList' := [], false;
    }
  }

  /** A header line after the flush: `^(#{1,6})\s+(.+)$` and, when it matches,
      a header of that level over the processed header text. */
  method PushHeader(trimmedLine: string, elements: seq<Block>, ghost raw: seq<RawBlock>)
    returns (elements': seq<Block>, ghost raw': seq<RawBlock>)
    requires IsHeaderLine(trimmedLine) && !IsSpace(trimmedLine[|trimmedLine| - 1])
    requires elements == RenderAll(raw)
    ensures elements' == elements + RenderAll(HeaderBlocks(trimmedLine))
    ensures raw' == raw + HeaderBlocks(trimmedLine)
    ensures elements' == RenderAll(raw')
  {
    elements', raw' := elements, raw;
    var headerMatch := HeaderMatch(trimmedLine);
    if headerMatch.Some? {
      var inline := ProcessText(headerMatch.value.text);
      var b := RawHeader(headerMatch.value.level, headerMatch.value.text);
      var node := Header(headerMatch.value.level, inline);
      assert RenderBlock(b) == node;
      RenderAllAppend(raw, b);
      elements', raw' := elements + [node], raw + [b];
    } else {
      assert raw + [] == raw;
    }
    RenderAllConcat(raw, HeaderBlocks(trimmedLine));
  }

  /** A line that is neither header, list item nor rule, after the flush:
      a paragraph of the processed line, or for a blank line a line break when
      the line before is not blank. */
  method PushParagraph(trimmedLine: string, afterText: bool, elements: seq<Block>, ghost raw: seq<RawBlock>)
    returns (elements': seq<Block>, ghost raw': seq<RawBlock>)
    requires elements == RenderAll(raw)
    ensures elements' == elements + RenderAll(ParagraphBlocks(trimmedLine, afterText))
    ensures raw' == raw + ParagraphBlocks(trimmedLine, afterText)
    ensures elements' == RenderAll(raw')
  {
    elements', raw' := elements, raw;
    if trimmedLine != [] {
      var inline := ProcessText(trimmedLine);
      RenderAllAppend(raw, RawParagraph(trimmedLine));
      elements', raw' := elements + [Paragraph(inline)], raw + [RawParagraph(trimmedLine)];
    } else if afterText {
      RenderAllAppend(raw, RawBreak);
      elements', raw' := elements + [LineBreak], raw + [RawBreak];
    } else {
      assert raw + [] == raw;
    }
    RenderAllConcat(raw, ParagraphBlocks(trimmedLine, afterText));
  }

  /** The body of the forEach for line `lineIdx`: header, then list item,
      then rule, then paragraph or blank line. */
  method HandleLine(lines: seq<string>, lineIdx: nat, elements: seq<Block>, listItems: seq<string>, inList: bool, ghost raw: seq<RawBlock>)
    returns (elements': seq<Block>, listItems': seq<string>, inList': bool, ghost raw': seq<RawBlock>)
    requires lineIdx < |lines|
    requires elements == RenderAll(raw)
    ensures var k := KindOf(lines, lineIdx);
      k.ItemLine? ==> elements' == elements && listItems' == listItems + [k.text] && inList'
    ensures KindOf(lines, lineIdx).OtherLine? ==> !(inList' && |listItems'| > 0)
    ensures ParseState(raw', listItems', inList') == Step(KindOf(lines, lineIdx), ParseState(raw, listItems, inList))
    ensures elements' == RenderAll(raw')
  {
    var trimmedLine := Trim(lines[lineIdx]);
    var afterText := lineIdx > 0 && Trim(lines[lineIdx - 1]) != [];
    ghost var kind := LineKindOf(trimmedLine, afterText);
    assert KindOf(lines, lineIdx) == kind;
    if IsHeaderLine(trimmedLine) {
      assert kind == OtherLine(HeaderBlocks(trimmedLine));
      elements', listItems', inList', raw' := FlushList(elements, listItems, inList, raw);
      elements', raw' := PushHeader(trimmedLine, elements', raw');
    } else if IsListItemLine(trimmedLine) {
      assert kind == ItemLine(ListText(trimmedLine));
      elements', raw' := elements, raw;
      listItems' := listItems + [ListText(trimmedLine)];
      inList' := true;
    } else if IsRuleLine(trimmedLine) {
      assert kind == OtherLine([RawRule]);
      elements', listItems', inList', raw' := FlushList(elements, listItems, inList, raw);
      RenderAllAppend(raw', RawRule);
      elements', raw' := elements' + [Rule], raw' + [RawRule];
    } else {
      assert kind == OtherLine(ParagraphBlocks(trimmedLine, afterText));
      elements', listItems', inList', raw' := FlushList(elements, listItems, inList, raw);
      elements', raw' := PushParagraph(trimmedLine, afterText, elements', raw');
    }
  }

  /** renderMessageContent: the forEach over the lines with its list buffer,
      the final flush and the pass-through fallback. */
  method RenderMessageContent<V>(content: Content<V>) returns (r: Rendered<V>)
    ensures r == Render(content)
  {
    if content.NotString? {
      return Unchanged(content);
    }
    var lines := Split(content.s, '\n');
    ghost var kinds := Kinds(lines);
    var elements: seq<Block> := [];
    ghost var raw: seq<RawBlock> := [];
    var listItems: seq<string> := [];
    var inList := false;
    for lineIdx := 0 to |lines|
      invariant elements == RenderAll(raw)
      invariant Drive(kinds, lineIdx, ParseState(raw, listItems, inList)) == RawBlocks(content.s)
    {
      assert kinds[lineIdx] == KindOf(lines, lineIdx);
      elements, listItems, inList, raw := HandleLine(lines, lineIdx, elements, listItems, inList, raw);
    }
    elements, listItems, inList, raw := FlushList(elements, listItems, inList, raw);
    if |elements| > 0 {
      r := Elements(elements);
    } else {
      r := Unchanged(content);
    }
  }
}

# Report renderer of the chat page, in Dafny

This project models `renderMessageContent`, the function of the chat page
(`src/components/ChatBot.jsx`) that turns a generated stock report into
display blocks. It also models its nested inline pass `processText`.

**Input.** The renderer accepts any value. A value that is not a string is
handed back untouched, so the input is `Content<V> = Str(s) | NotString(value)`.

**The block pass** (`MessageContent`, file `message_content.dfy`):
- It splits the string on `'\n'`, trims every line and classifies it in a
  fixed order: header (`^#{1,6}\s+`), list item (`^[-*]\s+` or `^\d+\.\s+`),
  horizontal rule (`^---+$`), then paragraph or blank line.
- List items wait in a buffer `listItems` with a flag `inList`. Any other kind
  of line first flushes the buffer into one `List` block, and so does the end
  of the input.
- A blank line gives a `LineBreak` only right after a non-blank line.
- When no block results, the renderer hands back its input rather than an
  empty document.

**The inline pass** (`InlineText`, file `inline_text.dfy`) works on one trimmed
line. It runs the two global regular expressions `\[([^\]]+)\]\(([^)]+)\)` and
`\*\*([^*]+)\*\*|__([^_]+)__` with the `exec` loop. It merges the hits and
sorts them by start index. It keeps a hit only when it starts at or after the
end of the last hit kept. It then emits the gaps as `Text` and each kept hit
as `Bold`, `Link` or `ActionLink`. A link whose url contains
`/reports/download/` becomes an `ActionLink` that carries the report id.

`JsString` (file `js_string.dfy`) gives the JavaScript string built-ins the
renderer uses:
- `trim` and the class `\s`, both over the ECMAScript WhiteSpace and
  LineTerminator code points;
- `split` on one character;
- `includes` and `split(sep)[1]`, both built on `IndexOf`, the search for
  the first occurrence of a string at or after a position.

**How the model is built.**
- The imperative code is kept as methods with loops, in the same order of
  steps:
  - `CollectMatches` is the `exec` loop;
  - `FilterOverlaps` is the overlap filter;
  - `EmitParts` and `EmitMatch` are the emission `forEach`;
  - `ProcessText` is the whole inline pass;
  - `HandleLine` is one turn of the line `forEach`;
  - `RenderMessageContent` is the whole renderer.
- The three identical flush blocks of the source are one method, `FlushList`.
- Each method is proved equal to a specification function:
  - `Scan`, `KeepFrom`, `Pieces` and `InlineRun` for the inline pass;
  - `Step`, `Drive` and `Render` for the block pass.
- The line loop's specification works on `RawBlock`s that still hold strings.
  `RenderAll` maps them to blocks through `InlineRun`. The methods keep a
  ghost list of raw blocks and the invariant `elements == RenderAll(raw)`.
- The regular expressions are written as deterministic matchers (`LinkAt`,
  `DelimitedAt`, `BoldAt`). Each is proved, in both directions, to find
  exactly the spans the pattern describes. The `exec` scan is proved sound,
  ordered and complete: every position where the pattern matches lies in a
  collected hit.
- The line loop is also described independently by `Grouped`: every maximal
  run of list lines is one List. The loop is proved to agree with it.

## Model

| member | source | states |
|---|---|---|
| JsString.Trim | src/components/ChatBot.jsx:166 | the result is `s` with its leading and trailing white space removed: it is a slice of `s`, everything cut off is white space, its ends are not white space, and it is empty exactly when `s` is all white space |
| JsString.Split | src/components/ChatBot.jsx:67 | `split('\n')` gives at least one piece, no piece holds the separator, and joining the pieces with the separator gives back the string |
| JsString.IndexOf | src/components/ChatBot.jsx:122 | the search returns the first position at or after `from` where the separator occurs, and reports no position only when it occurs nowhere after `from` |
| JsString.IndexOfDecidesContains | src/components/ChatBot.jsx:122 | `includes` holds exactly when the search from the start finds an occurrence |
| JsString.AfterFirst | src/components/ChatBot.jsx:124-125 | `split(sep)[1]` starts right after the first occurrence of `sep`; no occurrence of `sep` begins inside it; it runs to the end of the string or to where the next occurrence begins; it never contains `sep` |
| JsString.FollowsFirstUnique | src/components/ChatBot.jsx:124-125 | at most one piece meets that description, so the report id is determined by the url |
| InlineText.LinkAt | src/components/ChatBot.jsx:77 | the link pattern tried at `p` either fails or yields a hit that starts at `p` with `[`, lies inside the text, is at least four characters long and captures a caption and a url |
| InlineText.DelimitedAt | src/components/ChatBot.jsx:92 | one alternative of the bold pattern tried at `p` either fails or yields a hit that starts at `p` with the delimiter, lies inside the text, is at least five characters long and captures a body |
| InlineText.BoldAt | src/components/ChatBot.jsx:92 | the bold pattern tried at `p` either fails or yields a hit that starts with `*` or `_`, lies inside the text and captures a body (the body tries `**` before `__`, which cannot both match at one position) |
| InlineText.LinkAtShape | src/components/ChatBot.jsx:77 | a link hit at `p` covers exactly `[caption](url)`: the caption and url are non-empty, the caption has no `]` and the url has no `)` |
| InlineText.LinkAtFindsEveryLink | src/components/ChatBot.jsx:77 | conversely, wherever `[caption](url)` of that form is written at `p`, the link matcher finds it at `p` with those captures and that length |
| InlineText.LinkSourceLayout | src/components/ChatBot.jsx:77 | inside a written link the brackets, parentheses, caption and url sit at fixed offsets, and no `]` or `)` occurs inside the caption or url |
| InlineText.DelimitedAtShape | src/components/ChatBot.jsx:92 | a `**`/`__` hit covers exactly delimiter pair, non-empty body without the delimiter, delimiter pair |
| InlineText.DelimitedAtFindsEverySpan | src/components/ChatBot.jsx:92 | conversely, every span `dd body dd` with such a body is the hit found at its start, with that body |
| InlineText.BoldAtShape | src/components/ChatBot.jsx:92 | a bold hit is a `**body**` or a `__body__` span whose captured body is non-empty and free of the delimiter |
| InlineText.BoldAtFindsEverySpan | src/components/ChatBot.jsx:92 | conversely, every `**body**` or `__body__` span with such a body is the bold hit found at its start, with that body |
| InlineText.FirstMatch | src/components/ChatBot.jsx:82 | `exec` with `lastIndex == from` returns the leftmost hit at or after `from`; no position before it (or none at all) matches |
| InlineText.Scan | src/components/ChatBot.jsx:82-100 | every collected hit is the pattern's match at its own index, and the hits are in order and pairwise non-overlapping |
| InlineText.ScanMissesNoMatch | src/components/ChatBot.jsx:82-100 | every position at or after the start where the pattern matches lies inside a collected hit, at its start or within it, so the scan skips only matches that overlap an earlier hit |
| InlineText.CollectMatches | src/components/ChatBot.jsx:82-100 | the `while (exec)` loop collects exactly the hits of the scan that resumes after each hit |
| InlineText.NoMarkerNoScan | src/components/ChatBot.jsx:82-100 | a text without `[`, `*` or `_` gives no hits |
| InlineText.ScannedIndicesDistinct | src/components/ChatBot.jsx:102-105 | in the merged list of links and bolds no two hits start at the same index |
| InlineText.InsertByIndex | src/components/ChatBot.jsx:105 | inserting a hit into a list sorted by index keeps it sorted and adds exactly that hit |
| InlineText.SortByIndex | src/components/ChatBot.jsx:102-105 | the sort by the comparator `a.index - b.index` yields a list sorted by start index that is a permutation of its input |
| InlineText.InsertKeepsStrictOrder | src/components/ChatBot.jsx:105 | inserting a hit whose index is new into a strictly sorted list keeps it strictly sorted |
| InlineText.SortIsStrictOnDistinctIndices | src/components/ChatBot.jsx:102-105 | with distinct start indices the sorted list is strictly increasing, so the order does not depend on the sort's stability |
| InlineText.SortIsTheOnlyOrder | src/components/ChatBot.jsx:102-105 | with distinct start indices, every list sorted by index that holds exactly the hits equals the result of this sort, whatever algorithm the engine uses |
| InlineText.SortedAreMatches | src/components/ChatBot.jsx:102-105 | every element of the sorted list is a genuine link or bold hit inside the text |
| InlineText.KeepFrom | src/components/ChatBot.jsx:107-114 | every kept hit starts at or after the cursor, and the kept hits are in order and pairwise disjoint |
| InlineText.KeptAreCandidates | src/components/ChatBot.jsx:109-113 | every kept hit is one of the candidates, whole: none is trimmed |
| InlineText.KeepDropsOnlyOverlaps | src/components/ChatBot.jsx:109-113 | on sorted candidates a candidate is dropped only when it starts before the cursor or inside a kept hit |
| InlineText.FilterOverlaps | src/components/ChatBot.jsx:107-114 | the filter loop returns exactly the hits KeepFrom keeps from cursor 0 |
| InlineText.KeptMatches | src/components/ChatBot.jsx:102-114 | the hits processText keeps lie inside the text, in order, pairwise disjoint |
| InlineText.KeptMatchesAreMatches | src/components/ChatBot.jsx:102-114 | every kept hit is the match its own pattern finds at its index |
| InlineText.ClassifyLink | src/components/ChatBot.jsx:121-151 | a link becomes an ActionLink exactly when its url contains `/reports/download/`; its id is what follows the first occurrence up to the next and never contains that path; a url without that path gives exactly `Link(caption, url)` |
| InlineText.NodeOf | src/components/ChatBot.jsx:121-153 | a kept hit becomes a Bold of its body exactly when it is a bold hit, a link hit becomes a Link or ActionLink with its caption, and no hit becomes plain text |
| InlineText.NodeOfRenders | src/components/ChatBot.jsx:121-153 | the node emitted for a kept hit stands for exactly the text the hit covers: a bold around its body, a link around its caption and url |
| InlineText.EmitMatch | src/components/ChatBot.jsx:118-155 | one turn of the emission loop adds the non-empty gap before the hit, if there is one, then the hit's node |
| InlineText.EmitParts | src/components/ChatBot.jsx:116-160 | the emission loop and the tail push produce exactly the nodes of the emission walk over the kept hits |
| InlineText.PiecesCoverText | src/components/ChatBot.jsx:116-160 | concatenating the gap texts and the source span of every kept hit gives back the text exactly |
| InlineText.PiecesRender | src/components/ChatBot.jsx:118-159 | every emitted piece renders its source: no Text piece is empty, and every Bold or Link stands for the span it replaced |
| InlineText.ProcessText | src/components/ChatBot.jsx:72-163 | the inline pass returns the run of the specification, and a non-empty text never gives an empty run |
| InlineText.InlineRunNonEmpty | src/components/ChatBot.jsx:162 | a non-empty text always yields at least one part, so the fallback `parts.length > 0 ? parts : text` never returns the bare text |
| InlineText.InlineRunReadsBack | src/components/ChatBot.jsx:72-163 | the run of a text is the node list of pieces that concatenate to the text and each render their own source |
| InlineText.PlainTextIsOneText | src/components/ChatBot.jsx:158-162 | a text without link or bold markers comes back as one Text of itself, or as nothing when empty |
| MessageContent.IsHeaderLineIff | src/components/ChatBot.jsx:169 | the header test holds exactly when one to six `#` followed by white space start the line |
| MessageContent.SevenHashesAreNoHeader | src/components/ChatBot.jsx:169 | a line that starts with seven `#` is not a header |
| MessageContent.HeaderMatch | src/components/ChatBot.jsx:182-185 | the header's level is the number of leading `#`, between 1 and 6; its text is non-empty, neither starts nor ends with white space, and is the suffix of the line that follows the hashes and at least one white-space character; the full pattern fails exactly when a line terminator follows the hashes and spaces |
| MessageContent.HeaderTextFollowsHashes | src/components/ChatBot.jsx:182-185 | the header text is exactly the rest of the line after the leading `#` run and the white space that follows it |
| MessageContent.TrimKeepsUnpadded | src/components/ChatBot.jsx:185 | trimming the captured header text changes nothing |
| MessageContent.IsNumberStartIff | src/components/ChatBot.jsx:200 | the number-marker test holds exactly when some run of one or more digits, a `.` and white space starts the line, which is `^\d+\.\s+` |
| MessageContent.StripBullet | src/components/ChatBot.jsx:201 | the result is a suffix of the line; with a bullet it drops the bullet and the white space after it and nothing more; without one the line is unchanged |
| MessageContent.StripNumber | src/components/ChatBot.jsx:201 | the result is a suffix; with a `N.` marker what it drops is exactly the leading digits, the `.` and the white space after them, up to the first non-space character; without one the text is unchanged |
| MessageContent.StripBulletUndoesBullet | src/components/ChatBot.jsx:201 | stripping `- ` or `* ` plus white space from a bulleted text gives back the text |
| MessageContent.StripNumberUndoesNumber | src/components/ChatBot.jsx:201 | stripping `N.` plus white space gives back the text |
| MessageContent.ListTextStripsBothMarkers | src/components/ChatBot.jsx:201 | a bullet followed by a numbered marker loses both markers |
| MessageContent.ListItemIsNoRule | src/components/ChatBot.jsx:200-208 | no line is both a list item and a rule, so the order of the two tests decides nothing |
| MessageContent.SpacedDashesAreAListItem | src/components/ChatBot.jsx:200-208 | `- - -` is a list item whose text is `- -`, and not a rule, since `^---+$` wants the hyphens adjacent |
| MessageContent.OwnBlocksShape | src/components/ChatBot.jsx:182-245 | a line that is not a list item adds at most one block, never a List; a header line adds only a header of level 1 to 6; a rule line (`^---+$`) that is no header adds exactly one Rule; any other non-blank line adds a Paragraph of itself; a blank line adds a LineBreak exactly when it follows a non-blank line, else nothing |
| MessageContent.Flushed | src/components/ChatBot.jsx:170-179 | a flush with pending items appends one List of them and empties the buffer; otherwise the state is unchanged |
| MessageContent.Step | src/components/ChatBot.jsx:165-246 | one turn never rewrites earlier elements; a list-item line leaves the elements alone, appends its text to the buffer and sets the flag; any other line flushes, appends its own blocks and leaves no list pending |
| MessageContent.Drive | src/components/ChatBot.jsx:165-256 | the loop from any state, then the final flush, only appends to the elements it starts with |
| MessageContent.StepKeepsListFlag | src/components/ChatBot.jsx:165-246 | every turn of the loop keeps `inList` true exactly when `listItems` is non-empty |
| MessageContent.DriveIsGrouped | src/components/ChatBot.jsx:165-256 | from any point with pending items, the loop and final flush produce the pending items merged with the following run of list lines into one List, then the grouped rest |
| MessageContent.RawBlocksAreGrouped | src/components/ChatBot.jsx:165-256 | the blocks of a string are those of the reference description: each maximal run of list lines is one List in input order, every other line adds its own blocks |
| MessageContent.RawBlocksListItems | src/components/ChatBot.jsx:199-256 | the items of all List blocks, in order, are exactly the texts of the list-item lines: each such line ends up in exactly one List |
| MessageContent.BlankContentIsUnchanged | src/components/ChatBot.jsx:258 | a string of white space only yields no block and is handed back unchanged |
| MessageContent.Render | src/components/ChatBot.jsx:64-259 | a non-string, or a string that yields no block, is handed back unchanged; otherwise the result is the blocks of the string |
| MessageContent.RenderList | src/components/ChatBot.jsx:171-177 | the List element holds the inline run of each item, in order |
| MessageContent.FlushList | src/components/ChatBot.jsx:170-179 | with items pending, the flush appends one List element of their inline runs, empties the buffer and clears the flag; otherwise elements, buffer and flag are unchanged; the raw blocks follow Flushed |
| MessageContent.PushHeader | src/components/ChatBot.jsx:182-195 | a header line appends the rendering of its header block, or nothing when the full pattern fails |
| MessageContent.PushParagraph | src/components/ChatBot.jsx:237-245 | a non-blank line appends a Paragraph of its inline run, a blank line after text appends a LineBreak, any other blank line appends nothing |
| MessageContent.HandleLine | src/components/ChatBot.jsx:165-246 | a list-item line only adds its stripped text to the buffer and sets the flag; after any other line no list is left pending; the state moves exactly as Step does on the line's kind |
| MessageContent.RenderMessageContent | src/components/ChatBot.jsx:64-259 | the renderer returns exactly Render of its argument |

## Left out

- `fetchUsageStatus` and its usage limit (src/components/ChatBot.jsx:23-49) are not modelled: they are network I/O and React state.
- `handleGenerateReport` (src/components/ChatBot.jsx:262-330) is not modelled: it is a fetch call, toast messages and state setters.
- The `useEffect` hooks (src/components/ChatBot.jsx:52-61) are not modelled: they scroll the page and run on mount.
- JSX layout, CSS class names (including the choice of header class at line 186), React keys and the static page content are not modelled: they only affect presentation. Blocks and inline nodes are plain data.
- The `onClick` handler of a download link (lines 129-133) and `EmailModal` are left out. A download link is the data node `ActionLink(caption, reportId)`; opening the modal is a side effect.
- processText returns `null` for an empty string. The model returns the empty run `[]` for it.
- The JavaScript regular-expression engine is replaced by hand-written matchers. `LinkAtShape`, `LinkAtFindsEveryLink`, `DelimitedAtShape`, `DelimitedAtFindsEverySpan`, `BoldAtShape` and `BoldAtFindsEverySpan` show that the matchers find exactly the spans the patterns describe.
- `Array.prototype.sort` is modelled as a stable insertion sort. The hits have distinct start indices, so every correct sort gives the same order (`SortIsStrictOnDistinctIndices`, `SortIsTheOnlyOrder`).
- `RenderMessageContent` calls `ProcessText` when it pushes a block, as the source does. The specification functions instead apply `InlineRun` afterwards, through `RenderAll`. Both give the same result because processText is pure.
- Strings are sequences of Dafny `char` (Unicode scalar values). JavaScript strings hold UTF-16 code units, so a character outside the Basic Multilingual Plane counts as two units there and as one here. None of the patterns, markers or white-space characters involved lies outside that plane.

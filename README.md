# stilva/markdown parser, modelled in Dafny

This project models `src/parser.js` of stilva/markdown, a small Markdown to
HTML converter. `parser(str, cacheId)` works in two passes:

- A block pass, `parseBlock`, splits the text on blank lines and classifies
  each block. The chain tries, in order: an opening code fence, a list, a
  header, an image, and a paragraph. Inside a fenced code region, blocks are
  copied until a closing fence ends the region.
- Four inline rewriters then run over the whole output, in this order: bold,
  italic, anchors, and inline code.

When a cache identifier is given and session storage exists, a non-empty
stored result wins over the computed one. A computed result is stored when
nothing usable was stored.

Every regular expression of the parser is written out as an explicit
matcher, a function from "does this position start a line" and the text
from that position to an optional match (`Patterns.Matcher`). On top of
that, `String.prototype.replace` (with and without the `g` flag),
`search`/`exec` (the leftmost match), and `split('\n\n')` are defined as
functions with their laws proved:

- a stretch without matches is copied verbatim;
- the leftmost match is the first replaced;
- text that lacks a pattern's leading character is left alone;
- split and join are inverse.

The loops and reduces of the source are methods proved against
specification functions:

- the reduce of `parseBlock` (`Blocks.ParseBlock`, one step in
  `Blocks.ReduceBlock`) and its inner reduce over the chain
  (`Blocks.ClassifyBlock`);
- the `exec` loop of `parseInlineCode` (`InlineCode.CollectSegments`) and
  its final reduce (`InlineCode.RenderSegments`);
- the `parser` pipeline with its cache (`Pipeline.Parser`), where the
  reduce over the five rewriters is written as five calls in order.

`SessionStorage` is a class whose `items` map `setItem` updates in place.

Modules:

- `Text` holds strings, joins, and JavaScript-level helpers.
- `Patterns` holds the matchers and replace/search.
- `Lines` covers replacing line by line with `^`/`m` patterns.
- `Fences` covers `parseCodeStart` and `parseCodeEnd`.
- `Headers` covers `parseHeader`.
- `Emphasis` covers `parseBold` and `parseItalic`.
- `Links` covers `parseAnchors` and `parseImages`.
- `InlineCode` covers `parseInlineCode`.
- `Split` covers `split('\n\n')`.
- `Blocks` covers `parseBlock` and `parseParagraph`.
- `BlockCases` covers fenced blocks.
- `Pipeline` covers `parser`, `sessionKey`, and the cache.

Four behaviours of the code are modelled as written and proved as such:

- `parseCodeStart` uses the `g` flag, so a closing fence on its own line
  is taken for a second opening fence. Such a block opens a code region
  it never closes (`BlockCases.OwnLineClosingFence`).
- In `parseInlineCode`, a single character between two code regions is
  dropped (`InlineCode.AdjacentRegions`). The repository's own test at
  src/parser.test.js:177-178 expects this.
- `parseImages` replaces only the first image and wraps the whole block,
  text around the image included.
- A code region that no fence closes is left to the inline rewriters.
  `parseInlineCode` finds its `<code>` tag but no `</code>`, so the region
  is plain text to it and a backtick span inside it becomes a code element
  of its own: "```\n`y`" comes out as `<code>\n<code>y</code>`
  (`Pipeline.UnclosedFenceSpan`).

Two consequences of the code's order of operations:

- The cache is consulted only after all five rewriters have run, and an
  empty stored text counts as a miss (src/parser.js:3-23).
- An empty document is one empty block, which renders as `<p></p>` when
  the list parser rejects it (`Pipeline.EmptyDocument`).

## Model

| member | source | states |
|---|---|---|
| Pipeline.Parser | src/parser.js:3-23 | Without storage the result is the fixed pipeline (blocks, bold, italic, anchors, inline code) of the input; with storage the result and the new storage contents are those of the cache over the old contents |
| Pipeline.ServeUncached | src/parser.js:12 | With a null, undefined or empty identifier the computed output is returned and storage is untouched |
| Pipeline.ServeHit | src/parser.js:13-17 | A non-empty stored text under the identifier's key is returned as it is, whatever the input, and storage is untouched |
| Pipeline.ServeMiss | src/parser.js:13-22 | Without a usable stored text the computed output is returned and stored under the key; every other key keeps its value |
| Pipeline.ServeRepeat | src/parser.js:12-22 | Once a call with an identifier returned a non-empty text, a later call with that identifier returns the same text and leaves storage as it was, even for different input |
| Pipeline.SessionKey | src/parser.js:195-197 | The key is the prefix `markdown.parser.` followed by the identifier |
| Pipeline.KeysDistinct | src/parser.js:195-197 | Two identifiers have the same key exactly when they are equal |
| Pipeline.SessionStorage.constructor | src/parser.js:12 | Storage starts empty |
| Pipeline.SessionStorage.GetItem | src/parser.js:13 | getItem returns the stored text, and null exactly for a key never set |
| Pipeline.SessionStorage.SetItem | src/parser.js:19 | setItem stores the value under the key and changes no other key |
| Pipeline.Untouched | src/parser.js:154-193 | A pattern whose matches start with c finds nothing in text without c and its global replace leaves that text unchanged |
| Pipeline.NoImage | src/parser.js:170-176 | A block without '[' holds no image, so parseImages returns null |
| Pipeline.PlainBlock | src/parser.js:43-61 | A block without fence, '#' or '[' that the list parser rejects is classified as a paragraph and opens no code region |
| Pipeline.ParagraphNoTag | src/parser.js:66-68 | A paragraph around text without '<' holds no opening code tag |
| Pipeline.InlineKeeps | src/parser.js:154-193 | Text without '*', '[', '`' or a code tag passes bold, italic, anchors and inline code unchanged |
| Pipeline.PlainBlockOf | src/parser.js:25-64 | A single block without markup is rendered as one paragraph |
| Pipeline.EmptyDocument | src/parser.js:25-68 | The empty document renders as `<p></p>` when the list parser rejects the empty block |
| Pipeline.UnclosedSpan | src/parser.js:130-134 | The backtick pattern keeps the `<code>` tag of the unclosed block and renders the backtick span after it |
| Pipeline.UnclosedBody | src/parser.js:103-138 | In the unclosed block, the inline-code stage keeps the `<code>` tag and renders the backtick span inside it as a code element |
| Pipeline.UnclosedFenceSpan | src/parser.js:3-10 | "```\n`y`" comes out as `<code>\n<code>y</code>`: the unclosed region's body gets its backtick span rendered |
| Pipeline.PlainText | src/parser.test.js:3-8 | A one-block text without markup characters comes out as `<p>` text `</p>`, single line breaks kept |
| Split.SplitBlocks | src/parser.js:26 | split always returns at least one piece |
| Split.SplitJoin | src/parser.js:26 | Joining the pieces of split with the blank-line separator gives back the text |
| Split.SplitPieces | src/parser.js:26 | No piece holds a separator, and every piece but the last does not end with a line break |
| Split.JoinSplit | src/parser.js:26 | Pieces of that shape are exactly what split returns for their join |
| Split.SplitFirst | src/parser.js:26 | The first piece is a prefix of the text, followed by a separator when more pieces follow |
| Split.SplitLast | src/parser.js:26 | Text without a separator is a single piece |
| Split.SplitInner | src/parser.js:26 | An inner piece followed by a separator is cut off as the first piece |
| Blocks.ParseParagraph | src/parser.js:66-68 | The result is `<p>`, the block unchanged, then `</p>` |
| Blocks.ParseBlock | src/parser.js:25-64 | The reduce over the blocks computes the fold of the block reducer over the split text |
| Blocks.ReduceBlock | src/parser.js:34-63 | Inside a region the block is copied with its first closing fence replaced, and the region flag clears exactly when there was one; outside a region the block is classified; a line break follows every block but the last |
| Blocks.ClassifyBlock | src/parser.js:43-61 | The reduce over the chain returns the priority classification and the region flag the chain sets |
| Blocks.ChainPriority | src/parser.js:32-61 | The reduce over the chain [codeStart, list, header, images, paragraph] is the first truthy parser result, with an opening fence tried for a closing fence in the same block |
| Blocks.Classified | src/parser.js:43-61 | Every block is classified to a non-empty, non-null content |
| Blocks.ParsersVisible | src/parser.js:70-101 | The non-null results of the fence, header and image parsers are non-empty, so the chain stops at them |
| Blocks.OpensIff | src/parser.js:47-56 | A block opens a code region exactly when a line of it starts with a fence and the opened text has no closing fence; its content is then the opened text |
| Blocks.Contents | src/parser.js:43-62 | One classified content per block |
| Blocks.OutsideRegions | src/parser.js:34-63 | Until a block opens a region, the output is the classified blocks joined by line breaks, with a line break after the last when more blocks follow |
| Blocks.NoRegions | src/parser.js:25-64 | A text none of whose blocks opens a region is rendered as its classified blocks, one line break apart |
| Blocks.RegionBody | src/parser.js:37-41 | Inside a region, blocks without a closing fence are copied verbatim with the blank lines between them restored, and the region stays open |
| Blocks.RegionBodyBy | src/parser.js:37-41 | The same for any closing-fence parser and classifier |
| Blocks.RegionEnd | src/parser.js:37-41 | The first block with a closing fence ends the region: earlier blocks are copied, the fence becomes the closing tag, and classification resumes |
| Blocks.Unterminated | src/parser.js:37-41 | A region that is never closed runs to the end of the text, which is copied with its blank lines |
| BlockCases.FencedStart | src/parser.js:70-87 | parseCodeStart turns the opening fence and language of a fenced block into the opening tag and keeps the rest |
| BlockCases.FinalClose | src/parser.js:89-101 | parseCodeEnd turns a final fence into the closing tag |
| BlockCases.FencedBlock | src/parser.js:43-61 | A block that opens with a fence and an optional language and ends with a fence glued to its last line is one closed code element, and no region stays open |
| BlockCases.BothFencesOpen | src/parser.js:72-82 | With the `g` flag both fence lines of a block become opening tags |
| BlockCases.OwnLineClosingFence | src/parser.js:43-61 | A closing fence on its own line is taken for an opening fence: the block opens a region it never closes |
| BlockCases.NoOpenInBody | src/parser.js:72 | A body without backticks behind the opening fence holds no further line-initial fence |
| BlockCases.UnclosedStart | src/parser.js:70-87 | On a fence line followed by a line that starts with one backtick, the fence becomes `<code>` and the second line is kept |
| BlockCases.UnclosedNoEnd | src/parser.js:89-101 | After that, no fence is left to close the region: parseCodeEnd returns null |
| BlockCases.UnclosedFence | src/parser.js:43-61 | Such a block opens a region it does not close, and parseBlock outputs it with only the fence rewritten |
| BlockCases.OpeningMatch | src/parser.js:72-82 | The fence and its language form one match, replaced by the opening tag |
| Fences.CodeStartNull | src/parser.js:70-87 | parseCodeStart returns null exactly when no line starts with a fence |
| Fences.CodeEndNull | src/parser.js:89-101 | parseCodeEnd returns null exactly when no fence ends a line or the text |
| Fences.CodeEndFirst | src/parser.js:89-101 | Only the first fence that ends a line is replaced by the closing tag; the rest of the text is kept |
| Fences.OpenFenceLine | src/parser.js:72-82 | A line that does not start with a fence is kept |
| Fences.CodeStartLineLocal | src/parser.js:72-82 | On a single line the opening-fence pattern stays inside the line, and the line becomes its opening-tag form |
| Fences.CodeStartLines | src/parser.js:70-87 | In lines joined by line breaks, each line is rewritten on its own: the fence and longest run of word characters become `<code class="language-W">`, or `<code>` without a language |
| Fences.CodeStartFound | src/parser.js:84 | One line starting with a fence makes parseCodeStart succeed |
| Headers.HeaderNull | src/parser.js:142-147 | parseHeader returns null exactly when no position starts a header |
| Headers.HeaderMatch | src/parser.js:143 | On a header line the match is the whole line and its element has the number of '#' as level |
| Headers.NoHeaderMatch | src/parser.js:143 | A line not starting with '#' starts no header |
| Headers.HeaderLineLocal | src/parser.js:143-151 | On a single line not made of '#' only, the header pattern stays inside the line: a header line becomes its element, any other line is kept |
| Headers.NoHeaderForm | src/parser.js:143 | A line that starts with '#' but is not a header, and is not made of '#' only, starts no header whatever line follows it |
| Headers.HeaderLines | src/parser.js:142-152 | In lines joined by line breaks, none of them made of '#' only, every header line becomes its element, every other line is kept, and parseHeader succeeds when one line is a header |
| Headers.HeaderFound | src/parser.js:145-147 | One header line makes parseHeader succeed, whatever the other lines are |
| Headers.HeaderOf | src/parser.test.js:38-49 | '#' repeated level times, a space and a title give `<hN>title</hN>` with N the level |
| Emphasis.GroupCloses | src/parser.js:155 | The lazy group of a starred text closes exactly at the group's end |
| Emphasis.BoldHit | src/parser.js:155-159 | For an emphasisable group w (at least three characters, one line, no '*', no white space at either edge), `**w**` is one bold match replaced by `<strong>w</strong>` |
| Emphasis.ItalicHit | src/parser.js:163-167 | For an emphasisable group w (at least three characters, one line, no '*', no white space at either edge), `*w*` is one italic match replaced by `<i>w</i>` |
| Emphasis.BoldSpan | src/parser.js:154-160 | After text without stars a bold span around an emphasisable group (at least three characters, one line, no '*', no white space at either edge) is rendered, and the rest is rendered on its own |
| Emphasis.ItalicSpan | src/parser.js:162-168 | After text without stars an italic span around an emphasisable group (at least three characters, one line, no '*', no white space at either edge) is rendered, and the rest is rendered on its own |
| Emphasis.BoldFails | src/parser.js:155 | A bold attempt fails without an opening pair, with white space right after it, or without a later star |
| Emphasis.ItalicFails | src/parser.js:163 | An italic attempt fails without an opening star, with white space or a star after it, or without a later star |
| Emphasis.BoldLoose | src/parser.test.js:18 | Stars set apart by spaces are left as they are |
| Emphasis.ItalicLoose | src/parser.test.js:24 | A star set apart by a space is left as it is |
| Links.ImagesNull | src/parser.js:170-176 | parseImages returns null exactly when the block holds no image |
| Links.ImagesAt | src/parser.js:170-185 | The first image, at offset n, becomes the img element; text before and after is kept and the whole block is wrapped |
| Links.WrapAt | src/parser.js:172-184 | The same for any pattern whose first match is at offset n |
| Links.ImageShape | src/parser.js:171 | `![text](target)` is one image match replaced by its img element |
| Links.ImageWraps | src/parser.test.js:28-31 | After text without '!', the first image is rendered, everything after it is copied (later images included) and the block is wrapped |
| Links.AnchorsNone | src/parser.js:187-193 | Text without '[' is left unchanged by parseAnchors |
| Links.AnchorSpan | src/parser.js:187-193 | After text without '[' a link becomes `<a href="target">text</a>` and the rest is rendered on its own |
| Links.AnchorHit | src/parser.js:188-191 | `[text](target)` is one anchor match replaced by the anchor element |
| InlineCode.ParseInlineCode | src/parser.js:103-138 | The exec loop followed by the reduce computes the rendering of the segments of the text |
| InlineCode.CollectSegments | src/parser.js:107-128 | The exec loop pushes exactly the segment list `SegmentsFrom` defines for the whole text |
| InlineCode.PushMatch | src/parser.js:113-122 | One turn pushes the text before the match (all of it before the first match, otherwise only a gap of two characters or more) and the match, and moves past it |
| InlineCode.RenderSegments | src/parser.js:130-137 | The reduce renders plain text through the backtick pattern, copies code regions, and joins |
| InlineCode.NextMatch | src/parser.js:113 | The next region starts at or after the previous end, is non-empty and lies inside the text |
| InlineCode.Gap | src/parser.js:115-119 | At most one plain segment, holding the text between the previous region and this one |
| InlineCode.SegmentsStep | src/parser.js:113-122 | The segments after a position are its gap, the region found, then the segments after that region |
| InlineCode.RenderStep | src/parser.js:113-137 | The output from a position is the rendered gap (if pushed), the region verbatim, then the output after the region |
| InlineCode.InlineRegion | src/parser.js:113-137 | A region after a gap in which no `<code` tag starts is copied verbatim; the gap is rendered only when it precedes the first region or has at least two characters |
| InlineCode.InlineRest | src/parser.js:113-134 | When no `<code` tag at or after the position is followed by a `</code>` tag, the exec loop finds nothing more and the rest of the text is rendered through the backtick pattern |
| InlineCode.InlineUnclosed | src/parser.js:103-138 | Text without a `</code>` tag, an unclosed `<code>` included, is rendered through the backtick pattern as a whole |
| InlineCode.BacktickHit | src/parser.js:105 | A backtick, a non-empty text without backticks and a backtick are one match, replaced by `<code>text</code>` |
| InlineCode.BacktickSpan | src/parser.js:130-134 | After text without backticks a backtick span becomes a code element, and the rest is rendered on its own |
| InlineCode.InlinePlain | src/parser.js:103-138 | Without code regions parseInlineCode renders the backtick spans of the whole text |
| InlineCode.AdjacentRegions | src/parser.test.js:177-178 | Two regions one character apart come out side by side, the character between them dropped whatever it is |
| InlineCode.RegionMatch | src/parser.js:104 | The region pattern matches exactly one region, whatever follows it |
| InlineCode.RegionShape | src/parser.js:104 | `<code attrs>body</code>` with no '>' in attrs and a non-empty body without '<' is a region |
| InlineCode.FirstRegion | src/parser.js:113 | The search finds the region that follows a gap in which no `<code` tag starts |
| InlineCode.LacksNoTagBetween | src/parser.js:104 | No `<code` tag starts in text without '<' |
| InlineCode.NextFound | src/parser.js:113 | A match found in the rest of the text is the next match, at its offset in the whole text |
| Patterns.RunEnd | src/parser.js:171 | A greedy run ends at the first character outside its class or at the end of the text |
| Patterns.RunEndIs | src/parser.js:171 | The run end is the only position with those properties |
| Patterns.ShortestClose | src/parser.js:155 | The lazy group is the shortest closing group |
| Patterns.ShortestCloseIs | src/parser.js:163 | Any closing length with no shorter closing one is the lazy group's length |
| Patterns.MatchCodeStart | src/parser.js:72 | The opening-fence pattern matches exactly at a line start with three backticks |
| Patterns.MatchCodeEnd | src/parser.js:91-96 | The closing-fence pattern matches exactly three backticks before a line end or the text end, replaced by `</code>` |
| Patterns.MatchHeader | src/parser.js:143 | The header pattern matches exactly where a header starts |
| Patterns.MatchLink | src/parser.js:171 | The link runs find a link exactly when the text is in link shape |
| Patterns.LinkIs | src/parser.js:188 | A text in link shape is the link the pattern finds |
| Patterns.MatchCodeRegion | src/parser.js:104 | A region match is copied verbatim |
| Patterns.ShortestBody | src/parser.js:104 | The lazy body ends at the first closing tag after its first character |
| Patterns.FindFirstLeftmost | src/parser.js:113 | The search returns the leftmost successful attempt, and none when every attempt fails |
| Patterns.ReplaceAllSkips | src/parser.js:157 | A global replace copies a stretch without matches verbatim |
| Patterns.ReplaceFirstSkips | src/parser.js:93 | A single replace copies a stretch without matches verbatim |
| Patterns.FindFirstSkips | src/parser.js:145 | The search passes over a stretch without matches |
| Patterns.ReplaceNothing | src/parser.js:157 | Text without any match is left unchanged by either replace |
| Patterns.MatchAtOffset | src/parser.js:93-96 | The leftmost match is the first replaced by both kinds of replace and the one the search reports |
| Patterns.ReplaceVisible | src/parser.js:74-98 | A replace by non-empty tags on text with a match gives non-empty text |
| Patterns.NoMatchLacking | src/parser.js:155-188 | Text lacking a pattern's leading character holds no match |
| Patterns.UnanchoredStart | src/parser.js:155 | For a pattern without `^` the line-start context changes neither search nor replace |
| Patterns.SpanAfter | src/parser.js:157 | A match right after text without the pattern's leading character is the first replacement |
| Lines.ReplaceLines | src/parser.js:72-74 | A `^`/`m` pattern whose matches stay in their lines rewrites lines joined by line breaks one by one |
| Lines.ReplaceLine | src/parser.js:143-149 | A line followed by a line break is rewritten on its own |
| Lines.MapLines | src/parser.js:149 | One rewritten line per line |

## Definitions

The functions below define what each part of the source computes. They
carry no contract of their own: what they promise is stated by the members
of the table above, named in the last column.

| function | source | defines | stated by |
|---|---|---|---|
| Pipeline.Markdown | src/parser.js:3-10 | The reduce over parseBlock, parseBold, parseItalic, parseAnchors and parseInlineCode, in this order | Pipeline.Parser, Pipeline.PlainText, Pipeline.UnclosedFenceSpan |
| Pipeline.Serve | src/parser.js:12-22 | The cache: a truthy identifier and a non-empty stored text return that text; otherwise the output is returned and, with a truthy identifier, stored | Pipeline.ServeUncached, Pipeline.ServeHit, Pipeline.ServeMiss, Pipeline.ServeRepeat |
| Blocks.ParseBlockOf | src/parser.js:25-64 | The fold of the block reducer over the pieces of `split('\n\n')` | Blocks.ParseBlock, Blocks.NoRegions, Pipeline.PlainBlockOf |
| Blocks.Fold | src/parser.js:34-63 | The accumulator and region flag after the first n blocks | Blocks.ParseBlock, Blocks.OutsideRegions, Blocks.RegionBody |
| Blocks.StepBy | src/parser.js:34-63 | One reducer step: inside a region the block with its closing fence replaced, otherwise its classification, then the suffix | Blocks.ReduceBlock, Blocks.RegionEnd |
| Blocks.ChainStep | src/parser.js:43-61 | One step of the reduce over the parser chain, with the opening fence tried for a closing one | Blocks.ClassifyBlock, Blocks.ChainPriority |
| Fences.ParseCodeStart | src/parser.js:70-87 | Null when the opening-fence pattern matches nowhere, otherwise its global replace | Fences.CodeStartNull, Fences.CodeStartLines |
| Fences.ParseCodeEnd | src/parser.js:89-101 | Null when the closing-fence pattern matches nowhere, otherwise its first replace | Fences.CodeEndNull, Fences.CodeEndFirst |
| Headers.ParseHeader | src/parser.js:142-152 | Null when the search finds no header, otherwise the global replace of the header pattern | Headers.HeaderNull, Headers.HeaderLines |
| Emphasis.ParseBold | src/parser.js:154-160 | The global replace of the bold pattern | Emphasis.BoldSpan, Emphasis.BoldLoose |
| Emphasis.ParseItalic | src/parser.js:162-168 | The global replace of the italic pattern | Emphasis.ItalicSpan, Emphasis.ItalicLoose |
| Links.ParseImages | src/parser.js:170-185 | Null without an image, otherwise the first image replaced and the whole block wrapped | Links.ImagesNull, Links.ImagesAt |
| Links.WrapFirst | src/parser.js:172-184 | The same for any pattern | Links.WrapAt |
| Links.ParseAnchors | src/parser.js:187-193 | The global replace of the anchor pattern | Links.AnchorSpan, Links.AnchorsNone |
| InlineCode.InlineCodeOf | src/parser.js:103-138 | The segments of the exec loop, rendered by the final reduce and joined | InlineCode.ParseInlineCode, InlineCode.InlineRegion, InlineCode.InlineRest |
| InlineCode.SegmentsFrom | src/parser.js:112-128 | The segments the exec loop pushes from a position on | InlineCode.CollectSegments, InlineCode.SegmentsStep |
| InlineCode.Backticks | src/parser.js:105, 130-134 | The global replace of the backtick pattern on a plain segment | InlineCode.BacktickSpan, InlineCode.RenderSegments |
| Patterns.MatchBold | src/parser.js:155 | `\*\*([\S].+?[\S])\*\*`: two stars, a lazy group of at least three characters of one line with non-space edges, two stars | Emphasis.BoldHit, Emphasis.BoldFails |
| Patterns.MatchItalic | src/parser.js:163 | `\*([^\s\*].+?[^\s\*])\*`: the same with one star and edges that are neither space nor star | Emphasis.ItalicHit, Emphasis.ItalicFails |
| Patterns.MatchAnchor | src/parser.js:188 | `\[([^\]]+)\]\(([^\)]+)\)`: a link, replaced by its anchor element | Links.AnchorHit, Patterns.LinkIs |
| Patterns.MatchImage | src/parser.js:171 | `!` and a link, replaced by its img element | Links.ImageShape |
| Patterns.MatchBacktick | src/parser.js:105 | A backtick, a non-empty run without backticks, a backtick | InlineCode.BacktickHit |
| Patterns.FindFirst | src/parser.js:113, 145, 172 | `exec` and `search`: the leftmost successful attempt, every position tried from left to right | Patterns.FindFirstLeftmost, Patterns.FindFirstSkips |
| Patterns.ReplaceAll | src/parser.js:74, 149, 157, 165, 190 | `replace` with the `g` flag: every leftmost non-overlapping match replaced, the text between copied | Patterns.ReplaceAllSkips, Patterns.MatchAtOffset, Patterns.ReplaceNothing |
| Patterns.ReplaceFirst | src/parser.js:93 | `replace` without the `g` flag: only the leftmost match replaced | Patterns.ReplaceFirstSkips, Patterns.MatchAtOffset, Patterns.ReplaceNothing |

## Left out

- `parseList` and `getListType` belong to `src/listParser.js`, which is not part of this model. The chain receives the list parser as a parameter, `Blocks.ListParser`, and nothing is assumed about it.
- `splitCodeBlocks` (src/parser.js:140) is an empty function that nothing calls, so it is not modelled.
- Session storage is a map owned by a `SessionStorage` object. Where the environment has no `sessionStorage`, `Parser` receives null. Storage failures, quotas and other tabs are not modelled.
- `Pipeline.Parser` takes the cache identifier as a text or null. Numbers and other identifier values, which JavaScript would also format into a key, are not modelled.
- The regular expressions are modelled as hand-written matchers, one per pattern, not through a general regex engine. The `lastIndex` bookkeeping of `exec` is a position the loop carries.
- Texts are sequences of Dafny characters, not UTF-16 code units. The `i` flag lowers ASCII letters only; it matters only for `<code` and `</code>`.
- `split` is modelled as a function, not as the engine's loop.
- `Links.WrapAt` and `Links.WrapFirst` are stated for any pattern, and `parseImages` instantiates them with the image pattern.
- Headers.HeaderLines: excludes lines made of '#' only. There the pattern's `[\s]` takes the line break and the header takes its title from the next line, so the text is not rewritten line by line.
- Emphasis.BoldSpan: covers groups without '*'. The bold group `[\S].+?[\S]` also admits stars inside it (`**a*b**` gives `<strong>a*b</strong>`); such groups are not stated as a separate lemma. Emphasis.BoldHit, Emphasis.ItalicHit and Emphasis.ItalicSpan have the same restriction.
- BlockCases.FencedBlock: covers code bodies without backticks. A body holding backticks, as in the repository's tests, is not stated as a separate lemma.

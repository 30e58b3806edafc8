# Story display parsing, in Dafny

This project models the text processing at the heart of the story generator's
`StoryDisplay` component. The component receives the generated story as one block of
text that uses a small markdown dialect and Arabic scene headers such as
`**المشهد 1: البداية**`. It turns that text into what the page shows:

- `parseStoryToScenes` cuts the story before every scene header. Blank blocks are
  dropped. Each remaining block becomes a scene: the first line, with every `**`
  removed, is its title (the placeholder `مشهد بدون عنوان`, "untitled scene", when
  nothing remains), and the other lines, trimmed, are its content. A block whose
  content is empty gives no scene.
- `parseMarkdownContent` reads a text line by line. Each trimmed line is a
  blockquote (`>`), a list item (`* `), a paragraph, or blank. List items are
  buffered, and the buffer is emitted as one list when a line of another kind, or
  the end of the text, flushes it.
- `parseInlineMarkdown` splits one line with the regular expression
  `(\*\*.*?\*\*)|(\*.*?\*)` and makes every non-empty part a bold, italic or plain run.
- `renderContent` chooses the panel's view. Loading wins over an error, an error over
  the story. A story is shown scene by scene, or as one markdown text when no scene can
  be read from it. With no story, an invitation to write one is shown.

The modules follow the source's structure:

- `Text` models the JavaScript string primitives the component uses: `trim`, `split` on
  one character, `join`, `startsWith`/`endsWith`, `slice(k, -k)`, and the global
  replacement of `**`.
- `Inline` is `parseInlineMarkdown`. The regular expression is an explicit scanner: a
  leftmost match, the bold alternative tried first, lazy, and `.` not crossing a line
  terminator.
- `Markdown` is `parseMarkdownContent`. The `forEach` loop and the `flushList` closure
  are methods over the `elements` and `listItems` state. They are proved against
  `Blocks`, a run-by-run reference definition over the classified lines.
- `Headers` is the zero-width `split` at scene headers, together with the
  `filter(block => block.trim())` that comes after it. A header is `**المشهد `, one
  or more ASCII digits, a colon, one or more characters other than `*`, and `**`.
- `SceneBlock` is the body of the loop in `parseStoryToScenes`: one block, one scene
  or none.
- `Scenes` is `parseStoryToScenes` itself: a `for` loop over the blocks, proved against
  the function `StoryScenes`.
- `Render` is the branch selection of `renderContent`, as a function to a sum type of
  views.

## Model

| member | source | states |
|---|---|---|
| Text.Trim | components/StoryDisplay.tsx:54 | the trimmed line has no whitespace (ECMAScript WhiteSpace or LineTerminator) at either end, and it is empty exactly when the line is whitespace only |
| Text.TrimKeepsMiddle | components/StoryDisplay.tsx:54 | the trimmed line is one contiguous stretch of the line, and everything dropped before and after it is whitespace |
| Text.TrimIdempotent | components/StoryDisplay.tsx:99 | trimming a trimmed block again changes nothing |
| Text.SliceEnds | components/StoryDisplay.tsx:26 | `slice(k, -k)` for `k >= 1` is the part between the first and last `k` characters, and it is empty when the two overlap |
| Text.Split | components/StoryDisplay.tsx:42 | `split('\n')` gives at least one piece, and no piece holds a line break |
| Text.JoinSplit | components/StoryDisplay.tsx:99-101 | joining the lines of a split with the separator gives the text back |
| Text.SplitJoin | components/StoryDisplay.tsx:99-101 | splitting the join of separator-free lines gives the lines back |
| Text.SplitHeadTail | components/StoryDisplay.tsx:99-101 | the first line a split yields is everything before the first line break, and the other lines, joined, are everything after it |
| Text.SplitAllSpace | components/StoryDisplay.tsx:42 | every line of a whitespace-only text is whitespace only |
| Text.JoinAllSpace | components/StoryDisplay.tsx:101 | `join` of whitespace-only lines with a line break is whitespace only |
| Text.RemoveBoldMarks | components/StoryDisplay.tsx:100 | after `replace(/\*\*/g, '')` no `**` is left, and the result is no longer than the input |
| Text.RemoveBoldMarksKeepsText | components/StoryDisplay.tsx:100 | removing the bold marks keeps every character other than `*`, in order |
| Text.RemoveBoldMarksNoop | components/StoryDisplay.tsx:100 | a text without `**` is left unchanged |
| Text.RemoveFirstMark | components/StoryDisplay.tsx:100 | the leftmost `**` is removed and everything before it is kept as it is, a lone `*` included, and the removal goes on after it; with the previous row this fixes the result for every text |
| Text.RemoveBoldMarksIdempotent | components/StoryDisplay.tsx:100 | removing the bold marks twice is the same as removing them once |
| Text.RemoveEnclosingMarks | components/StoryDisplay.tsx:100 | `**t**`, with no `*` in `t`, becomes `t` |
| Inline.BoldCloseFrom | components/StoryDisplay.tsx:21 | the lazy `.*?\*\*` ends at the first `**` that can be reached without crossing a line terminator, and fails exactly when no such `**` exists |
| Inline.ItalicCloseFrom | components/StoryDisplay.tsx:21 | the lazy `.*?\*` ends at the first `*` that can be reached without crossing a line terminator, and fails exactly when no such `*` exists |
| Inline.MatchAt | components/StoryDisplay.tsx:21 | a match starts and ends with `*`, is at least two characters long, and can only start at a `*`; there is a match at a `*` exactly when a later `*` closes it on the same line; the bold alternative wins whenever it can close, and otherwise the match is the italic one |
| Inline.PartsFrom | components/StoryDisplay.tsx:22 | the parts that `split` and `filter(Boolean)` leave are non-empty and concatenate to the rest of the line |
| Inline.Parts | components/StoryDisplay.tsx:21-22 | the parts of a line partition it: none is empty, and together, in order, they are the line |
| Inline.PartsFromTokens | components/StoryDisplay.tsx:21-22 | scanning from a stretch of plain text with no match yet, the parts are the leftmost-match cut of the rest of the line |
| Inline.PartsAreTokens | components/StoryDisplay.tsx:21-22 | the parts are exactly the cut `split` makes with a capturing pattern: each part is either the match that starts where it starts, or a maximal stretch of plain text ended by the end of the line or by the next match |
| Inline.TokensUnique | components/StoryDisplay.tsx:21-22 | that cut is unique, so the parts are determined by where the matches are |
| Inline.Classify | components/StoryDisplay.tsx:25-31 | a part is bold exactly when it starts and ends with `**`, italic exactly when it is not bold and starts and ends with `*`, and plain otherwise; a bold or italic run's text is the part without its delimiters, or empty when the part is too short to hold both, and a plain run is the part itself |
| Inline.ClassifyEach | components/StoryDisplay.tsx:24-32 | `map` gives one run per part, and the run at each position is the classification of the part at that position |
| Inline.ParseInline | components/StoryDisplay.tsx:20-33 | a line gives no more runs than it has characters, and it gives no run exactly when it is empty |
| Inline.NoStarIsPlain | components/StoryDisplay.tsx:21-31 | a line without `*` is one plain run equal to the line, or no run when the line is empty |
| Inline.BoldLine | components/StoryDisplay.tsx:21-26 | `**t**` with no `*` or line break in `t` is exactly one bold run of `t` |
| Inline.ItalicLine | components/StoryDisplay.tsx:21-29 | `*t*` with a non-empty `t` free of `*` and line breaks is exactly one italic run of `t` |
| Markdown.ItemRunLength | components/StoryDisplay.tsx:64-70 | the run of list items at the start of the lines is maximal: all of it is items, and the line after it is not an item |
| Markdown.BlankIffWhitespace | components/StoryDisplay.tsx:54-80 | a line is classified blank exactly when it is whitespace only |
| Markdown.FlushList | components/StoryDisplay.tsx:46-51 | `flushList` leaves the buffer empty, and appends one list of the buffered items exactly when there are some |
| Markdown.HandleLine | components/StoryDisplay.tsx:53-80 | a list item is appended to the buffer and nothing is emitted; any other line flushes the buffer, then emits one blockquote, one paragraph or nothing for a blank line |
| Markdown.ResumeItem | components/StoryDisplay.tsx:64-70 | buffering a list item keeps the loop invariant: what the longer buffer and the remaining lines will give is what the shorter buffer and the lines from the item on would have given |
| Markdown.ResumeFlush | components/StoryDisplay.tsx:46-51 | before a line that is not a list item, or at the end of the text, the buffered items come out as exactly one list when there are any, and the lines that follow are unaffected by them |
| Markdown.ResumeLine | components/StoryDisplay.tsx:53-80 | handling a non-item line keeps the loop invariant: what was emitted, followed by what the buffer and the remaining lines will give, is the blocks of the whole text |
| Markdown.ParseMarkdownContent | components/StoryDisplay.tsx:41-85 | the loop returns exactly the run-by-run blocks of the text, and never an empty list |
| Markdown.ListsNonEmpty | components/StoryDisplay.tsx:47 | no list among the blocks is empty |
| Markdown.BlocksCoverLines | components/StoryDisplay.tsx:53-83 | every non-blank line appears, in line order, in exactly one block: a quote, a paragraph, or an item of a list |
| Markdown.BlocksAppend | components/StoryDisplay.tsx:72 | after a line that is not a list item, the blocks of the rest of the text are independent of what came before |
| Markdown.NoAdjacentLists | components/StoryDisplay.tsx:64-72 | without blank lines, two lists are never next to each other: a maximal run of item lines is one list |
| Markdown.NoBlocksIffBlank | components/StoryDisplay.tsx:41-85 | a text renders as no block exactly when it is whitespace only |
| Markdown.VisibleTextHasBlocks | components/StoryDisplay.tsx:53-80 | a text whose first character is not whitespace gives at least one block |
| Headers.DigitsEnd | components/StoryDisplay.tsx:96 | `\d+` as a greedy run: only ASCII digits are consumed, and the run stops before the first other character |
| Headers.StarFrom | components/StoryDisplay.tsx:96 | `[^\*]+` as a greedy run: it stops at the first `*` |
| Headers.HeaderRecognised | components/StoryDisplay.tsx:96 | the lookahead succeeds at the start of every `**المشهد N:Title**` with ASCII digits `N` and a non-empty, star-free title, whatever text surrounds it |
| Headers.HeaderAtShape | components/StoryDisplay.tsx:96 | conversely, the lookahead succeeds only where such a header starts: the text from there is the marker, ASCII digits, `:`, a non-empty star-free title, `**` and whatever follows |
| Headers.HeaderCuts | components/StoryDisplay.tsx:96 | the cuts, in increasing order, are exactly the header positions strictly inside the text |
| Headers.Pieces | components/StoryDisplay.tsx:96 | the pieces between consecutive cuts are exactly the slices from one cut to the next, and they concatenate to the text |
| Headers.SplitAtHeaders | components/StoryDisplay.tsx:96 | the zero-width split gives one block more than there are cuts, and the blocks concatenate back to the text |
| Headers.NonBlank | components/StoryDisplay.tsx:96 | the kept blocks are no more than the blocks, and none is whitespace only |
| Headers.NonBlankAppend | components/StoryDisplay.tsx:96 | the filter keeps block order: filtering two runs of blocks is filtering the first, then the second |
| Headers.NonBlankOne | components/StoryDisplay.tsx:96 | one block is kept exactly when it is not whitespace only |
| Headers.BlankPieces | components/StoryDisplay.tsx:96 | if the blocks concatenate to whitespace, each block is whitespace only |
| Headers.NoHeaderOneBlock | components/StoryDisplay.tsx:96 | a text with no header after its first character is a single block |
| SceneBlock.TitleOf | components/StoryDisplay.tsx:100 | a title is never empty and never holds `**` |
| SceneBlock.TitleKeepsText | components/StoryDisplay.tsx:100 | when the trimmed first line holds a character other than `*`, the title keeps every such character in order; the title is the placeholder exactly when nothing is left once the `**` are removed, and otherwise it is what is left, a lone `*` included (the `\|\|` fallback) |
| SceneBlock.TitleOfBoldLine | components/StoryDisplay.tsx:100 | a header line `**t**` with a non-empty, star-free `t` is titled `t` |
| SceneBlock.SceneOf | components/StoryDisplay.tsx:99-105 | a kept scene has a non-empty, trimmed content and a non-empty title without `**` |
| SceneBlock.SceneOfLines | components/StoryDisplay.tsx:99-105 | when the trimmed block is a first line, a line break and the rest, the block gives no scene exactly when the rest is blank; otherwise its scene has the first line's title and the rest, trimmed, as content |
| SceneBlock.SingleLineNoScene | components/StoryDisplay.tsx:99-103 | a block that is a single line once trimmed gives no scene |
| SceneBlock.BlankBlockNoScene | components/StoryDisplay.tsx:99-105 | a whitespace-only block gives no scene |
| Scenes.Collect | components/StoryDisplay.tsx:98-106 | there are no more scenes than blocks |
| Scenes.CollectOne | components/StoryDisplay.tsx:98-106 | one block gives its own scene when it has one, and nothing otherwise |
| Scenes.CollectAppend | components/StoryDisplay.tsx:98-106 | scenes keep block order: the scenes of two runs of blocks are the scenes of the first, then those of the second |
| Scenes.CollectWellFormed | components/StoryDisplay.tsx:98-106 | every scene is well formed and comes from one of the blocks |
| Scenes.ScenesWellFormed | components/StoryDisplay.tsx:92-108 | every scene of a story has a non-empty, trimmed content and a non-empty title without `**` |
| Scenes.CollectNonBlank | components/StoryDisplay.tsx:96-106 | dropping the blank blocks drops no scene |
| Scenes.StoryScenesAllBlocks | components/StoryDisplay.tsx:92-108 | the scenes of a story are those of all its blocks, in order: neither the early return nor the filter changes the result |
| Scenes.BlankTextNoScenes | components/StoryDisplay.tsx:93-96 | an empty or whitespace-only story has no scene, and the general path would give none either |
| Scenes.NoHeaderAtMostOneScene | components/StoryDisplay.tsx:96-106 | a story with no header after its first character has one scene at most |
| Scenes.ParseStoryToScenes | components/StoryDisplay.tsx:92-108 | the loop returns exactly the scenes of the non-blank blocks, in order, each of them well formed |
| Render.RenderContent | components/StoryDisplay.tsx:128-214 | loading wins, then a non-empty error; an empty story gives the "no story" view; a non-empty story with no scene is shown whole through the markdown parser; otherwise there is one card per scene, in order |
| Render.BlankStoryShowsEmptyText | components/StoryDisplay.tsx:153-163 | a whitespace-only story is shown whole, which renders no block |
| Render.CardsNotEmpty | components/StoryDisplay.tsx:195-202 | every scene card has a title without `**` and a body of at least one block |

## Left out

- The React element construction (JSX, `key` strings, class names and styling) is not modelled. Runs, blocks, scene cards and views are plain datatypes.
- `handleShare`, the clipboard, `setTimeout`, `alert`, and the `isCopied` state with its effect are left out. They are I/O and presentation.
- `services/geminiService.ts`, `App.tsx` and the other UI components are not part of this model. They are calls into a foreign client, routing and markup.
- Strings are sequences of Unicode code points, while JavaScript strings are UTF-16 code units. Every delimiter the parsers look for is in the Basic Multilingual Plane, so only the lengths of texts with astral characters differ.
- `split` is modelled without its limit of 2^32 − 1 pieces.
- The regular expressions are modelled as scanners; no general regular-expression engine is modelled.

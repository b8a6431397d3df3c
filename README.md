# Caption chunking and timing, in Dafny

This project models the caption engine of a short-form captioned video tool. It covers
three parts and proves properties about them:

- **The offline SRT converter** (`convertSRTtoJSON` in `convert-srt.js`). It turns the text
  of an SRT subtitle file into a list of captions. Each caption carries its text, its
  start and end in milliseconds, and "tokens": chunks of one or two words, each with its
  own time window.
- **The runtime grouper** (`src/CaptionedVideo/index.tsx`). It turns the fetched caption
  list into pages of timed chunks. It either pairs short words ("smart" grouping) and
  shares each caption's time out evenly, or adapts the tokens the converter already wrote.
  It also derives the caption file's name from the video's name.
- **Active-token selection** (`src/CaptionedVideo/Page.tsx`). It picks the chunk a page
  shows at a given moment.

Files and modules:

| file | module | contents |
|---|---|---|
| `text.dfy` | `Text` | JavaScript string primitives: the `\s` whitespace class, `trim`, `split` on a literal, `split(/\s+/)`, `join`, decimal digits |
| `captions.dfy` | `Captions` | `Option`, the token, page-token and page records, the half-open window test |
| `timing.dfy` | `Timing` | the floor boundaries `startMs + floor(i * D / n)`; tiling, ordering and coverage of the windows |
| `srt_time.dfy` | `SrtTime` | `parseSRTTime` |
| `convert_srt.dfy` | `ConvertSrt` | line endings, block split, cue parsing, tag stripping, fixed pairing (the `for` loop as a method), token timing, the whole converter |
| `captioned_video.dfy` | `CaptionedVideo` | `createSmartChunks` (the `while` loop as a method), `createSmartTikTokCaptions` (the `for` loop as a method), pre-baked token adaptation, the `useMemo` choice, `subtitlesFile` |
| `page.dfy` | `ActivePage` | `page.tokens.find(...)` and what it selects |

Modelling choices:

- **Integers.** Times are unbounded integers. A time boundary is the exact floor
  `(i * D) / n`. For a positive divisor, Dafny's `/` is the floor, as `Math.floor` is.
- **Strings.** Strings are sequences of Unicode characters (see `CaptionedVideo.ShortPair`
  and `CaptionedVideo.SubtitlesFile` under Left out for where JavaScript's UTF-16 code units
  differ).
- **Not-a-number.** A timestamp that does not decode gives `None`, which stands for
  JavaScript's not-a-number. A cue whose times do not decode is kept with not-a-number
  times, as `convertSRTtoJSON` does (convert-srt.js:37-40): only the two structural checks
  drop a cue. Every token time computed from a not-a-number time is not-a-number too.
- **Pre-baked tokens.** The component adapts pre-baked tokens when the first fetched caption
  carries a `tokens` list, even an empty one: an empty `tokens` array is truthy, so it still
  selects the pre-baked path (index.tsx:164).
- **Missing tokens.** A later caption without tokens makes `caption.tokens!.map` throw. The
  model gives `None` for the whole page list.

## Model

| member | source | states |
|---|---|---|
| Text.SplitWs | src/CaptionedVideo/index.tsx:58 | `split(/\s+/)` always gives at least one field, and no field holds whitespace |
| Text.SplitWsNoWs | src/CaptionedVideo/index.tsx:58 | text without whitespace is one field |
| Text.SplitWsRun | src/CaptionedVideo/index.tsx:58 | a whole run of whitespace, of any length and any mix of spaces, tabs and line feeds, separates the field before it from the rest; a leading run gives an empty first field and a trailing run an empty last field |
| Text.SplitWsJoin | convert-srt.js:44 | splitting on whitespace undoes joining whitespace-free, non-empty words with single spaces |
| Text.NonEmpty | convert-srt.js:44 | the `filter(w => w.length > 0)` result is no longer than the input, and a word is in it exactly when it is a non-empty word of the input |
| Text.NonEmptySingle | convert-srt.js:44 | the filter keeps a single word exactly when it is not empty |
| Text.NonEmptyAppend | convert-srt.js:44 | the filter works piece by piece, so it keeps every non-empty word in order and drops exactly the empty ones |
| Text.NonEmptyAllEmpty | convert-srt.js:44 | a list of empty words filters to nothing |
| Text.NonEmptyKeeps | convert-srt.js:44 | the filter keeps a list of non-empty words unchanged |
| Text.SplitWsBlank | convert-srt.js:44 | `split(/\s+/)` of whitespace only gives only empty fields |
| Text.Trim | convert-srt.js:23 | `trim()` never lengthens the text, and its result starts and ends with a non-whitespace character unless it is empty |
| Text.TrimAround | convert-srt.js:23 | `trim()` removes exactly the whitespace around the text: whitespace, then a middle that starts and ends with another character, then whitespace, gives the middle |
| Text.SplitOn | convert-srt.js:26 | `split(sep)` always gives at least one piece |
| Text.JoinSplitOn | convert-srt.js:26 | joining the pieces of `split(sep)` with `sep` gives back the string |
| Text.SplitOnJoin | convert-srt.js:26 | splitting on a one-character separator undoes `join` of pieces that do not contain it |
| Text.JoinAppend | convert-srt.js:41 | `join(sep)` of two non-empty lists is the two joins with `sep` between |
| Text.JoinSpBlank | convert-srt.js:41 | `join(' ')` of whitespace-only lines is whitespace only |
| SrtTime.ParseSrtTime | convert-srt.js:9-15 | a decoded timestamp is never negative |
| SrtTime.ParseSrtTimeFields | convert-srt.js:9-15 | `HH:MM:SS,mmm` with digit fields decodes to `((H*3600 + M*60 + S)*1000) + mmm` |
| SrtTime.ParseFieldsClock | convert-srt.js:13-14 | `ParseFields` combines the comma pieces `[HH:MM:SS, mmm]` by the `Millis` formula `((H*3600 + M*60 + S)*1000) + mmm` |
| SrtTime.ParseSrtTimeExample | convert-srt.js:9-15 | `"00:01:02,500"` decodes to 62500 |
| SrtTime.ParseSrtTimeNoComma | convert-srt.js:12-14 | a timestamp with no `,` after trimming gives not-a-number |
| ConvertSrt.ReplaceCrLf | convert-srt.js:20 | `replace(/\r\n/g, '\n')` never lengthens the text |
| ConvertSrt.ReplaceCrLfSplit | convert-srt.js:20 | each `"\r\n"` becomes exactly one `'\n'` wherever it stands, and the text on either side is replaced on its own |
| ConvertSrt.ReplaceCrLfPlain | convert-srt.js:20 | text without `'\r'` is left unchanged by the first replacement |
| ConvertSrt.ReplaceCr | convert-srt.js:20 | every `'\r'` becomes `'\n'`; every other character and the length stay the same |
| ConvertSrt.NormalizeLineEndings | convert-srt.js:20 | no `'\r'` is left after normalisation |
| ConvertSrt.NormalizeIsLineFeeds | convert-srt.js:20 | the two chained replacements equal a one-pass reading: `"\r\n"` and a lone `'\r'` each become one `'\n'` |
| ConvertSrt.LineFeedsAppend | convert-srt.js:20 | the one-pass reading works piece by piece at any cut that does not fall after a `'\r'` |
| ConvertSrt.LineFeedsAppendNoLf | convert-srt.js:20 | the one-pass reading works piece by piece at any cut whose second piece does not start with `'\n'` |
| ConvertSrt.LineFeedsCrLf | convert-srt.js:20 | each `"\r\n"` becomes exactly one `'\n'`, whatever precedes it |
| ConvertSrt.NormalizeUnchanged | convert-srt.js:20 | content without `'\r'` is left unchanged |
| ConvertSrt.SplitBlocks | convert-srt.js:23 | `split(/\n\n+/)` gives at least one block |
| ConvertSrt.SplitBlocksRun | convert-srt.js:23 | a whole run of two or more line feeds after a well-formed block separates it from the rest, as the greedy `\n\n+` consumes the run; a run at the end gives an empty last block |
| ConvertSrt.SplitBlocksJoin | convert-srt.js:23 | splitting on blank-line runs undoes joining well-formed blocks with one blank line |
| ConvertSrt.ConvertWellFormed | convert-srt.js:19-25 | a trimmed, line-feed-only document of well-formed blocks gives the captions of exactly those blocks, in order |
| ConvertSrt.StripTags | convert-srt.js:41 | `replace(/<[^>]+>/g, '')` never lengthens the text, and adds no character it did not have |
| ConvertSrt.StripTagsAround | convert-srt.js:41 | a tag `<t>` with non-empty t is removed whole, and the text before it, which has no `'<'`, is kept |
| ConvertSrt.StripTagsNoTags | convert-srt.js:41 | after stripping, no tag is left |
| ConvertSrt.StripTagsFixed | convert-srt.js:41 | text without tags is left unchanged |
| ConvertSrt.StripTagsIdempotent | convert-srt.js:41 | stripping twice is stripping once |
| ConvertSrt.StripTagsPlain | convert-srt.js:41 | text without `'<'` is left unchanged |
| ConvertSrt.PairChunks | convert-srt.js:45-51 | the `i += 2` loop pushes exactly the fixed pairs of the words |
| ConvertSrt.PairChunksStep | convert-srt.js:48-51 | the chunks from cursor i start with `words.slice(i, i + 2).join(' ')` and resume at i + 2 |
| ConvertSrt.FixedPairsShape | convert-srt.js:48-51 | `FixedPairs` (the loop's result): there are `ceil(w/2)` chunks; chunk k is words 2k and 2k+1 joined by a space; an odd word count ends with the last word alone |
| ConvertSrt.FixedPairsJoin | convert-srt.js:44-51 | joining the chunks with spaces gives the words joined with spaces |
| ConvertSrt.FixedPairsExample | convert-srt.js:44-51 | `"a b c d e"` gives `["a b", "c d", "e"]` |
| ConvertSrt.ChunkTokensParts | convert-srt.js:53-61 | `ChunkTokens`: tokens carry the chunks in order. With numeric caption times they sit in the floor windows of the span; otherwise every token time is not-a-number |
| ConvertSrt.ChunkTokensTiming | convert-srt.js:53-61 | with numeric caption times the tokens are all timed, tile `[startMs, endMs)` when there is at least one, have lengths that add up to the duration, and are ordered when `startMs <= endMs`; otherwise every token time is not-a-number |
| ConvertSrt.CueWords | convert-srt.js:44 | every word found is non-empty and holds no whitespace |
| ConvertSrt.CueWordsJoin | convert-srt.js:44 | the words of non-empty, whitespace-free words joined with single spaces are those words again |
| ConvertSrt.CueWordsBlank | convert-srt.js:44 | whitespace has no words |
| ConvertSrt.TimePiecesSplit | convert-srt.js:35 | a timing line gives the text before its first `" --> "` as the start, and the text from there up to the next `" --> "` or the line's end as the end, whatever spaces or position coordinates either holds |
| ConvertSrt.TimePiecesNoArrow | convert-srt.js:35 | a line without `" --> "` gives the whole line as the start and no end |
| Text.SplitOnHead | convert-srt.js:35 | the first piece of `split(sep)` is the text before the first `sep` |
| ConvertSrt.ParseCueDropped | convert-srt.js:26-37 | `ParseCue` (the block callback): a block gives no caption exactly when it has fewer than 3 lines, or its second line lacks a non-empty start or end around `" --> "` |
| ConvertSrt.ParseCueCaption | convert-srt.js:25-69 | `ParseCue`: a kept block's caption has confidence 1, the stripped space-joined text lines, the decoded start and end, and the fixed pairs of its words (count `ceil(w/2)`, join round trip, no words exactly when no tokens) |
| ConvertSrt.ParseCueTiming | convert-srt.js:53-61 | with numeric times the tokens tile `[startMs, endMs)`, their durations add up to the caption's, and they are ordered when `startMs <= endMs`; with a not-a-number time, every token time is not-a-number |
| ConvertSrt.ParseCueTextPlain | convert-srt.js:33-41 | text lines without `'<'` give exactly the lines joined with single spaces |
| ConvertSrt.ParseCueNoWords | convert-srt.js:44-61 | text with no words gives no tokens (no division by zero) |
| ConvertSrt.ParseCueBlankText | convert-srt.js:33-61 | text lines that are empty or whitespace only give whitespace text and no tokens |
| ConvertSrt.Map | convert-srt.js:25 | `map` keeps the length and applies the function at every index |
| ConvertSrt.Somes | convert-srt.js:70 | `filter(Boolean)` never lengthens the list |
| ConvertSrt.SomesMembers | convert-srt.js:70 | `filter(Boolean)` keeps exactly the present values |
| ConvertSrt.SomesAppend | convert-srt.js:70 | `filter(Boolean)` distributes over concatenation, so order is kept |
| ConvertSrt.ConvertSrtToJsonCaptions | convert-srt.js:17-70 | `convertSRTtoJSON` writes at most one caption per block, and a caption exactly when some block parses to it |
| ConvertSrt.CollectAppend | convert-srt.js:25-70 | `Collect` (`map` then `filter(Boolean)`): the captions of two runs of blocks are the captions of each, in source order |
| ConvertSrt.DropOne | convert-srt.js:70 | a dropped block removes nothing else and reorders nothing |
| Timing.Spans | convert-srt.js:57-61 | one window per chunk |
| Timing.OffsetLast | convert-srt.js:60 | the last boundary is exact: `floor(n * D / n) == D` |
| Timing.OffsetMonotone | convert-srt.js:59-60 | for a non-negative duration the boundaries never go backwards |
| Timing.SpansTile | convert-srt.js:57-61 | the first window starts at `startMs`, each ends where the next starts, and the last ends at `endMs` |
| Timing.SpansOrdered | convert-srt.js:54-61 | when `startMs <= endMs`, every window has `lo <= hi` and the starts never decrease |
| Timing.TilesTotal | convert-srt.js:53-61 | the window lengths of a tiling add up to `endMs - startMs` |
| Timing.TilesCover | src/CaptionedVideo/index.tsx:101-105 | every instant of `[startMs, endMs)` lies in some window of a tiling |
| CaptionedVideo.SmartGroupCount | src/CaptionedVideo/index.tsx:62-76 | for n words there are between `ceil(n/2)` and n chunks |
| CaptionedVideo.SmartChunks | src/CaptionedVideo/index.tsx:57-79 | the cursor loop pushes exactly the greedy short-pair grouping of the whitespace split |
| CaptionedVideo.SmartGroupPairStep | src/CaptionedVideo/index.tsx:67-70 | when word i + 1 exists and is non-empty and both words are at most 3 characters, the grouping from cursor i starts with the two words joined by a space and resumes at i + 2 |
| CaptionedVideo.SmartGroupSingleStep | src/CaptionedVideo/index.tsx:71-74 | otherwise the grouping from cursor i starts with word i alone and resumes at i + 1 |
| CaptionedVideo.SmartGroupJoin | src/CaptionedVideo/index.tsx:57-78 | joining the chunks with spaces gives the split words joined with spaces |
| CaptionedVideo.SmartGroupSplit | src/CaptionedVideo/index.tsx:57-78 | splitting the joined chunks on whitespace gives back the words |
| CaptionedVideo.SmartGroupChunks | src/CaptionedVideo/index.tsx:62-75 | `SmartGroup` (the loop's result): each chunk is one of the words, or two adjacent words that pass the test (next non-empty, both at most 3 characters) joined by a space |
| CaptionedVideo.SmartGroupMaximal | src/CaptionedVideo/index.tsx:67 | no two neighbouring single-word chunks pass the pairing test: the greedy walk misses no pair |
| CaptionedVideo.SmartGroupSingles | src/CaptionedVideo/index.tsx:67-74 | where no neighbouring words are both short, every word is its own chunk |
| CaptionedVideo.SmartGroupAllShort | src/CaptionedVideo/index.tsx:67-70 | where every word is non-empty and short, smart grouping equals the converter's fixed pairing |
| CaptionedVideo.SmartGroupExample | src/CaptionedVideo/index.tsx:57-79 | `"I am so very happy today"` gives `["I am", "so", "very", "happy", "today"]` |
| CaptionedVideo.SmartPages | src/CaptionedVideo/index.tsx:91-114 | one page per caption |
| CaptionedVideo.CreateSmartTikTokCaptions | src/CaptionedVideo/index.tsx:82-117 | the loop pushes, in order, the smart page of each caption |
| CaptionedVideo.PageTokensParts | src/CaptionedVideo/index.tsx:99-105 | the page tokens carry the chunks in order, each in its floor window of the caption |
| CaptionedVideo.SmartPageShape | src/CaptionedVideo/index.tsx:91-113 | `SmartPage`: a page keeps its caption's text, start and end, with `durationMs = endMs - startMs`. It has at least one token. Its token texts join to the split words. Its windows tile the span, add up to the duration, and are ordered when `startMs <= endMs` |
| CaptionedVideo.AdaptCaption | src/CaptionedVideo/index.tsx:168-178 | a caption gives a page exactly when it carries tokens |
| CaptionedVideo.AdaptAll | src/CaptionedVideo/index.tsx:168-178 | the adapted list exists exactly when every caption carries tokens, and has one page per caption |
| CaptionedVideo.AdaptCaptionInverse | src/CaptionedVideo/index.tsx:168-178 | `AdaptToken`: renaming `startMs`/`endMs` to `fromMs`/`toMs` loses nothing: reading the page tokens back gives the caption's tokens, in order |
| CaptionedVideo.BuildPagesShape | src/CaptionedVideo/index.tsx:162-183 | `BuildPages` (the `useMemo` body): the choice is made once, from the first caption. Pages keep count, order, text and span. The pre-baked path keeps every token as it is; the other path is the smart grouper. No pages exactly when the first caption has tokens and some caption lacks them |
| CaptionedVideo.ConverterOutputPages | src/CaptionedVideo/index.tsx:164-179 | the converter's output with numeric times takes the pre-baked path and shows exactly the converter's chunks and windows |
| CaptionedVideo.SubtitlesFileMatched | src/CaptionedVideo/index.tsx:132-136 | `SubtitlesFile`, the four chained `ReplaceLoose` calls: a name ending in any non-line-terminator character followed by `mp4`, `mkv`, `mov` or `webm` gets that suffix replaced by `.json`, and no other replacement applies |
| CaptionedVideo.SubtitlesFileUnmatched | src/CaptionedVideo/index.tsx:132-136 | every other name is unchanged |
| CaptionedVideo.SubtitlesFileLooseDot | src/CaptionedVideo/index.tsx:133 | `"clipmp4"` becomes `"cli.json"` |
| CaptionedVideo.JsonFileNameMatched | src/CaptionedVideo/index.tsx:132-136 | `JsonFileName`, the corrected name: with the dots escaped, `name.ext` becomes `name.json` for the four extensions |
| CaptionedVideo.JsonFileNameUnmatched | src/CaptionedVideo/index.tsx:132-136 | with the dots escaped, a name without one of the four dotted extensions is unchanged |
| CaptionedVideo.JsonFileNameStrict | src/CaptionedVideo/index.tsx:133 | with the dots escaped, `"clipmp4"` keeps its name |
| ActivePage.FirstActive | src/CaptionedVideo/Page.tsx:17-19 | the index found is the first whose window `[fromMs, toMs)` contains t, or the list length when there is none |
| ActivePage.ActiveToken | src/CaptionedVideo/Page.tsx:17-19 | a token found contains t; no token is found exactly when no window contains t |
| ActivePage.ActiveTokenFirst | src/CaptionedVideo/Page.tsx:17-19 | the token found is the first in list order whose window contains t |
| ActivePage.ActiveTokenUnique | src/CaptionedVideo/Page.tsx:16-19 | with non-overlapping windows, any token containing t is the one found |
| ActivePage.OrderedTilesDisjoint | src/CaptionedVideo/Page.tsx:16-19 | ordered, contiguous windows do not overlap |
| ActivePage.ActiveTokenBoundary | src/CaptionedVideo/Page.tsx:18 | at `t == tokens[k].toMs` token k is not shown; with ordered, contiguous windows, a non-empty token k+1 is |
| ActivePage.SmartPageCovered | src/CaptionedVideo/Page.tsx:17-19 | a smart page shows a token at every moment of its caption, and that token is the only one containing the moment |
| ActivePage.SmartPageOutside | src/CaptionedVideo/Page.tsx:17-19 | outside its caption's span, a smart page shows nothing |

## Left out

- Reading the SRT file, writing the JSON, `JSON.stringify`, `fs.existsSync`, `process.exit`
  and logging (convert-srt.js:19, 72-86) are I/O. The converter is a function from the file's
  content to the caption list.
- Fetching, `loadFont`, `watchStaticFile`, the render handles, React state and effects, and
  all JSX rendering (index.tsx:128-160, 185-200; Page.tsx:21-52) are framework plumbing. So
  is the reload race between overlapping fetches, which is concurrency.
- `getFileExists` depends on the external static file list. `calculateCaptionedVideoMetadata`
  depends on external video metadata and floating point.
- The frame-to-milliseconds conversion `(frame / fps) * 1000` is floating point. Time is an
  integer parameter instead.
- `SubtitlePage.tsx` is a JSX wrapper around `Page`; it is not part of this model.
- SrtTime.ParseSrtTime: it decodes a field only when it is a non-empty string of decimal
  digits. Otherwise it gives not-a-number. JavaScript's `Number` and `parseInt` coercions
  are not modelled: `Number("")` is 0, `Number` accepts surrounding whitespace, signs,
  decimals and hexadecimal, and `parseInt` reads a digit prefix.
- Timing.Spans: the boundaries are the exact floor `(i * D) / n`. The code computes
  `D / n` in floating point first and multiplies after, so IEEE-754 rounding can move a
  boundary by one millisecond.
- CaptionedVideo.ShortPair: a word's length counts characters. JavaScript counts UTF-16
  code units, so a character outside the Basic Multilingual Plane counts twice there.
- CaptionedVideo.SubtitlesFile: the `.` of `/.mp4$/` matches one character here. Without
  the `u` flag, JavaScript's `.` matches one UTF-16 code unit, so for a name such as
  `"🎬mp4"` the code replaces only the low surrogate and gives `"\uD83C.json"`, where the
  model gives `".json"`.
- CaptionedVideo.ConverterOutputPages: it requires numeric times. The JSON file writes a
  not-a-number time as `null`, and how the component reads `null` back is not modelled.
- CaptionedVideo.Caption: it keeps only the fields the component reads (`text`, `startMs`,
  `endMs`, `tokens`); `timestampMs` and `confidence` are not read.
- CaptionedVideo.BuildPages: it takes a list, so a fetched `null` (`res.json()` of the text
  `null`) is not a separate input. It needs none: `null` fails the first test and
  `subtitles ?? []` gives no pages, exactly what `BuildPages([])` gives. A thrown
  `TypeError` is modelled as `None`.
- The regular expressions are modelled as hand-written scanners: `\s` over the ECMAScript
  whitespace and line-terminator characters, `<[^>]+>`, `\n\n+`, and `.ext$` with `.` not
  matching a line terminator.

## Findings

| source | as written | input that shows it | evidently intended | confidence | as-written member | corrected member |
|---|---|---|---|---|---|---|
| src/CaptionedVideo/index.tsx:133-136 | the patterns `/.mp4$/` etc. leave the dot unescaped, so any character may stand before the extension | `"clipmp4"` (no extension) becomes `"cli.json"` | replace only a literal `.mp4`, `.mkv`, `.mov` or `.webm` extension (`/\.mp4$/`), leaving `"clipmp4"` unchanged | medium, not executed | CaptionedVideo.SubtitlesFileLooseDot | CaptionedVideo.JsonFileNameStrict |

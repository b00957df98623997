# Content chunking and reply splitting, modelled in Dafny

The content-improvement tool sends web pages to a hosted language model for
accessibility, clarity and audience reviews. Before any page goes to the model
it is cut into pieces of bounded size. After the model answers, the reply text
is cut into list items. This project models those two steps and proves what
they guarantee:

- **Markup block chunker** (`chunk_html_script`, module `MarkupChunker`). It
  walks the `<head>` and `<body>` children of `<html>`. Each
  `section`/`div`/`article`/`li` child of those becomes one chunk, the
  element's serialization, when it fits the token budget. A block over the
  budget is handed to a deeper splitter, and its output takes the block's place.
- **Text block chunker** (`get_text_chunks`, module `TextChunker`). It finds
  the first `<main>` element, or else the first `<body>`. It takes the text of
  each `section`/`div`/`article` child of that region. It skips blocks whose
  class names or id equal a navigation/footer keyword, and blocks with no text.
  It then keeps only the first copy of each text.
- **Streamed reply assembly** (the event loop of `get_pred`, module
  `StreamReply`). Each event containing `delta` and the key `text":`
  contributes the text that starts 7 characters after the first `text":` and
  ends 3 characters before the end of the event. The escaped newlines and
  quotes in that text are undone, and each bullet is put on its own line.
- **Word-window chunker** (`chunk_text`, module `WordChunks`). It cuts a text
  into runs of `chunk_size` words.
- **Reply-to-list splitters** (modules `AudienceLines` and `TableSplit`).
  `AudienceLines` models the newline split of the audience page's positives and
  challenges. `TableSplit` models the bracket-strip and `" , "` split of the
  suggestion table.

Three supporting modules carry the shared vocabulary:

- `Seqs`: optional values, flattening, selection by a mask, and
  first-occurrence de-duplication.
- `PyStr`: Python's `strip`, `in`, `index`, `split`, `join`, `replace` and
  slicing on `seq<char>`.
- `Dom`: the parse tree, plus BeautifulSoup's `find` and
  `find_all(..., recursive=False)`. An element keeps its tag, class names,
  id, its other attributes and its children; text and comments are separate
  kinds of node. So two blocks that differ only in an attribute such as `alt`
  or `href` can have different serializations, and a comment need not
  contribute to an element's text.

The two chunkers are loops that append to a list, and the reply loop grows a
string with `+=`.
Each is written as Dafny methods with loop invariants, proved equal to a
specification function. The lemmas then state their properties about that
function. The three splitters are single expressions in the source and are
modelled as functions.

The parser's serialization of an element, the HTML-to-text extraction and the
token counter are parameters. So is the deeper splitter `chunk_element`.
Their code is not part of this model. Most lemmas hold for any of them. A few
assume something about them in their `requires`: `MarkupChunker.BudgetHolds`
and `MarkupChunker.NoEmptyBlockChunk` about `chunk_element`, and
`TextChunker.OneShortBlock`, `TextChunker.SiblingDuplicatesCollapse` and
`TextChunker.TwoPlainBlocks` about the text extraction.

## Model

| member | source | states |
|---|---|---|
| MarkupChunker.ChunkHtmlScript | appending_prompts_code_accessibility.py:24-56 | on a page with an `<html>` element, the nested loops return exactly the chunks of the block children of that element's `<head>`/`<body>` children, in document order |
| MarkupChunker.ExtendWithBlocks | appending_prompts_code_accessibility.py:45-54 | the inner loop appends, in order, each block's contribution to the list built so far: nothing for an empty serialization, the serialization when within budget, otherwise the deeper splitter's chunks |
| MarkupChunker.CandidatesAreDirectBlocks | appending_prompts_code_accessibility.py:43-45 | an element is visited iff it is a section/div/article/li that is a direct child of a head/body element that is itself a direct child of `<html>`; nothing deeper is visited |
| MarkupChunker.ContributionIsContiguous | appending_prompts_code_accessibility.py:43-54 | the output is the chunks of the blocks before a block, then that block's own chunks, then those of the blocks after it |
| MarkupChunker.MarkupChunksMembers | appending_prompts_code_accessibility.py:46-54 | a string is a chunk iff some visited block has a non-empty serialization that either is the string and has at most `max_tokens` tokens, or has more tokens and the deeper splitter emits the string for that block |
| MarkupChunker.BudgetHolds | appending_prompts_code_accessibility.py:50-54 | if the deeper splitter keeps to the budget, every chunk has at most `max_tokens` tokens |
| MarkupChunker.NoEmptyBlockChunk | appending_prompts_code_accessibility.py:46-48 | an empty serialization is never emitted as a chunk of its own; an empty chunk can only come from the deeper splitter |
| MarkupChunker.NoBlocksNoChunks | appending_prompts_code_accessibility.py:40-56 | a page with no block under its head/body gives the empty list |
| MarkupChunker.SingleBlockAtBudget | appending_prompts_code_accessibility.py:50-51 | a single block whose token count equals the budget gives exactly one chunk, its serialization (the test is `<=`) |
| MarkupChunker.ChunksOfMember | appending_prompts_code_accessibility.py:45-54 | membership in the chunks of a list of blocks is membership in the contribution of one of them |
| MarkupChunker.ChunksOfAppend | appending_prompts_code_accessibility.py:43-54 | the chunks of two consecutive runs of blocks are the chunks of the first run followed by those of the second |
| MarkupChunker.MarkupChunks | appending_prompts_code_accessibility.py:24-56 | the chunk list of a page's `<html>` element: the contributions of its visited blocks, in order |
| MarkupChunker.Candidates | appending_prompts_code_accessibility.py:43-45 | the visited blocks: the block children of each `<head>`/`<body>` child of `<html>`, in turn |
| MarkupChunker.TopLevels | appending_prompts_code_accessibility.py:43 | the `<head>` and `<body>` children of `<html>`, in order |
| MarkupChunker.BlocksOf | appending_prompts_code_accessibility.py:45 | the `section`/`div`/`article`/`li` children of one top-level element, in order |
| MarkupChunker.BlocksUnder | appending_prompts_code_accessibility.py:43-45 | the blocks of each top-level element, one element after the other |
| MarkupChunker.Contribution | appending_prompts_code_accessibility.py:46-54 | one block's chunks: none for an empty serialization, the serialization when within budget, else the deeper splitter's chunks |
| MarkupChunker.ChunksOf | appending_prompts_code_accessibility.py:45-54 | the contributions of a run of blocks, one after the other |
| TextChunker.GetTextChunks | utils.py:60-93 | the procedure returns `TextChunks` of the page, and nothing in the case where the page has no region to search (the Python raises) |
| TextChunker.CollectTexts | utils.py:72-81 | the first loop returns, in order, the non-empty texts of the blocks that are not boilerplate |
| TextChunker.UniqueChunks | utils.py:84-89 | the `seen`-set loop returns the first-occurrence de-duplication of its input |
| TextChunker.RegionIsMainElseBody | utils.py:65-67 | the region is the first `<main>` in document order; only when there is none is it the first `<body>`; there is no region iff the page has neither |
| TextChunker.NoRegionIsError | utils.py:65-72 | the chunk list is missing iff the page has neither a `<main>` nor a `<body>` |
| TextChunker.TextChunksMembers | utils.py:72-81 | a text is a chunk iff it is the non-empty text of a section/div/article child of the region that is not boilerplate |
| TextChunker.TextChunksAreFirstCopies | utils.py:84-89 | the chunks have no duplicates, are exactly the first occurrences of the collected texts at their positions, and are ordered by first occurrence |
| TextChunker.BoilerplateIsExactMatch | utils.py:74-76 | a block is boilerplate iff one of its class names, or its id, equals nav, navbar, footer or sidebar |
| TextChunker.ContainingAKeywordIsNotBoilerplate | utils.py:74-76 | a block classed `main-nav` is not boilerplate: the keyword test is list membership, not substring |
| TextChunker.BlockText | utils.py:74-81 | a block contributes at most one text, and none iff it is boilerplate or its text is empty |
| TextChunker.BlockTextsMember | utils.py:72-81 | a text is collected iff some non-boilerplate block has it as its non-empty text |
| TextChunker.OneShortBlock | utils.py:60-93 | `<main><div>short text</div></main>` gives the single chunk `short text` |
| TextChunker.SiblingDuplicatesCollapse | utils.py:84-89 | two sibling divs with the same text give one chunk |
| TextChunker.TwoPlainBlocks | utils.py:72-81 | two non-boilerplate block children with the same non-empty text collect that text twice before de-duplication |
| TextChunker.TextChunks | utils.py:60-93 | the chunk list of a page: the first-occurrence de-duplication of the texts of the region's block children, or nothing when there is no region |
| TextChunker.Region | utils.py:65-67 | the region searched: the first `<main>`, else the first `<body>` |
| TextChunker.IsBoilerplate | utils.py:74-76 | a block is boilerplate when a keyword equals one of its class names or its id |
| TextChunker.Markers | utils.py:75 | the class names followed by the id, or `""` when there is no id; a string is a marker iff it is a class name or that id |
| TextChunker.BlockTexts | utils.py:72-81 | the texts the first loop collects, block by block, in order |
| StreamReply.ExtractReply | utils.py:35-50 | the accumulator loop returns the concatenation of the events' contributions in stream order, `""` for an empty stream |
| StreamReply.ReplyTextAppend | utils.py:37-46 | the reply of a stream cut in two is the reply of the first part followed by that of the second |
| StreamReply.ContributionCases | utils.py:39-48 | an event without `delta` or without `text":` adds nothing; otherwise it adds the unescaped text from 7 characters after the first `text":` up to 3 characters before the end |
| StreamReply.SliceWindow | utils.py:42 | `x[7:-3]` is the window between the first seven and last three characters, and empty when `x` has fewer than ten |
| StreamReply.NoEscapedNewlineLeft | utils.py:43-45 | no backslash-`n` pair survives in an event's contribution |
| StreamReply.BulletsOnTheirOwnLine | utils.py:45 | every bullet of an event's contribution has a newline immediately before and after it |
| StreamReply.ReplyBulletsOnTheirOwnLine | utils.py:45-46 | the same holds for the whole reply |
| StreamReply.NoDeltaNoReply | utils.py:37-39 | a stream with no `delta` event gives the empty reply |
| StreamReply.ReplyText | utils.py:35-50 | the reply of a stream: its events' contributions concatenated in order |
| StreamReply.Contribution | utils.py:39-46 | one event's addition: nothing without `delta` or without `text":`, else the unescaped `[7:-3]` slice from the first key on |
| StreamReply.Unescape | utils.py:43-45 | the three replacements in order: backslash-`n` to newline, backslash-quote to quote, bullet to newline-bullet-newline |
| StreamReply.Contributions | utils.py:37-45 | each event's contribution, position by position |
| WordChunks.GroupsFlatten | app.py:22 | the word windows, concatenated, are the word list |
| WordChunks.GroupsSizes | app.py:22 | each window has 1 to `chunk_size` words, and all but the last exactly `chunk_size` |
| WordChunks.GroupsCount | app.py:22 | the number of windows c is the ceiling of words / `chunk_size`, stated as: (c-1)·n < words <= c·n, and c = 0 iff there are no words |
| WordChunks.GroupsAreWindows | app.py:22 | the k-th window is `words[k*n : k*n+n]`, as in the comprehension over `range(0, len(words), n)` |
| WordChunks.ChunkWords | app.py:21-22 | splitting a chunk on whitespace gives back exactly the words of its window |
| WordChunks.ChunkSizes | app.py:22 | every chunk has 1 to `chunk_size` words, and all but the last exactly `chunk_size` |
| WordChunks.ChunkRoundTrip | app.py:21-22 | the words of the chunks, concatenated in order, are `text.split()` |
| WordChunks.ChunkCount | app.py:20-22 | there are ceil(words / `chunk_size`) chunks, and none iff the text is empty or whitespace |
| WordChunks.ChunkText | app.py:20-22 | `chunk_text`: each word window joined with single spaces; `None` for a size of 0 (the range raises) and no chunks for a negative size |
| WordChunks.Groups | app.py:22 | the word windows `words[i:i+n]` for `i` in `range(0, len(words), n)`, front to back |
| WordChunks.JoinEach | app.py:22 | each window joined with single spaces, position by position |
| AudienceLines.ItemsFollowLines | format_audience_page.py:77-79 | the items are exactly the stripped lines of the stripped reply selected where the stripped line is non-empty, in order (so a subsequence of them), and there are no more items than lines (the challenges at 149-151 use the same function) |
| AudienceLines.ReplyItems | format_audience_page.py:77-79 | the items of a reply: its lines filtered by the comprehension (also the challenges at 149-151) |
| AudienceLines.Lines | format_audience_page.py:77 | `reply.strip().split('\n')`, which has at least one line |
| AudienceLines.KeepStripped | format_audience_page.py:79 | the comprehension: each line's strip, kept when non-empty |
| AudienceLines.StrippedLines | format_audience_page.py:79 | each line stripped, position by position |
| AudienceLines.NonEmptyMask | format_audience_page.py:79 | whether each stripped line survives the filter, position by position |
| AudienceLines.ItemsAreStrippedLines | format_audience_page.py:77-79 | a string is an item iff it is the non-empty strip of a line of the stripped reply |
| AudienceLines.KeepStrippedIsSelection | format_audience_page.py:79 | the filtering comprehension keeps exactly the lines whose strip is non-empty, in order |
| AudienceLines.ItemsAreClean | format_audience_page.py:77-79 | no item is empty, none has whitespace at either end, and none contains a newline |
| AudienceLines.ItemCount | format_audience_page.py:77-79 | there are at most 1 + (newlines in the stripped reply) items |
| AudienceLines.NoItemsIffBlank | format_audience_page.py:77-79 | there are no items iff the reply is empty or whitespace |
| TableSplit.SplitSuggestions | table_format_audience_page.py:63-64 | the split happens iff the reply text is a string, and then gives at least one piece |
| TableSplit.SuggestionsJoin | table_format_audience_page.py:64 | the pieces joined with `" , "` give `strip('[]')` of the reply |
| TableSplit.SuggestionsRoundTrip | table_format_audience_page.py:64 | the pieces joined with `" , "` give the reply with its outer brackets stripped; that string neither starts nor ends with a bracket, and only brackets were removed, from both ends (from SuggestionsJoin and the contract of PyStr.StripChars) |
| TableSplit.SuggestionPieces | table_format_audience_page.py:64 | there is one more piece than non-overlapping `" , "`, and no piece contains `" , "` |
| TableSplit.AllOuterBracketsGo | table_format_audience_page.py:64 | `[[a]]` gives `["a"]`: every leading and trailing bracket goes, not one pair |
| TableSplit.TwoSuggestions | table_format_audience_page.py:64 | `[a , b]` gives `["a", "b"]` |
| Dom.FindInIsFirstInDocumentOrder | utils.py:65 | BeautifulSoup's depth-first `find` returns the first element with the tag in document order, and nothing iff there is none |
| Dom.FindInFindsNamed | utils.py:65-67 | what `find` returns is an element of the tree with the tag, and nothing is returned iff the tree has no such element |
| Dom.NamedIn | utils.py:72 | `find_all(names, recursive=False)` returns exactly the children whose tag is in `names` |
| Dom.NamedInKeepsOrder | utils.py:72 | those children keep their sibling order |
| Dom.FindIn | utils.py:65-67 | BeautifulSoup's `find(name)` (also `soup.body` and `soup.html`): depth-first, left to right, the first element with the tag |
| Dom.FindAt | utils.py:65 | `find(name)` within one subtree, the subtree's root first |
| Dom.FirstNamed | utils.py:65 | the first element of a list with the tag, which is in the list; nothing iff none has it |
| Dom.NamedMask | utils.py:72 | whether each child's tag is among the names, position by position |
| Seqs.DedupKeepsFirstOccurrences | utils.py:84-89 | de-duplication keeps exactly the positions holding the first occurrence of their value |
| Seqs.DedupSameElements | utils.py:84-89 | de-duplication loses no value and adds none |
| Seqs.DedupNoDuplicates | utils.py:84-89 | the de-duplicated list has no repeats |
| Seqs.DedupIsSubsequence | utils.py:84-89 | the de-duplicated list is a subsequence of its input |
| Seqs.DedupOfDistinct | utils.py:84-89 | a list without repeats is left as it is |
| Seqs.DedupOrdersByFirstOccurrence | utils.py:84-89 | the kept values are ordered by the position of their first occurrence |
| Seqs.DedupTwoEqual | utils.py:84-89 | two equal values de-duplicate to one |
| Seqs.FirstOccurrencesSnoc | utils.py:84-89 | one more element extends the first-occurrence mask by whether that element is not yet seen |
| Seqs.Dedup | utils.py:84-89 | the `seen`-set loop's result: each element kept unless it occurred earlier |
| Seqs.FirstOccurrences | utils.py:85-87 | whether each position holds the first occurrence of its value (`chunk not in seen`) |
| Seqs.FirstIndex | utils.py:84-89 | the index of a value's first occurrence, which holds that value and has no earlier copy |
| Seqs.Flatten | utils.py:46 | the parts concatenated in order, as `+=` and `extend` build them |
| PyStr.StripChars | table_format_audience_page.py:64 | `strip(chars)` leaves a contiguous part of the input that neither starts nor ends with a character of `chars`; everything before and after it is in `chars` |
| PyStr.StripCharsIdempotent | format_audience_page.py:79 | stripping twice is stripping once |
| PyStr.StripCharsKeepsOnly | format_audience_page.py:79 | stripping adds no character |
| PyStr.StripCharsKeepsInner | format_audience_page.py:77 | a character outside `chars` survives stripping |
| PyStr.Find | utils.py:41 | `index` finds the first occurrence, and fails iff there is none |
| PyStr.Split | format_audience_page.py:77 | `split(sep)` gives at least one piece |
| PyStr.SplitJoin | table_format_audience_page.py:64 | joining the pieces of `split(sep)` with `sep` gives back the string |
| PyStr.SplitPiecesAvoidSep | format_audience_page.py:77 | no piece of `split(sep)` contains `sep` |
| PyStr.SplitCount | table_format_audience_page.py:64 | `split(sep)` gives one more piece than the string has non-overlapping occurrences of `sep` |
| PyStr.OccurrencesOfChar | format_audience_page.py:77 | the occurrences of a one-character separator are the occurrences of that character |
| PyStr.Words | app.py:21 | `str.split()`, the maximal runs of non-whitespace in order: every piece is a non-empty run of non-whitespace |
| PyStr.WordsEmptyIffBlank | app.py:21 | `split()` is empty iff the string is empty or whitespace |
| PyStr.WordsOfSpaceJoin | app.py:22 | words joined with single spaces split back into the same words |
| PyStr.ReplaceIsSplitJoin | utils.py:43-45 | `replace(pat, repl)` is splitting on `pat` and joining with `repl` |
| PyStr.ReplaceRemovesPair | utils.py:43 | replacing a two-character pattern by a string that cannot recreate it leaves no occurrence |
| PyStr.ReplaceKeepsPairAbsent | utils.py:44-45 | a replacement whose new text cannot form a two-character pair does not create one |
| PyStr.ReplaceFlanks | utils.py:45 | after `replace(c, f + c + f)` every `c` has an `f` on both sides |
| PyStr.ConcatFlanked | utils.py:46 | concatenating two such strings keeps the property |
| PyStr.Strip | format_audience_page.py:77 | `str.strip()`: `StripChars` over Python's whitespace characters |
| PyStr.LeadingIn | table_format_audience_page.py:64 | the length of the longest prefix of characters in the strip set |
| PyStr.TrailingIn | table_format_audience_page.py:64 | the length of the longest suffix of characters in the strip set |
| PyStr.Contains | utils.py:39 | Python's `t in s` on strings: `t` occurs at some position |
| PyStr.FindFrom | utils.py:41 | the first occurrence at or after a position, and none iff there is none there |
| PyStr.Replace | utils.py:43-45 | `s.replace(pat, repl)`: every non-overlapping occurrence, left to right, replaced |
| PyStr.JoinWith | app.py:22 | `sep.join(pieces)` |
| PyStr.Occurrences | table_format_audience_page.py:64 | the number of non-overlapping occurrences, counted left to right |
| PyStr.WordEnd | app.py:21 | the length of the leading run of non-whitespace |
| PyStr.PySlice | utils.py:42 | Python's `s[start:stop]`: negative bounds count from the end, out-of-range bounds are clamped, and the slice is empty when the start is not before the stop |
| PyStr.SliceBound | utils.py:42 | a Python slice bound resolved to a position within the string |

## Left out

- MarkupChunker.ChunkHtmlScript: a page without an `<html>` element is a precondition. The Python code fails there with an exception rather than returning anything.
- `num_tokens`, `chunk_element`, `str(elem)` and `elem.get_text(separator=' ', strip=True)` are parameters of the model. They are not defined in the modelled files, and the parser and tokenizer are foreign libraries.
- Fetching the page (`requests.get`) and parsing it into a tree are not modelled: the chunkers take the parsed tree.
- Streamed events are taken as already-decoded strings. The UTF-8 decoding at utils.py:38 and the model-service call at utils.py:16-33 are not modelled.
- The `print` calls (utils.py:91, table_format_audience_page.py:61, 66-70) have no effect on the results and are left out.
- The model calls that produce the audience replies (format_audience_page.py) and the table reply (table_format_audience_page.py:52-59) are not modelled. The reply text is an input.
- `threading_code_accessibility` is not modelled, because its subject is thread-pool concurrency. Neither are the prompt and model-call wrappers, the Flask/SQL backend, the screenshot/S3 code, the UI, or the PDF, embedding and vector-search parts of app.py.
- The default arguments `max_tokens=5000` (appending_prompts_code_accessibility.py:24) and `chunk_size=500` (app.py:20) are not modelled: the model always takes the budget and the window size as arguments, and calling with the default is calling with that value.
- `chunk_html_script` does not split an over-budget block itself: the undefined `chunk_element` does (appending_prompts_code_accessibility.py:52-54), so no recursive descent or token-slicing fallback is modelled, and the budget of its output is a hypothesis of MarkupChunker.BudgetHolds.
- TextChunker.GetTextChunks: `get_text_chunks` raises AttributeError when the page has neither `<main>` nor `<body>` (utils.py:65-72); the model returns `None` there.
- WordChunks.ChunkText: a `chunk_size` of 0 is modelled as `None`, since `range` raises. A negative size gives the empty list, as the empty `range` does.
- PyStr.Replace and PyStr.Split: only non-empty patterns are modelled. Every pattern the modelled code uses is non-empty.
- A Python string is modelled as a sequence of code points. Python's whitespace set is written out explicitly. Nothing depends on Unicode normalisation.

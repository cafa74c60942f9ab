# Fazail-e-Amaal and Easy Good Deeds text pipeline, modelled in Dafny

The repository turns two PDFs into the data of two small websites. The
scripts read pages of text and then cut them into structured records. This
project models those text routines as functions and methods over
sequences of pages, segments and lines:

- `extract_complete.py` (module `ExtractComplete`):
  - The Arabic-script classifier.
  - Page-to-book assignment against the `BOOKS` table.
  - The single pass that numbers chapters and stories and links each story to the latest chapter.
  - The story-content window with its one-way `in_story` flag.
  - The Arabic statistics and the tagged full-content records of `process_full_pdf`.
- `process_full_extraction.py` (module `ProcessFullExtraction`):
  - `clean_text`.
  - Locating chapter titles in a book's text, the stable sort by offset and the split into contiguous chunks.
  - The fallback split at story/hadith markers.
  - The filter of long chunks and the distribution of chunks over chapters in blocks of `ceil(n/k)`.
  - The story ids that continue from 11.
- `generate_website_data.py` (module `GenerateWebsiteData`):
  - The static `BOOKS`, `CHAPTERS` and `STORIES` tables.
  - The `<arabic>` to `<span>` rewrite and the tag-stripped preview.
  - `extract_story` and the story-processing loop.
- `extract_fazail.py` (module `ExtractFazail`): `identify_chapters` and the 500-character page preview. The functions and lemmas about chapters take the section-name list `names` as a parameter. `IdentifyChapters` passes `MainSections`, the 19 names of `main_sections` (extract_fazail.py:31-51).
- `extract_deeds.py` (module `ExtractDeeds`): `parse_deeds`, which numbers deeds by header lines. Each line is first classified (`Classify`) as blank, a header or other text, as the loop's strip and match do. The facts about the deeds are stated over that classification.
- `generate_placeholders.py` (module `GeneratePlaceholders`): `parse_data_js`, which reads the `const deeds = [...]` array of `data.js` back into deed records.

Shared modules:

- `Wrappers`: `Option` and a leftmost-match helper.
- `Text`: Python's `strip`, `split`, `in`, `find`, slicing, ASCII `lower`, `int` and `str` on digit strings.
- `SiteData`: the records the scripts exchange.

Every regular expression of the core is written as a hand-made matcher that
follows Python's backtracking for that one pattern. The one exception is the
chapter-title pattern of `extract_complete.py:107`, which is a parameter.
Every `for` statement of the modelled code is a Dafny method whose `ensures`
ties its result to a specification function (the book lookup of
`extract_complete.py:91-94` is `LookupBook`); list comprehensions and
generator expressions are functions, and loops that only print or write
files are left out with the rest of the I/O. The lemmas state what the source promises about
those functions. Where a contract is weaker than the source's behaviour,
"## Left out" says so.

## Model

| member | source | states |
|---|---|---|
| ExtractComplete.IsArabicText | extract_complete.py:22-25 | true exactly when some character lies in U+0600–U+06FF, U+0750–U+077F or U+08A0–U+08FF |
| ExtractComplete.SpanSegment | extract_complete.py:48-54 | a span gives a segment exactly when it does not strip to nothing; the segment holds the stripped text and is flagged Arabic exactly when that text has an Arabic character |
| ExtractComplete.FirstBookFrom | extract_complete.py:91-94 | the first book at or after a position whose range holds the page, none before it does; nothing when none does |
| ExtractComplete.BookOf | extract_complete.py:91-94 | no book exactly when no range holds the page; otherwise the id of the first book in table order whose range holds it |
| ExtractComplete.BooksTile | extract_complete.py:11-20 | the eight ranges are numbered 1 to 8, each starts right after the previous one ends, from page 3 to page 452 |
| ExtractComplete.BooksDisjoint | extract_complete.py:11-20 | no page lies in two books' ranges |
| ExtractComplete.BookOfPage | extract_complete.py:91-94 | a page gets a book exactly when it is one of pages 3 to 452, and then the book whose range holds it |
| ExtractComplete.LookupBook | extract_complete.py:91-94 | the loop over the book table returns the book `NextBook` assigns: the first book whose range holds the page, else the previous page's book |
| ExtractComplete.NextBook | extract_complete.py:73-94 | a page inside the ranges takes its book; a page outside every range keeps the previous page's book |
| ExtractComplete.RomanRun | extract_complete.py:80-81 | the longest prefix of `I`, `V`, `X` letters (case-insensitive) |
| ExtractComplete.NumeralAt | extract_complete.py:80-81 | a captured chapter number is non-empty and starts the text |
| ExtractComplete.SearchChapterSpec | extract_complete.py:102-105 | `re.search` of a chapter pattern finds nothing exactly when it matches at no index, and otherwise gives the capture of the leftmost match |
| ExtractComplete.TitleEndSpec | extract_complete.py:85 | the lazy story title stops at the first `\s*(`, `:`, line break or end of text, and so holds no line break |
| ExtractComplete.StoryHeaderShape | extract_complete.py:85 | the story pattern matches exactly when the page text starts with digits, a dot, whitespace and then a character that is not whitespace |
| ExtractComplete.StoryHeaderSpec | extract_complete.py:85 | a story header needs digits, a dot and whitespace at the very start of the page text; the number is the value of those digits; the title is non-empty, starts with no whitespace and has no line break |
| ExtractComplete.BuildPageText | extract_complete.py:97-99 | the page text is every segment's text followed by a space |
| ExtractComplete.ChapterTitle | extract_complete.py:106-117 | a matched title is cut to 100 characters; the title is always stripped |
| ExtractComplete.AddChaptersSpec | extract_complete.py:101-120 | the chapters found so far are kept; each matching pattern appends one chapter, numbered on, in the current book and on this page |
| ExtractComplete.AddChapter | extract_complete.py:102-120 | one pattern appends a chapter exactly when its search matches; the chapter has the next id, the current book, the matched number and this page |
| ExtractComplete.AddStory | extract_complete.py:122-135 | a page appends a story exactly when its text starts with a story header whose stripped title has 11 to 149 characters, and otherwise none; the story has the next id, the current book and page, the header's number, the stripped header title, and the last chapter's id or none |
| ExtractComplete.DetectChapter | extract_complete.py:102-120 | one pattern: a match appends the chapter and makes it `current_chapter` |
| ExtractComplete.DetectChapters | extract_complete.py:101-120 | the chapter-pattern loop of one page; `current_chapter` is the last chapter appended |
| ExtractComplete.DetectPatterns | extract_complete.py:102-120 | the loop over the patterns appends exactly what `AddChapters` gives; `current_chapter` is the last chapter |
| ExtractComplete.DetectStory | extract_complete.py:122-135 | the story match of one page; `story_id` stays the number of stories |
| ExtractComplete.IdentifyChaptersAndStories | extract_complete.py:68-137 | the lists of the page pass; chapter and story ids run 1, 2, 3, …; titles are stripped and of length 11 to 149; no more stories than pages |
| ExtractComplete.ScanPageChapters | extract_complete.py:101-120 | one page extends the chapters, numbering on, in the page's book and on the page |
| ExtractComplete.ScanPageStories | extract_complete.py:122-135 | one page extends the stories by at most one, numbered on and linked to the last chapter |
| ExtractComplete.NumberingKept | extract_complete.py:113-127 | extending chapters and stories keeps both numbered 1, 2, 3, … |
| ExtractComplete.ScanPageNumbering | extract_complete.py:113-127 | one page keeps the numbering and adds at most one story |
| ExtractComplete.ScanProperties | extract_complete.py:113-127 | over all pages: consecutive ids from 1, valid story titles, at most one story per page |
| ExtractComplete.ScanPageStory | extract_complete.py:122-135 | one page keeps the stories found and adds one exactly when its text gives a story; the new story's number starts that page's text and its title is the stripped header title |
| ExtractComplete.StoryPages | extract_complete.py:122-135 | the stories come one each from exactly the pages whose text gives a story, in page order; each page's text starts with the story's number and a dot, and the story's title is that header's stripped title |
| ExtractComplete.StoriesExact | extract_complete.py:87-135 | every page whose text starts with a valid story header gives a story, and no other page does |
| ExtractComplete.LinkSurvivesLaterChapters | extract_complete.py:131 | a story linked to the latest chapter stays so when later pages add chapters |
| ExtractComplete.LinksKept | extract_complete.py:113-131 | one page's additions keep every story linked to the latest chapter starting on or before its page |
| ExtractComplete.ScanPageLinks | extract_complete.py:113-131 | one page keeps every story linked |
| ExtractComplete.StoryChapterIsLatest | extract_complete.py:131 | for pages in increasing order, each story's chapter is the last chapter starting on or before its page, and none when no chapter starts that early |
| ExtractComplete.ScanPageBooks | extract_complete.py:87-135 | one page keeps every chapter and story attributed to its page's book |
| ExtractComplete.StoryBooks | extract_complete.py:87-135 | every chapter and story on a page of some book's range carries that book |
| ExtractComplete.EndPage | extract_complete.py:142 | the window ends at the next story's first page, or five pages on when there is none |
| ExtractComplete.WindowSegmentsInRange | extract_complete.py:147-155 | every segment read lies on a page numbered from `start_page` to `end_page` |
| ExtractComplete.FirstWith | extract_complete.py:159 | the first segment containing the key; none before it does |
| ExtractComplete.Piece | extract_complete.py:162-173 | a piece keeps the text and is typed "arabic" exactly when the segment is flagged Arabic |
| ExtractComplete.Classify | extract_complete.py:162-173 | every segment becomes its piece, in order |
| ExtractComplete.CollectAppend | extract_complete.py:155-173 | the segment loop over two runs is the loop over the first run continued over the second |
| ExtractComplete.CollectSpec | extract_complete.py:145-173 | with the flag down at first, the loop yields exactly the segments from the first one containing the key on, and ends with the flag up exactly when one does |
| ExtractComplete.CollectPage | extract_complete.py:155-173 | the segment loop of one page |
| ExtractComplete.ExtractStoryContent | extract_complete.py:139-175 | the window's segments from the first one containing the title's first 30 characters on, in order and typed; nothing when none does |
| ExtractComplete.ArabicTexts | extract_complete.py:207-212 | no more texts than segments |
| ExtractComplete.ArabicTextsSpec | extract_complete.py:207-212 | the k-th Arabic text is the text of the k-th segment flagged Arabic, and there are exactly as many texts as Arabic segments |
| ExtractComplete.ArabicTextsEmpty | extract_complete.py:207-208 | no Arabic text exactly when no segment is Arabic |
| ExtractComplete.ArabicPagesProperties | extract_complete.py:206-214 | only pages with an Arabic segment get an entry; each entry counts its texts; the counts add up to all Arabic segments |
| ExtractComplete.ArabicStatistics | extract_complete.py:203-214 | the `pages_with_arabic` loop; `arabic_segment_count` is the number of Arabic segments and the sum of the entries' counts |
| ExtractComplete.FullContent | extract_complete.py:251-263 | one record per page, in order: its Arabic segments on their own lines between `<arabic>` tags, the others followed by a space, all stripped |
| ExtractComplete.PageTagged | extract_complete.py:253-258 | the segment loop of one page builds its tagged text |
| ProcessFullExtraction.BooksMetaContiguous | process_full_extraction.py:12-21 | ids 1 to 8, each range starting right after the previous one ends, covering pages 3 to 452 |
| ProcessFullExtraction.NonDigitRun | process_full_extraction.py:46 | how far the lazy `.*?` of the running-head pattern can reach: up to the first digit or line break |
| ProcessFullExtraction.LineRun | process_full_extraction.py:47 | how far `.*` reaches: up to the first line break |
| ProcessFullExtraction.RunOf | process_full_extraction.py:46-47 | the longest prefix of characters from a set |
| ProcessFullExtraction.BoilerplateAt | process_full_extraction.py:44-48 | each deleted pattern's match at a position is non-empty and inside the text |
| ProcessFullExtraction.RemoveAll | process_full_extraction.py:44-48 | a deletion never makes the text longer |
| ProcessFullExtraction.RemoveAllNoMatch | process_full_extraction.py:44-48 | text where the pattern matches nowhere is unchanged |
| ProcessFullExtraction.CollapseSpacesSpec | process_full_extraction.py:49 | `re.sub(r'\s+', ' ', ...)` leaves every whitespace a single plain space |
| ProcessFullExtraction.SingleSpacedSlice | process_full_extraction.py:49 | any piece of single-spaced text is single-spaced |
| ProcessFullExtraction.StripSingleSpaced | process_full_extraction.py:49 | stripping single-spaced text keeps it so and leaves no whitespace at either end |
| ProcessFullExtraction.CleanTextSpec | process_full_extraction.py:43-50 | cleaned text has no whitespace at either end, no two adjacent whitespace characters, only plain spaces and no line break |
| ProcessFullExtraction.CleanTextHasNoLineBreaks | process_full_extraction.py:121-126 | the `'\n'` to `<br><br>` replacement leaves cleaned text unchanged |
| ProcessFullExtraction.PageMapSpec | process_full_extraction.py:60 | a page is in the map exactly when some item has it, and maps to the content of the last such item |
| ProcessFullExtraction.BookTextEmpty | process_full_extraction.py:78-81 | the book text is empty exactly when none of the book's pages is in the dump |
| ProcessFullExtraction.BuildBookText | process_full_extraction.py:78-81 | every page of the range present in the dump, in page order, each followed by a line break |
| ProcessFullExtraction.WithoutParens | process_full_extraction.py:94 | the searched title holds no parenthesis |
| ProcessFullExtraction.SearchIgnoringCaseSpec | process_full_extraction.py:95-100 | the leftmost occurrence ignoring case, none before it; nothing when there is none |
| ProcessFullExtraction.LocateChapterInText | process_full_extraction.py:92-106 | a located chapter's offset lies inside the book text |
| ProcessFullExtraction.LocateChaptersSound | process_full_extraction.py:92-106 | found chapters are in chapter order, each at its title's (or its Roman fallback's) leftmost match; no more than the chapters |
| ProcessFullExtraction.LocateChaptersComplete | process_full_extraction.py:92-106 | every chapter whose title or Roman fallback matches is found |
| ProcessFullExtraction.LocateChaptersInText | process_full_extraction.py:102-106 | every found offset lies inside the book text |
| ProcessFullExtraction.FindChapters | process_full_extraction.py:88-106 | the chapter-finding loop |
| ProcessFullExtraction.InsertFoundPerm | process_full_extraction.py:108 | inserting keeps every element and adds the new one |
| ProcessFullExtraction.InsertFoundSorted | process_full_extraction.py:108 | inserting an element later in list order keeps the list sorted |
| ProcessFullExtraction.SortFoundPerm | process_full_extraction.py:108 | the sort is a permutation |
| ProcessFullExtraction.SortFoundLength | process_full_extraction.py:108 | the sort keeps the number of found chapters |
| ProcessFullExtraction.SortFoundSorted | process_full_extraction.py:108 | the result is ordered by offset, ties in list order |
| ProcessFullExtraction.SortFoundSpec | process_full_extraction.py:108 | a stable sort by start offset that neither loses nor adds a found chapter |
| ProcessFullExtraction.Starts | process_full_extraction.py:117 | the start offset of each found chapter, in order |
| ProcessFullExtraction.Chunks | process_full_extraction.py:115-120 | one chunk per found chapter |
| ProcessFullExtraction.ChunksTile | process_full_extraction.py:115-120 | for sorted offsets inside the text, the chunks put together are the text from the first offset to the end, with no gap or overlap |
| ProcessFullExtraction.SortedStartsWithin | process_full_extraction.py:108 | sorting found chapters keeps exactly those chapters, with non-decreasing offsets that stay inside the text |
| ProcessFullExtraction.LocatedChunksTile | process_full_extraction.py:92-120 | the chunks of the chapters located in a book's text, after the sort, put together are the text from the earliest heading found to the end |
| ProcessFullExtraction.PreviewSpec | process_full_extraction.py:132 | the preview is the first 150 characters (or all of a shorter text) followed by `...` |
| ProcessFullExtraction.ChunkOfFound | process_full_extraction.py:116-120 | chunk `i` is `book_text[start_i:start_{i+1}]`, the last one ending at the text's end |
| ProcessFullExtraction.CleanedChunksOf | process_full_extraction.py:121 | the cleaned chunks are the chunks passed through `clean_text` |
| ProcessFullExtraction.AppendChunkStories | process_full_extraction.py:125-135 | one more chunk adds its story exactly when its cleaned text is over 100 characters, so the stories stay one per long chunk, in order |
| ProcessFullExtraction.SplitFirst | process_full_extraction.py:115-135 | story `j` of the first `n` chunks is the story of the `j`-th chunk among them cleaned to over 100 characters, numbered on from the first id |
| ProcessFullExtraction.CleanedGivesChunk | process_full_extraction.py:121-134 | the story of a long cleaned chunk is that chunk's story: its content is the cleaned text itself, in the story markup |
| ProcessFullExtraction.SplitFromChunks | process_full_extraction.py:115-135 | story `j` of the split is the story of the `j`-th long chunk of the book text |
| ProcessFullExtraction.SplitStories | process_full_extraction.py:113-135 | one story per chunk cleaned to over 100 characters and none for any other chunk, in chunk order, numbered on; each is titled after its chapter and holds its chunk's cleaned text |
| ProcessFullExtraction.SplitStoriesSpec | process_full_extraction.py:115-135 | a chunk gives a story exactly when its cleaned text is over 100 characters; the chunks of the stories increase |
| ProcessFullExtraction.SplitChunk | process_full_extraction.py:116-135 | one chunk adds its story when its cleaned text is over 100 characters |
| ProcessFullExtraction.SplitGrows | process_full_extraction.py:115-135 | one more chunk extends the split stories |
| ProcessFullExtraction.AppendChapterSplit | process_full_extraction.py:115-135 | the chapter-split loop appends exactly the split stories and advances `next_id` by their number |
| ProcessFullExtraction.MarkerAt | process_full_extraction.py:144 | a story/hadith marker match is non-empty and inside the text |
| ProcessFullExtraction.SplitAtMarkers | process_full_extraction.py:144 | `re.split` always gives at least one piece |
| ProcessFullExtraction.SplitAtMarkersShorter | process_full_extraction.py:144 | the pieces together are never longer than the text |
| ProcessFullExtraction.SplitAtMarkersJoin | process_full_extraction.py:144 | there is one more piece than markers, and the pieces with the cut-out markers put back between them give the text back |
| ProcessFullExtraction.SplitAtMarkersNone | process_full_extraction.py:144 | text without a marker is one piece |
| ProcessFullExtraction.LongOnesSpec | process_full_extraction.py:154-158 | the kept texts are, in order, texts of the list longer than 200 characters |
| ProcessFullExtraction.LongOnesEmpty | process_full_extraction.py:154-158 | nothing is kept exactly when every text is at most 200 characters |
| ProcessFullExtraction.KeepLongSpec | process_full_extraction.py:154-158 | the valid chunks are cleaned pieces longer than 200 characters, no more than the pieces |
| ProcessFullExtraction.KeepLongEmpty | process_full_extraction.py:154-162 | no chunk is valid exactly when every piece cleans to at most 200 characters |
| ProcessFullExtraction.FallbackChunks | process_full_extraction.py:154-166 | distribution always sees at least one chunk |
| ProcessFullExtraction.FilterChunks | process_full_extraction.py:154-166 | the long cleaned pieces, or the whole cleaned book text as the only chunk when there is none |
| ProcessFullExtraction.ChunksPerChapter | process_full_extraction.py:169-170 | `max(1, ceil(n/k))`: at least 1, enough for every chunk, and no block more than needed |
| ProcessFullExtraction.Blocks | process_full_extraction.py:172-179 | chapter `j`'s block is the `j`-th run of `cpc` chunks |
| ProcessFullExtraction.BlocksPrefix | process_full_extraction.py:172-179 | the first blocks put together are the first chunks |
| ProcessFullExtraction.EveryChunkAssignedOnce | process_full_extraction.py:169-179 | the blocks in chapter order put together are exactly the chunk list, so each chunk goes to one chapter; no block is larger than `cpc` |
| ProcessFullExtraction.BreakLines | process_full_extraction.py:185 | one replaced text per chunk |
| ProcessFullExtraction.CleanEachCleans | process_full_extraction.py:192 | every chunk paired with its cleaned text |
| ProcessFullExtraction.DistributeFirstCount | process_full_extraction.py:184 | one story per chapter whose block is not empty |
| ProcessFullExtraction.DistributeFirstStories | process_full_extraction.py:184-195 | the stories are numbered on, in the book, each for one of its chapters |
| ProcessFullExtraction.DistributeStoriesSpec | process_full_extraction.py:168-195 | one story per chapter that gets a chunk, none for the others; ids running on; each of the book and of one of its chapters |
| ProcessFullExtraction.AssignChunks | process_full_extraction.py:175-179 | the next `cpc` chunks, or fewer at the end; the index advances past them |
| ProcessFullExtraction.DistributeChapter | process_full_extraction.py:173-195 | one chapter takes its block and adds its story when the block is not empty |
| ProcessFullExtraction.DistributeGrows | process_full_extraction.py:173-195 | one more chapter extends the distributed stories |
| ProcessFullExtraction.ComputeChunksPerChapter | process_full_extraction.py:169-170 | computes `max(1, ceil(n/k))` |
| ProcessFullExtraction.DistributeChapters | process_full_extraction.py:172-195 | the chapter loop appends the stories of every chapter's block |
| ProcessFullExtraction.AppendDistribution | process_full_extraction.py:168-195 | the distribution with `ceil(n/k)` chunks per chapter |
| ProcessFullExtraction.KeptMembers | process_full_extraction.py:63 | the kept stories are exactly those with id at most 10 |
| ProcessFullExtraction.KeptOrder | process_full_extraction.py:63 | the kept stories keep their original order |
| ProcessFullExtraction.ChaptersOf | process_full_extraction.py:83 | a book's chapters are exactly the chapters with its id |
| ProcessFullExtraction.ChapterStories | process_full_extraction.py:87-195 | a book's stories are numbered on and belong to the book, whichever method is used |
| ProcessFullExtraction.BookStories | process_full_extraction.py:68-195 | no story for a book without a known range; otherwise stories numbered on, of that book |
| ProcessFullExtraction.AppendRunningIds | process_full_extraction.py:126-135 | appending a book's stories keeps the ids running on and every book known |
| ProcessFullExtraction.NewStories | process_full_extraction.py:64-195 | the stories the books add have ids running on without gap, each in a book with a known range |
| ProcessFullExtraction.FinalStoriesSpec | process_full_extraction.py:63-198 | the kept stories come first in their order; those after are numbered 11, 12, 13, … and belong to known books |
| ProcessFullExtraction.ProcessChapters | process_full_extraction.py:87-195 | a book with chapters appends its chapter-split or distributed stories |
| ProcessFullExtraction.ProcessBook | process_full_extraction.py:69-195 | one book appends its stories and advances `next_id` by their number |
| ProcessFullExtraction.ProcessNextBook | process_full_extraction.py:68-195 | one turn of the book loop extends the new stories by that book's |
| ProcessFullExtraction.ExtractStories | process_full_extraction.py:52-198 | nothing when the page dump is empty; otherwise the final story list |
| GenerateWebsiteData.BooksContiguous | generate_website_data.py:13-94 | the books are numbered 1 to 8, each starting right after the previous one ends, from page 3 to page 452 |
| GenerateWebsiteData.PageInOneBook | generate_website_data.py:13-94 | every page from 3 to 452 lies in exactly one book's range |
| GenerateWebsiteData.BooksOrdered | generate_website_data.py:13-94 | a later book starts after an earlier one ends |
| GenerateWebsiteData.StoriesWellFormed | generate_website_data.py:97-222 | the story ids run 1 to 10, every range is non-empty, and every story's chapter is a `CHAPTERS` entry of the same book |
| GenerateWebsiteData.FormatArabicUnchanged | generate_website_data.py:112-116 | text without an opening or without a closing tag is returned unchanged |
| GenerateWebsiteData.FormatArabicShortest | generate_website_data.py:115 | an opening tag with a closing tag after it is rewritten up to the first closing tag, and the rest is rewritten in turn |
| GenerateWebsiteData.FormatPlain | generate_website_data.py:115 | text holding no `<` is passed through unchanged |
| GenerateWebsiteData.FormatTagged | generate_website_data.py:115 | a tagged passage whose text holds no `<` becomes a span around that text |
| GenerateWebsiteData.FormatTaggedText | generate_website_data.py:112-116 | formatting a page's tagged full content gives back its segments, each Arabic text in a span on its own line and every other text followed by a space, when no segment text holds a `<` |
| GenerateWebsiteData.CharsBefore | generate_website_data.py:239 | the characters before the first occurrence of a character |
| GenerateWebsiteData.StripTags | generate_website_data.py:239 | removing tags never makes the text longer |
| GenerateWebsiteData.StripTagsKeepsOut | generate_website_data.py:239 | removing tags brings in no new character |
| GenerateWebsiteData.StripTagsNoTags | generate_website_data.py:239 | no tag is left after removal |
| GenerateWebsiteData.WebPreviewSpec | generate_website_data.py:239 | the preview is at most 203 characters, ends in `...` and holds no tag |
| GenerateWebsiteData.ContentPartsSpec | generate_website_data.py:229-231 | the parts are the contents of exactly the pages with `start_page` ≤ page ≤ `end_page`, in dump order |
| GenerateWebsiteData.PartsAtSnoc | generate_website_data.py:229-231 | one more page keeps the parts aligned with their pages |
| GenerateWebsiteData.CollectParts | generate_website_data.py:228-231 | the inner loop collects those parts |
| GenerateWebsiteData.ProcessStories | generate_website_data.py:225-248 | one processed story per `STORIES` entry, in order, keeping its id, book, chapter and title, with the joined, rewritten content and its preview |
| GenerateWebsiteData.WindowConcat | generate_website_data.py:123-127 | the window of two runs of pages before a stop is the concatenation of their windows |
| GenerateWebsiteData.WindowOfSortedPages | generate_website_data.py:123-127 | for a dump in page order, `extract_story` reads exactly the pages the story loop joins |
| GenerateWebsiteData.WindowContents | generate_website_data.py:123-127 | for a dump in page order, the window is the in-range pages |
| GenerateWebsiteData.InRangeEmpty | generate_website_data.py:126-127 | for sorted pages, no page after one past the end is in range |
| GenerateWebsiteData.InRangeContents | generate_website_data.py:229-231 | the in-range pages' contents are the collected parts |
| GenerateWebsiteData.FromFirstMentionSpec | generate_website_data.py:132-136 | collection starts at the first page mentioning the title key (ignoring case) and takes every later page |
| GenerateWebsiteData.ExtractStoryStep | generate_website_data.py:123-136 | a page before the range changes nothing; a page in range joins the window |
| GenerateWebsiteData.NoMentionNothing | generate_website_data.py:132-136 | nothing is collected before the first mention |
| GenerateWebsiteData.CollectStep | generate_website_data.py:132-136 | the flag and the collected text track the window one page on |
| GenerateWebsiteData.ExtractStory | generate_website_data.py:118-138 | the window's pages from the first mention on, each followed by a blank line, stripped, with Arabic tags rewritten |
| GenerateWebsiteData.WindowStops | generate_website_data.py:126-127 | the page that stops the loop ends the window |
| ExtractFazail.SectionIndexFrom | extract_fazail.py:59-60 | the first section at or after a position that the page names |
| ExtractFazail.SectionIndex | extract_fazail.py:59-60 | the section a page opens is a `main_sections` entry |
| ExtractFazail.SectionIndexFromSpec | extract_fazail.py:59-69 | the search finds the first named section at or after a position, and nothing exactly when none is named |
| ExtractFazail.SectionIndexSpec | extract_fazail.py:59-69 | a page opens a chapter exactly when its lowercased text contains some lowercased section name; the title is the first such name in list order |
| ExtractFazail.FindSection | extract_fazail.py:59-69 | the section loop, left at the first hit |
| ExtractFazail.IdentifyChapters | extract_fazail.py:25-77 | the loop over the pages returns `Chapters` for the `main_sections` list, so every lemma below about a name list holds for it |
| ExtractFazail.OpeningsSpec | extract_fazail.py:59-69 | the opening pages, every one and only those, in order |
| ExtractFazail.ChapterAtPrefix | extract_fazail.py:54-75 | a chapter closed within a prefix of pages is the same over all pages |
| ExtractFazail.ChaptersAtPrefix | extract_fazail.py:54-75 | the finished chapters of a prefix keep their meaning one page on |
| ExtractFazail.ChaptersAtClose | extract_fazail.py:61-62 | opening a chapter appends the open one |
| ExtractFazail.ChapterGrows | extract_fazail.py:71-72 | the open chapter grows by a line break and the page's text |
| ExtractFazail.ChapterAtNext | extract_fazail.py:71-72 | a chapter one page longer gains a line break and that page's text |
| ExtractFazail.ChapterOpened | extract_fazail.py:63-72 | the chapter a page opens is titled, dated and filled as the loop leaves it |
| ExtractFazail.OpenStep | extract_fazail.py:59-72 | one opening page of the loop |
| ExtractFazail.PlainStep | extract_fazail.py:71-72 | one page that opens nothing |
| ExtractFazail.CurrentGrows | extract_fazail.py:71-72 | the open chapter keeps its meaning one page on |
| ExtractFazail.ScanMatches | extract_fazail.py:54-75 | the loop state after every page matches the opening pages |
| ExtractFazail.ChaptersSpec | extract_fazail.py:54-77 | one chapter per opening page, in page order, each running to the next opening page or the end; the last open chapter is included |
| ExtractFazail.ChapterCount | extract_fazail.py:61-75 | pages before the first opening page belong to no chapter; there are as many chapters as opening pages |
| ExtractFazail.ChapterOf | extract_fazail.py:63-72 | a chapter is titled by its opening page's first named section, starts on that page, has no sections, and holds that page's text twice and then each later page |
| ExtractFazail.ChapterPagesPlain | extract_fazail.py:59-72 | the pages inside a chapter open no chapter |
| ExtractFazail.StartPagesIncrease | extract_fazail.py:56-65 | for increasing page numbers, chapter start pages strictly increase |
| ExtractFazail.PreviewTextSpec | extract_fazail.py:103 | the preview is the text cut to 500 characters |
| ExtractFazail.StructurePreview | extract_fazail.py:99-104 | the first 20 pages (or all of fewer), each with its number and its text cut to 500 characters |
| ExtractDeeds.MatchHeaderSpec | extract_deeds.py:51-61 | a header needs digits, a dot, whitespace and one more character; the id is the value of all leading digits, however many; the title is the non-empty rest after the whitespace |
| ExtractDeeds.MatchHeaderOfWritten | extract_deeds.py:52-60 | the line `str(n) + ". " + title` reads back as id `n` and the title |
| ExtractDeeds.Classify | extract_deeds.py:46-52 | a line is blank exactly when it strips to nothing; it is a header exactly when its stripped text matches the header pattern, with that match's id and title; otherwise its text is the stripped line |
| ExtractDeeds.Kinds | extract_deeds.py:42-46 | every line of the text is classified, in order |
| ExtractDeeds.MatchHeaderStripped | extract_deeds.py:46-60 | on a stripped line, the title is everything after the whitespace run that follows the dot, and it starts with a character that is not whitespace |
| ExtractDeeds.ParseDeedsLoop | extract_deeds.py:42-71 | the loop over the split lines returns the deeds of their classification |
| ExtractDeeds.HeadersSpec | extract_deeds.py:45-53 | the indices of the lines classified as headers, every one and only those, in increasing order |
| ExtractDeeds.DeedAtPrefix | extract_deeds.py:45-69 | a deed closed within a prefix is the same over all lines |
| ExtractDeeds.DeedsAtPrefix | extract_deeds.py:45-69 | the finished deeds of a prefix keep their meaning one line on |
| ExtractDeeds.DeedsAtClose | extract_deeds.py:53-56 | a header appends the current deed |
| ExtractDeeds.DeedAtNext | extract_deeds.py:63-65 | a deed one line longer gains that line's stripped text and a space |
| ExtractDeeds.CurrentGrows | extract_deeds.py:63-65 | the current deed keeps its meaning one line on |
| ExtractDeeds.CurrentSkips | extract_deeds.py:46-48 | a blank line changes nothing |
| ExtractDeeds.HeaderStep | extract_deeds.py:52-62 | one header line of the loop |
| ExtractDeeds.PlainStep | extract_deeds.py:63-65 | one other line of the loop |
| ExtractDeeds.ScanMatches | extract_deeds.py:45-69 | the loop state after every line matches the header lines |
| ExtractDeeds.DeedsSpec | extract_deeds.py:42-71 | one deed per header line, in order, the last one included, each running to the next header or the end |
| ExtractDeeds.DeedCount | extract_deeds.py:55-69 | there are as many deeds as header lines; no header means no deed |
| ExtractDeeds.DeedOf | extract_deeds.py:46-65 | deed `k` starts at the `k`-th header line; its id and title come from that header; its content is the text of each line after it that is neither blank nor a header, up to the next header or the end, each followed by one space; lines before the first header are in no deed |
| ExtractDeeds.DeedKOf | extract_deeds.py:42-71 | deed `k` is the one started at the `k`-th header line and closed at the next |
| ExtractDeeds.DeedLinesPlain | extract_deeds.py:52-65 | the lines inside a deed are no headers |
| GeneratePlaceholders.ArrayBodySpec | generate_placeholders.py:10-15 | the array is found exactly when `const deeds = [` occurs with `];` after it; the body runs from the first opening to the first `];` after it |
| GeneratePlaceholders.ArrayBodyOfWritten | generate_placeholders.py:10-15 | a script made of the declaration alone gives its body back when the body holds no `];` |
| GeneratePlaceholders.NumberValueFound | generate_placeholders.py:31-39 | a number `n` read is where `\s*(\d+)` matches after the whole whitespace run, and `n` is the value of the captured digits `ds` |
| GeneratePlaceholders.NumberValueOfMatch | generate_placeholders.py:31-39 | where the pattern matches, the value of its digits is read |
| GeneratePlaceholders.SearchIdSpec | generate_placeholders.py:31 | the id comes from the leftmost match of `id:\s*(\d+)`; nothing when there is none |
| GeneratePlaceholders.SearchIdAt | generate_placeholders.py:31-39 | a match with none before it is the one the search gives |
| GeneratePlaceholders.QuoteEnd | generate_placeholders.py:33-35 | the lazy `(.*?)"` stops at the first `"`, or fails at an earlier line break without `re.DOTALL` |
| GeneratePlaceholders.ClosingSpec | generate_placeholders.py:33-35 | the capture is `v` exactly when a `"` follows `v` and `v` has no stop character |
| GeneratePlaceholders.QuotedValueFound | generate_placeholders.py:33-35 | a captured value is what the pattern reads after the whitespace run |
| GeneratePlaceholders.QuotedValueOfMatch | generate_placeholders.py:33-35 | where the pattern reads `v`, `v` is captured |
| GeneratePlaceholders.QuotedAtValue | generate_placeholders.py:33-35 | a value holds no `"`, and no line break without `re.DOTALL` |
| GeneratePlaceholders.SearchQuotedSpec | generate_placeholders.py:33-35 | the value comes from the leftmost match of `key:\s*"(.*?)"`; nothing when there is none |
| GeneratePlaceholders.SearchQuotedAt | generate_placeholders.py:33-35 | a match at the key's first occurrence is the one the search gives |
| GeneratePlaceholders.SearchQuotedValue | generate_placeholders.py:33-40 | the title holds no `"` and no line break; the description holds no `"` |
| GeneratePlaceholders.HeadHasNoKey | generate_placeholders.py:33-35 | neither key starts in a written object's id part |
| GeneratePlaceholders.IdOfWritten | generate_placeholders.py:31-39 | a written object's id is read back |
| GeneratePlaceholders.TitleKeyFirst | generate_placeholders.py:33 | `title:` does not start in a written object's id part |
| GeneratePlaceholders.TitleOfWritten | generate_placeholders.py:33-40 | a written title without `"` or line break is read back |
| GeneratePlaceholders.NoDescriptionKeyBefore | generate_placeholders.py:35 | `description:` does not occur before the description field when the title holds none |
| GeneratePlaceholders.DescriptionKeyFirst | generate_placeholders.py:35 | `description:` does not start in the text before the description field |
| GeneratePlaceholders.DescriptionOfWritten | generate_placeholders.py:35-41 | a written description without `"` is read back |
| GeneratePlaceholders.PieceDeedOfWritten | generate_placeholders.py:31-42 | a written object gives back its id, its title, and its description followed by the pending note |
| GeneratePlaceholders.SomesOrigins | generate_placeholders.py:37-42 | the values come in index order, each from its own index, and every index with a value gives one |
| GeneratePlaceholders.Outcomes | generate_placeholders.py:25-42 | one outcome per piece |
| GeneratePlaceholders.ParseDataJsLoop | generate_placeholders.py:10-44 | `parse_data_js` after the file read |
| GeneratePlaceholders.ParseDataJsSpec | generate_placeholders.py:10-44 | no array gives []; otherwise the deeds follow piece order, each from its own piece, every piece with all three fields gives one, there are no more deeds than pieces, and the pieces joined by `},` are the body |
| GeneratePlaceholders.DeedFields | generate_placeholders.py:33-41 | every deed has a title without `"` or line break, and content made of a description without `"` followed by the pending note |
| Text.Lower | extract_fazail.py:60 | ASCII lowercasing keeps the length, character by character |
| Text.DigitsValueOfDecimalString | extract_deeds.py:59 | `int(str(n)) == n` |
| Text.DecimalString | extract_deeds.py:59 | `str(n)` is a non-empty run of digits |
| Text.DigitRun | extract_deeds.py:52 | the longest digit prefix, which a greedy `\d+` takes |
| Text.SpaceRun | extract_deeds.py:52 | the longest whitespace prefix, which a greedy `\s+` takes |
| Text.DigitRunOfDigits | extract_deeds.py:52 | digits followed by a non-digit are the whole digit run |
| Text.SpaceRunOfSpaces | extract_deeds.py:52 | whitespace followed by something else is the whole whitespace run |
| Text.StripSpec | extract_deeds.py:46 | `strip` cuts only whitespace from both ends and leaves none at either end |
| Text.StripSlice | extract_deeds.py:46 | where the stripped text starts inside the original |
| Text.StripOfStripped | extract_complete.py:125 | text with no whitespace at either end is its own strip |
| Text.Slice | process_full_extraction.py:120 | Python slicing with bounds cut to the length |
| Text.Take | extract_complete.py:159 | `s[:n]` |
| Text.FindSpec | generate_placeholders.py:10 | the leftmost occurrence; none before it; nothing when there is none |
| Text.ContainsIff | extract_complete.py:159 | `in` holds exactly when the needle occurs somewhere |
| Text.ContainsEmpty | extract_complete.py:159 | the empty string is in every string |
| Text.Split | extract_deeds.py:42 | `split` gives at least one piece |
| Text.JoinSplit | generate_placeholders.py:23 | joining a split's pieces with the separator gives the string back |
| Text.SplitPiecesAvoidSeparator | generate_placeholders.py:23 | no piece of a split contains the separator |
| Text.FirstPieceIsPrefix | extract_deeds.py:42 | the first piece of a split is a prefix of the string |
| Text.ReplaceCharAbsent | process_full_extraction.py:126 | without the character, `replace` changes nothing |
| Text.ReplaceCharChars | process_full_extraction.py:94 | after `replace` the character is left only where the replacement brings it |
| Text.MarkedSpec | extract_deeds.py:52-53 | the marked indices are exactly the positions whose entry satisfies the predicate, in increasing order |
| Wrappers.FirstSomeSpec | extract_complete.py:103 | the leftmost-match helper finds nothing exactly when every entry is empty, and otherwise the first non-empty one |

## Left out

- Reading the PDFs with PyMuPDF and pypdf, reading and writing files, JSON parsing and serialisation, the emitted JavaScript text, every `print`, and the `main` functions. Pages, segments, lines and page dumps are parameters instead.
- The `BOOKS` and `stats` output objects of `process_full_pdf`, which only count and copy, and its cut of `pages_with_arabic` to 50 entries. They are written to JSON output only.
- The unused read of `data.js` in `parse_deeds` (extract_deeds.py:24-27).
- `cleanup_placeholders.py`. It is a file read, a `json.loads`, an `id > 10` filter and a write. Its filter is the complement of `ProcessFullExtraction.Kept`.
- `load_current_data`'s extraction of `fazailData` from `fazail_data.js`: the books, chapters and stories come in as parameters. `ExtractStories` returns `None` only for an empty page dump; a missing data file is not modelled.
- Case-insensitive matching and `.lower()` lowercase ASCII letters only. Python's full Unicode case folding is not modelled.
- `\d` and `int()` accept ASCII digits only, not every Unicode decimal digit.
- ExtractComplete.ChapterTitle: the chapter-title regular expression of extract_complete.py:107 is a parameter, so only the cut to 100 characters and the strip are stated. Which title that pattern captures is not.
- ExtractComplete.StoryHeaderSpec: when only whitespace follows the dot, Python still matches, with a whitespace title. That title strips to nothing and is then rejected by the length check. The model reports no header instead, and the recorded stories are the same.
- ExtractDeeds.MatchHeaderSpec: exact for lines without a line break. `parse_deeds` only ever gives it lines split at `"\n"`.
- ProcessFullExtraction.ChunksPerChapter: `math.ceil(len/len)` on floats is an integer ceiling division, which gives the same value for these sizes.
- ProcessFullExtraction.SortFoundSpec: proved for the list that the locating loop builds, in chapter order. Python's stable sort is modelled as an insertion sort that keeps ties in list order.
- ProcessFullExtraction.RemoveAll: the four deletions before the whitespace collapse are modelled matcher by matcher. Only the length bound and the no-match case are stated about them. Nothing is claimed about repeating `clean_text`.
- GenerateWebsiteData.FormatTaggedText: stated for segment texts that hold no `<`, and for a page's tagged text before `strip` and before pages are joined. A segment text that itself holds a tag could pair with an inserted one.
- ProcessFullExtraction.SplitAtMarkersShorter: only the length of the split pieces is stated; where the markers were is stated by SplitAtMarkersJoin.
- ProcessFullExtraction.SplitAtMarkersJoin: that no piece itself holds a marker is not stated.
- The dictionaries that `identify_chapters`, `parse_deeds` and `extract_stories` update in place (the current chapter, the current deed, `data['stories']`) are modelled as values that the loops rebuild. No other reference to them exists in the source.
- GeneratePlaceholders.PieceDeedOfWritten: the round trip is shown for the object layout `{id: N, title: "…", description: "…"}`. Other key orders and extra fields are only covered by the search lemmas.

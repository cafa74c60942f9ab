/** extract_complete.py: page-to-book assignment, chapter and story
    detection over the pages of the PDF, story-content extraction over a
    window of pages, and the Arabic statistics and tagging of
    `process_full_pdf`. The PDF itself is not read: the pages and their
    text segments are the input. */
module ExtractComplete {
  import opened Wrappers
  import opened Text

  // ---------------------------------------------------------------------
  // Data
  // ---------------------------------------------------------------------

  /** One text span of a page: its stripped text and whether it holds
      Arabic script. */
  datatype Segment = Segment(text: string, isArabic: bool)

  /** A page (numbered from 1) with its segments in reading order. */
  datatype Page = Page(number: int, segments: seq<Segment>)

  datatype BookRange = BookRange(id: nat, title: string, startPage: int, endPage: int)

  /** The `BOOKS` table, in its (insertion) iteration order. */
  const Books: seq<BookRange> := [
    BookRange(1, "Stories of Sahaabah", 3, 130),
    BookRange(2, "Virtues of Holy Qur'aan", 131, 180),
    BookRange(3, "Virtues of Salaat", 181, 260),
    BookRange(4, "Virtues of Zikr", 261, 320),
    BookRange(5, "Virtues of Tabligh", 321, 370),
    BookRange(6, "Virtues of Ramadhaan", 371, 420),
    BookRange(7, "Muslim Degeneration", 421, 440),
    BookRange(8, "Six Fundamentals", 441, 452)
  ]

  datatype Chapter = Chapter(id: nat, bookId: nat, number: string, title: string, startPage: int)

  datatype Story = Story(id: nat, bookId: nat, chapterId: Option<nat>, number: nat, title: string, startPage: int)

  // ---------------------------------------------------------------------
  // Arabic detection
  // ---------------------------------------------------------------------

  /** The Arabic, Arabic Supplement and Arabic Extended-A blocks. */
  predicate IsArabicChar(c: char) {
    ('\U{0600}' <= c <= '\U{06FF}') || ('\U{0750}' <= c <= '\U{077F}') || ('\U{08A0}' <= c <= '\U{08FF}')
  }

  /** `is_arabic_text`: some character of the text is Arabic. */
  function IsArabicText(s: string): (b: bool)
    ensures b <==> exists i :: 0 <= i < |s| && IsArabicChar(s[i])
  {
    if s == [] then false
    else if IsArabicChar(s[0]) then true
    else
      var b := IsArabicText(s[1..]);
      assert forall i :: 1 <= i < |s| ==> s[i] == s[1..][i - 1];
      b
  }

  /** A span of the PDF becomes a segment when its stripped text is not
      empty; the segment is flagged Arabic by `IsArabicText`. */
  function SpanSegment(spanText: string): (r: Option<Segment>)
    ensures r.None? <==> AllSpace(spanText)
    ensures r.Some? ==> r.value.text == Strip(spanText) && r.value.text != []
    ensures r.Some? ==> (r.value.isArabic <==> exists i :: 0 <= i < |r.value.text| && IsArabicChar(r.value.text[i]))
  {
    var t := Strip(spanText);
    StripSpec(spanText);
    if t == [] then None else Some(Segment(t, IsArabicText(t)))
  }

  // ---------------------------------------------------------------------
  // Books
  // ---------------------------------------------------------------------

  predicate InBook(b: BookRange, page: int) {
    b.startPage <= page <= b.endPage
  }

  /** The index of the first book at or after `from` whose page range
      holds `page`, if any. */
  function FirstBookFrom(books: seq<BookRange>, page: int, from: nat): (r: Option<nat>)
    ensures r.Some? ==> from <= r.value < |books| && InBook(books[r.value], page)
    ensures r.Some? ==> forall j :: from <= j < r.value ==> !InBook(books[j], page)
    ensures r.None? ==> forall j :: from <= j < |books| ==> !InBook(books[j], page)
    decreases |books| - from
  {
    if from >= |books| then None
    else if InBook(books[from], page) then Some(from)
    else FirstBookFrom(books, page, from + 1)
  }

  /** The id of the first book whose page range holds `page` (the
      `for ... in BOOKS.items(): ... break` lookup), if any. */
  function BookOf(books: seq<BookRange>, page: int): (r: Option<nat>)
    ensures r.None? <==> forall i :: 0 <= i < |books| ==> !InBook(books[i], page)
    ensures r.Some? ==> exists i :: 0 <= i < |books| && books[i].id == r.value && InBook(books[i], page)
                                    && forall j :: 0 <= j < i ==> !InBook(books[j], page)
  {
    match FirstBookFrom(books, page, 0)
    case Some(i) => Some(books[i].id)
    case None => None
  }

  /** The book ranges follow each other without gap or overlap and cover
      pages 3 to 452, so a page lies in exactly one book or in none. */
  lemma BooksTile()
    ensures forall i :: 0 < i < |Books| ==> Books[i].startPage == Books[i - 1].endPage + 1
    ensures forall i :: 0 <= i < |Books| ==> Books[i].startPage <= Books[i].endPage && Books[i].id == i + 1
    ensures Books[0].startPage == 3 && Books[|Books| - 1].endPage == 452
  {
  }

  /** Distinct books have disjoint page ranges. */
  lemma BooksDisjoint(page: int, i: nat, j: nat)
    requires i < |Books| && j < |Books| && InBook(Books[i], page) && InBook(Books[j], page)
    ensures i == j
  {
    BooksTile();
  }

  /** A page gets a book exactly when it is one of pages 3 to 452, and
      then the book whose range holds it. */
  lemma BookOfPage(page: int)
    ensures BookOf(Books, page).Some? <==> 3 <= page <= 452
    ensures forall i :: 0 <= i < |Books| && InBook(Books[i], page) ==> BookOf(Books, page) == Some(i + 1)
  {
    BooksTile();
    var r := FirstBookFrom(Books, page, 0);
    if 3 <= page <= 452 {
      assert InBook(Books[(if page <= 130 then 0 else if page <= 180 then 1 else if page <= 260 then 2
                           else if page <= 320 then 3 else if page <= 370 then 4 else if page <= 420 then 5
                           else if page <= 440 then 6 else 7)], page);
    }
    forall i | 0 <= i < |Books| && InBook(Books[i], page) ensures BookOf(Books, page) == Some(i + 1) {
      BooksDisjoint(page, i, r.value);
    }
  }

  /** The book a page is assigned to: the book of its range, or the
      previous page's book when it is outside every range. */
  function NextBook(current: nat, page: int): (b: nat)
    ensures 3 <= page <= 452 ==> b == BookOf(Books, page).value
    ensures !(3 <= page <= 452) ==> b == current
  {
    BookOfPage(page);
    match BookOf(Books, page)
    case Some(id) => id
    case None => current
  }

  /** The book lookup done for every page: the first book whose range
      holds `page`, else the book of the previous page. */
  method LookupBook(current: nat, page: int) returns (b: nat)
    ensures b == NextBook(current, page)
  {
    BookOfPage(page);
    BooksTile();
    b := current;
    for i := 0 to |Books|
      invariant forall j :: 0 <= j < i ==> !InBook(Books[j], page)
    {
      if Books[i].startPage <= page <= Books[i].endPage {
        b := Books[i].id;
        return;
      }
    }
  }

  // ---------------------------------------------------------------------
  // Chapter headers
  // ---------------------------------------------------------------------

  /** The two chapter-header patterns, tried in this order on every page:
      `CHAPTER\s+([IVX]+|[0-9]+)` and `Ch\.\s*([IVX]+|[0-9]+):`, both
      case-insensitive. */
  datatype ChapterPattern = ChapterWord | ChapterRef

  predicate IsRomanLetter(c: char) {
    c in "IVXivx"
  }

  /** The length of the longest prefix of Roman-numeral letters. */
  function RomanRun(s: string): (r: nat)
    ensures r <= |s| && forall i :: 0 <= i < r ==> IsRomanLetter(s[i])
    ensures r < |s| ==> !IsRomanLetter(s[r])
  {
    if s != [] && IsRomanLetter(s[0]) then 1 + RomanRun(s[1..]) else 0
  }

  /** The chapter number (`[IVX]+|[0-9]+`) at the start of `s`, followed
      by a colon when `colon` is set: the Roman alternative is tried
      first and both runs are greedy. */
  function NumeralAt(s: string, colon: bool): (r: Option<string>)
    ensures r.Some? ==> r.value != [] && StartsWith(s, r.value)
  {
    var roman := RomanRun(s);
    var digits := DigitRun(s);
    if roman > 0 && (!colon || (roman < |s| && s[roman] == ':')) then Some(s[..roman])
    else if digits > 0 && (!colon || (digits < |s| && s[digits] == ':')) then Some(s[..digits])
    else None
  }

  /** The chapter number captured when `pattern` matches `text` at `i`. */
  function MatchChapterAt(pattern: ChapterPattern, text: string, i: nat): (r: Option<string>)
    requires i <= |text|
  {
    var s := text[i..];
    match pattern
    case ChapterWord =>
      if |s| >= 7 && Lower(s[..7]) == "chapter" then
        var w := SpaceRun(s[7..]);
        if w == 0 then None else NumeralAt(s[7 + w..], false)
      else None
    case ChapterRef =>
      if |s| >= 3 && Lower(s[..3]) == "ch." then
        var w := SpaceRun(s[3..]);
        NumeralAt(s[3 + w..], true)
      else None
  }

  /** What `pattern` captures at each index of `text`, from 0 to `|text|`. */
  function ChapterMatches(pattern: ChapterPattern, text: string): (ms: seq<Option<string>>)
    ensures |ms| == |text| + 1
  {
    seq(|text| + 1, i requires 0 <= i <= |text| => MatchChapterAt(pattern, text, i))
  }

  /** `re.search(pattern, text, re.IGNORECASE)`: the chapter number of the
      leftmost match. */
  function SearchChapter(pattern: ChapterPattern, text: string): Option<string>
  {
    FirstSome(ChapterMatches(pattern, text), 0)
  }

  /** The search finds nothing exactly when the pattern matches at no
      index, and otherwise returns the capture of the leftmost match. */
  lemma SearchChapterSpec(pattern: ChapterPattern, text: string)
    ensures var r := SearchChapter(pattern, text);
      && (r.None? <==> forall i :: 0 <= i <= |text| ==> MatchChapterAt(pattern, text, i).None?)
      && (r.Some? ==> exists i :: 0 <= i <= |text| && MatchChapterAt(pattern, text, i) == r
                        && forall j :: 0 <= j < i ==> MatchChapterAt(pattern, text, j).None?)
  {
    var ms := ChapterMatches(pattern, text);
    var p := FirstSomeSpec(ms, 0);
    assert forall i :: 0 <= i <= |text| ==> ms[i] == MatchChapterAt(pattern, text, i);
    if SearchChapter(pattern, text).Some? {
      assert MatchChapterAt(pattern, text, p) == ms[p];
    }
  }

  // ---------------------------------------------------------------------
  // Story headers
  // ---------------------------------------------------------------------

  /** Where `(?:\s*\(|:|\n|$)` matches in `body` at `q`. */
  predicate TitleTerminator(body: string, q: nat)
    requires q <= |body|
  {
    q == |body| || body[q] == ':' || body[q] == '\n'
    || (q + SpaceRun(body[q..]) < |body| && body[q + SpaceRun(body[q..])] == '(')
  }

  /** The smallest `q > from` (with `from >= 0`) where the title
      terminator matches: how far the lazy `(.+?)` reaches. */
  function TitleEnd(body: string, from: nat): (q: nat)
    requires from < |body|
    ensures from < q <= |body|
    decreases |body| - from
  {
    if TitleTerminator(body, from + 1) then from + 1 else TitleEnd(body, from + 1)
  }

  /** `TitleEnd` is the first terminator after `from`, and the title it
      ends has no line break (a line break is a terminator). */
  lemma {:induction false} TitleEndSpec(body: string, from: nat)
    requires from < |body|
    ensures var q := TitleEnd(body, from);
      && TitleTerminator(body, q)
      && forall j :: from < j < q ==> !TitleTerminator(body, j) && body[j] != '\n'
    decreases |body| - from
  {
    if !TitleTerminator(body, from + 1) {
      TitleEndSpec(body, from + 1);
    }
  }

  /** `^(\d+)\.\s+(.+?)(?:\s*\(|:|\n|$)` matched against the page text:
      the story number and the raw title. The pattern is anchored and has
      no MULTILINE flag, so only the start of the text is tried. When only
      whitespace follows the dot the regular expression can still match,
      but with a whitespace title that strips to nothing; the model reports
      no header then, which leaves the recorded stories the same. */
  function StoryHeader(text: string): Option<(nat, string)>
  {
    var d := DigitRun(text);
    if d == 0 || d == |text| || text[d] != '.' then None
    else
      var rest := text[d + 1..];
      var w := SpaceRun(rest);
      if w == 0 || w == |rest| then None
      else
        var body := rest[w..];
        var q := TitleEnd(body, 0);
        Some((DigitsValue(text[..d]), body[..q]))
  }

  /** A header is found only when the text starts with one or more
      digits and a dot followed by whitespace; the number is the value of
      those digits, and the title is not empty, starts with no whitespace
      and has no line break. */
  lemma StoryHeaderSpec(text: string)
    ensures var r := StoryHeader(text);
      && (r.Some? ==> 0 < DigitRun(text) < |text| - 1 && text[DigitRun(text)] == '.' && IsSpace(text[DigitRun(text) + 1]))
      && (r.Some? ==> r.value.1 != [] && !IsSpace(r.value.1[0]) && '\n' !in r.value.1)
      && (r.Some? ==> r.value.0 == DigitsValue(text[..DigitRun(text)]))
  {
    var d := DigitRun(text);
    if StoryHeader(text).Some? {
      var rest := text[d + 1..];
      var w := SpaceRun(rest);
      var body := rest[w..];
      TitleEndSpec(body, 0);
      assert rest[0] == text[d + 1];
    }
  }

  /** A header is found exactly when the text has its shape: the
      converse of `StoryHeaderSpec`'s first clause, and more, since a
      character that is not whitespace may follow anywhere after the
      whitespace run. */
  lemma StoryHeaderShape(text: string)
    ensures StoryHeader(text).Some? <==> HeaderShape(text)
  {
    var d := DigitRun(text);
    if 0 < d && d + 1 < |text| && text[d] == '.' {
      var rest := text[d + 1..];
      assert rest[0] == text[d + 1];
      if HeaderShape(text) {
        var j :| d + 1 < j < |text| && !IsSpace(text[j]);
        assert rest[j - d - 1] == text[j];
        ShapeHasTitle(rest, j - d - 1);
      }
      if StoryHeader(text).Some? {
        var w := SpaceRun(rest);
        assert rest[w] == text[d + 1 + w];
      }
    }
  }

  /** What the pattern needs to match: one or more digits at the very
      start, a dot, whitespace, and then some character that is not
      whitespace. */
  predicate HeaderShape(text: string) {
    var d := DigitRun(text);
    && 0 < d && d + 1 < |text| && text[d] == '.' && IsSpace(text[d + 1])
    && exists j :: d + 1 < j < |text| && !IsSpace(text[j])
  }

  /** Text that starts with whitespace and holds a character that is not
      whitespace has a whitespace run that is neither empty nor the
      whole text. */
  lemma ShapeHasTitle(rest: string, j: nat)
    requires rest != [] && IsSpace(rest[0]) && j < |rest| && !IsSpace(rest[j])
    ensures 0 < SpaceRun(rest) < |rest|
  {
  }

  // ---------------------------------------------------------------------
  // identify_chapters_and_stories
  // ---------------------------------------------------------------------

  /** The page text: every segment followed by one space. */
  function PageText(segs: seq<Segment>): string
  {
    if segs == [] then ""
    else PageText(segs[..|segs| - 1]) + segs[|segs| - 1].text + " "
  }

  /** The `page_text += seg["text"] + " "` loop. */
  method BuildPageText(segs: seq<Segment>) returns (pageText: string)
    ensures pageText == PageText(segs)
  {
    pageText := "";
    for k := 0 to |segs|
      invariant pageText == PageText(segs[..k])
    {
      assert segs[..k + 1][..k] == segs[..k];
      pageText := pageText + segs[k].text + " ";
    }
    assert segs[..|segs|] == segs;
  }

  /** The second group of the chapter pattern extended with
      `\s*[:\n]?\s*(.+?)(?:\.|$)`, if that search matches: an input of
      the model rather than a matcher of its own. */
  type TitleRegex = (ChapterPattern, string) -> Option<string>

  /** A chapter title: the matched title cut to 100 characters and
      stripped, or "Chapter <number>". */
  function ChapterTitle(titleOf: TitleRegex, pattern: ChapterPattern, text: string, number: string): (t: string)
    ensures titleOf(pattern, text).Some? ==> |t| <= 100
    ensures t == Strip(t)
  {
    var raw := match titleOf(pattern, text)
      case Some(g) => Take(g, 100)
      case None => "Chapter " + number;
    var t := Strip(raw);
    StripSpec(raw);
    StripOfStripped(t);
    t
  }

  /** The state carried from page to page: the current book and the lists
      built so far. (`current_chapter` is the last chapter of the list and
      `story_id` its length; the method keeps both as variables.) */
  datatype ScanState = ScanState(book: nat, chapters: seq<Chapter>, stories: seq<Story>)

  /** The chapter patterns in the order a page is tried against them. */
  const ChapterPatterns: seq<ChapterPattern> := [ChapterWord, ChapterRef]

  /** A pattern that matches the page text appends one chapter, with the
      next id, the current book, the matched number and this page. */
  function AddChapter(chapters: seq<Chapter>, pattern: ChapterPattern, text: string, book: nat,
                      pageNum: int, titleOf: TitleRegex): (r: seq<Chapter>)
    ensures |r| == |chapters| + 1 <==> SearchChapter(pattern, text).Some?
    ensures |chapters| <= |r| <= |chapters| + 1 && r[..|chapters|] == chapters
    ensures |r| > |chapters| ==>
      && r[|chapters|].id == |chapters| + 1 && r[|chapters|].bookId == book
      && r[|chapters|].number == SearchChapter(pattern, text).value && r[|chapters|].startPage == pageNum
  {
    match SearchChapter(pattern, text)
    case Some(num) => chapters + [Chapter(|chapters| + 1, book, num, ChapterTitle(titleOf, pattern, text, num), pageNum)]
    case None => chapters
  }

  /** Each pattern in turn, by `AddChapter`. */
  function AddChapters(chapters: seq<Chapter>, patterns: seq<ChapterPattern>, text: string, book: nat,
                       pageNum: int, titleOf: TitleRegex): seq<Chapter>
  {
    if patterns == [] then chapters
    else
      AddChapter(AddChapters(chapters, patterns[..|patterns| - 1], text, book, pageNum, titleOf),
                 patterns[|patterns| - 1], text, book, pageNum, titleOf)
  }

  /** Matching the patterns keeps the chapters found so far and appends at
      most one chapter per pattern, numbered on from the last id, in the
      current book and on this page. */
  lemma {:induction false} AddChaptersSpec(chapters: seq<Chapter>, patterns: seq<ChapterPattern>, text: string, book: nat,
                                           pageNum: int, titleOf: TitleRegex)
    ensures var r := AddChapters(chapters, patterns, text, book, pageNum, titleOf);
      && |chapters| <= |r| <= |chapters| + |patterns|
      && (forall c :: 0 <= c < |chapters| ==> r[c] == chapters[c])
      && (forall c :: |chapters| <= c < |r| ==> r[c].id == c + 1 && r[c].startPage == pageNum && r[c].bookId == book)
  {
    if patterns != [] {
      AddChaptersSpec(chapters, patterns[..|patterns| - 1], text, book, pageNum, titleOf);
    }
  }

  predicate StoryTitleOk(t: string) {
    10 < |t| < 150
  }

  /** The page text starts with a story header whose stripped title has
      11 to 149 characters. */
  predicate GivesStory(text: string) {
    StoryHeader(text).Some? && StoryTitleOk(Strip(StoryHeader(text).value.1))
  }

  /** A page whose text starts with a story header whose stripped title
      has the right length appends one story, linked to the last chapter. */
  function AddStory(stories: seq<Story>, chapters: seq<Chapter>, text: string, book: nat, pageNum: int): (r: seq<Story>)
    ensures |stories| <= |r| <= |stories| + 1 && r[..|stories|] == stories
    ensures |r| == |stories| + 1 <==> GivesStory(text)
    ensures |r| > |stories| ==> r[|stories|].title == Strip(StoryHeader(text).value.1)
    ensures |r| > |stories| ==>
      var s := r[|stories|];
      && s.id == |stories| + 1 && s.bookId == book && s.startPage == pageNum
      && StoryTitleOk(s.title) && Strip(s.title) == s.title
      && StoryHeader(text).Some? && s.number == StoryHeader(text).value.0
      && s.chapterId == (if chapters == [] then None else Some(chapters[|chapters| - 1].id))
  {
    match StoryHeader(text)
    case Some((num, raw)) =>
      var title := Strip(raw);
      if StoryTitleOk(title) then
        StripSpec(raw);
        StripOfStripped(title);
        stories + [Story(|stories| + 1, book, if chapters == [] then None else Some(chapters[|chapters| - 1].id),
                         num, title, pageNum)]
      else stories
    case None => stories
  }

  /** One iteration of the page loop. */
  function ScanPage(st: ScanState, page: Page, titleOf: TitleRegex): ScanState
  {
    var book := NextBook(st.book, page.number);
    var text := PageText(page.segments);
    var chs := AddChapters(st.chapters, ChapterPatterns, text, book, page.number, titleOf);
    ScanState(book, chs, AddStory(st.stories, chs, text, book, page.number))
  }

  /** The whole pass over the pages, as a left fold. */
  function Scan(pages: seq<Page>, titleOf: TitleRegex): ScanState
  {
    if pages == [] then ScanState(1, [], [])
    else ScanPage(Scan(pages[..|pages| - 1], titleOf), pages[|pages| - 1], titleOf)
  }

  predicate ChapterIdsConsecutive(chapters: seq<Chapter>) {
    forall i :: 0 <= i < |chapters| ==> chapters[i].id == i + 1
  }

  predicate StoryIdsConsecutive(stories: seq<Story>) {
    forall i :: 0 <= i < |stories| ==> stories[i].id == i + 1
  }

  predicate WellNumbered(st: ScanState) {
    && ChapterIdsConsecutive(st.chapters)
    && StoryIdsConsecutive(st.stories)
    && forall s :: s in st.stories ==> StoryTitleOk(s.title) && Strip(s.title) == s.title
  }

  /** `AddChapters` over one more pattern. */
  lemma AddChaptersStep(chapters: seq<Chapter>, patterns: seq<ChapterPattern>, p: nat, text: string, book: nat,
                        pageNum: int, titleOf: TitleRegex)
    requires p < |patterns|
    ensures AddChapters(chapters, patterns[..p + 1], text, book, pageNum, titleOf)
      == AddChapter(AddChapters(chapters, patterns[..p], text, book, pageNum, titleOf), patterns[p], text, book, pageNum, titleOf)
  {
    var ps := patterns[..p + 1];
    assert ps[..|ps| - 1] == patterns[..p];
    assert ps[|ps| - 1] == patterns[p];
  }

  /** The chapter-pattern loop of one page. */
  method DetectChapters(chapters0: seq<Chapter>, currentChapter0: Option<Chapter>, pageText: string,
                        currentBook: nat, pageNum: int, titleOf: TitleRegex)
    returns (chapters: seq<Chapter>, currentChapter: Option<Chapter>)
    requires currentChapter0 == if chapters0 == [] then None else Some(chapters0[|chapters0| - 1])
    ensures chapters == AddChapters(chapters0, ChapterPatterns, pageText, currentBook, pageNum, titleOf)
    ensures currentChapter == if chapters == [] then None else Some(chapters[|chapters| - 1])
  {
    chapters, currentChapter := DetectPatterns(chapters0, currentChapter0, ChapterPatterns, pageText, currentBook, pageNum, titleOf);
  }

  /** The loop of lines 103 to 120 over a list of chapter patterns. */
  method DetectPatterns(chapters0: seq<Chapter>, currentChapter0: Option<Chapter>, patterns: seq<ChapterPattern>,
                        pageText: string, currentBook: nat, pageNum: int, titleOf: TitleRegex)
    returns (chapters: seq<Chapter>, currentChapter: Option<Chapter>)
    requires currentChapter0 == if chapters0 == [] then None else Some(chapters0[|chapters0| - 1])
    ensures chapters == AddChapters(chapters0, patterns, pageText, currentBook, pageNum, titleOf)
    ensures currentChapter == if chapters == [] then None else Some(chapters[|chapters| - 1])
  {
    chapters, currentChapter := chapters0, currentChapter0;
    for p := 0 to |patterns|
      invariant chapters == AddChapters(chapters0, patterns[..p], pageText, currentBook, pageNum, titleOf)
      invariant currentChapter == if chapters == [] then None else Some(chapters[|chapters| - 1])
    {
      AddChaptersStep(chapters0, patterns, p, pageText, currentBook, pageNum, titleOf);
      chapters, currentChapter := DetectChapter(chapters, currentChapter, patterns[p], pageText, currentBook, pageNum, titleOf);
    }
    assert patterns[..|patterns|] == patterns;
  }

  /** One pattern of the chapter-pattern loop: a match appends a chapter
      and makes it the current one. */
  method DetectChapter(chapters0: seq<Chapter>, currentChapter0: Option<Chapter>, pattern: ChapterPattern,
                       pageText: string, currentBook: nat, pageNum: int, titleOf: TitleRegex)
    returns (chapters: seq<Chapter>, currentChapter: Option<Chapter>)
    requires currentChapter0 == if chapters0 == [] then None else Some(chapters0[|chapters0| - 1])
    ensures chapters == AddChapter(chapters0, pattern, pageText, currentBook, pageNum, titleOf)
    ensures currentChapter == if chapters == [] then None else Some(chapters[|chapters| - 1])
  {
    chapters, currentChapter := chapters0, currentChapter0;
    var m := SearchChapter(pattern, pageText);
    if m.Some? {
      var title := ChapterTitle(titleOf, pattern, pageText, m.value);
      var c := Chapter(|chapters| + 1, currentBook, m.value, title, pageNum);
      currentChapter := Some(c);
      chapters := chapters + [c];
    }
  }

  /** The story match of one page. */
  method DetectStory(stories0: seq<Story>, storyId0: nat, chapters: seq<Chapter>, currentChapter: Option<Chapter>,
                     pageText: string, currentBook: nat, pageNum: int)
    returns (stories: seq<Story>, storyId: nat)
    requires storyId0 == |stories0|
    requires currentChapter == if chapters == [] then None else Some(chapters[|chapters| - 1])
    ensures stories == AddStory(stories0, chapters, pageText, currentBook, pageNum)
    ensures storyId == |stories|
  {
    stories, storyId := stories0, storyId0;
    match StoryHeader(pageText)
    case Some((num, raw)) =>
      var title := Strip(raw);
      if 10 < |title| < 150 {
        storyId := storyId + 1;
        var chapterId := match currentChapter case Some(c) => Some(c.id) case None => None;
        stories := stories + [Story(storyId, currentBook, chapterId, num, title, pageNum)];
      }
    case None =>
  }

  /** `identify_chapters_and_stories`. */
  method IdentifyChaptersAndStories(pages: seq<Page>, titleOf: TitleRegex)
    returns (chapters: seq<Chapter>, stories: seq<Story>)
    ensures chapters == Scan(pages, titleOf).chapters && stories == Scan(pages, titleOf).stories
    ensures ChapterIdsConsecutive(chapters) && StoryIdsConsecutive(stories)
    ensures forall s :: s in stories ==> StoryTitleOk(s.title) && Strip(s.title) == s.title
    ensures |stories| <= |pages|
  {
    chapters, stories := [], [];
    var currentBook: nat := 1;
    var currentChapter: Option<Chapter> := None;
    var storyId: nat := 0;
    for i := 0 to |pages|
      invariant Scan(pages[..i], titleOf) == ScanState(currentBook, chapters, stories)
      invariant currentChapter == if chapters == [] then None else Some(chapters[|chapters| - 1])
      invariant storyId == |stories|
    {
      var page := pages[i];
      assert pages[..i + 1][..i] == pages[..i];
      currentBook := LookupBook(currentBook, page.number);
      var pageText := BuildPageText(page.segments);
      chapters, currentChapter := DetectChapters(chapters, currentChapter, pageText, currentBook, page.number, titleOf);
      stories, storyId := DetectStory(stories, storyId, chapters, currentChapter, pageText, currentBook, page.number);
    }
    assert pages[..|pages|] == pages;
    ScanProperties(pages, titleOf);
  }

  /** The chapters of `st'` extend those of `st`; each added chapter is
      numbered on, in book `book` and on page `pageNum`. */
  predicate ChaptersExtend(st: ScanState, st': ScanState, book: nat, pageNum: int) {
    var chs := st'.chapters;
    && |st.chapters| <= |chs|
    && (forall c :: 0 <= c < |st.chapters| ==> chs[c] == st.chapters[c])
    && (forall c :: |st.chapters| <= c < |chs| ==> chs[c].id == c + 1 && chs[c].startPage == pageNum && chs[c].bookId == book)
  }

  /** The stories of `st'` extend those of `st` by at most one, numbered
      on, in book `book`, on page `pageNum` and linked to the last chapter
      of `st'`. */
  predicate StoriesExtend(st: ScanState, st': ScanState, book: nat, pageNum: int) {
    && |st.stories| <= |st'.stories| <= |st.stories| + 1 && st'.stories[..|st.stories|] == st.stories
    && (|st'.stories| > |st.stories| ==>
          var s := st'.stories[|st.stories|];
          && s.id == |st.stories| + 1 && s.bookId == book && s.startPage == pageNum
          && StoryTitleOk(s.title) && Strip(s.title) == s.title
          && s.chapterId == (if st'.chapters == [] then None else Some(st'.chapters[|st'.chapters| - 1].id)))
  }

  /** A page extends the chapters. */
  lemma ScanPageChapters(st: ScanState, page: Page, titleOf: TitleRegex)
    ensures ChaptersExtend(st, ScanPage(st, page, titleOf), NextBook(st.book, page.number), page.number)
  {
    AddChaptersSpec(st.chapters, ChapterPatterns, PageText(page.segments), NextBook(st.book, page.number), page.number, titleOf);
  }

  /** A page extends the stories. */
  lemma ScanPageStories(st: ScanState, page: Page, titleOf: TitleRegex)
    ensures StoriesExtend(st, ScanPage(st, page, titleOf), NextBook(st.book, page.number), page.number)
  {
  }

  /** Extending the chapters and the stories keeps both numbered 1, 2,
      3, ... and every story title stripped and of the right length. */
  lemma NumberingKept(st: ScanState, st': ScanState, book: nat, pageNum: int)
    requires WellNumbered(st)
    requires ChaptersExtend(st, st', book, pageNum) && StoriesExtend(st, st', book, pageNum)
    ensures WellNumbered(st')
  {
    var stories := st'.stories;
    forall i | 0 <= i < |stories| ensures stories[i].id == i + 1 {
      if i < |st.stories| {
        assert stories[i] == stories[..|st.stories|][i];
      }
    }
    forall s | s in stories ensures StoryTitleOk(s.title) && Strip(s.title) == s.title {
      var i :| 0 <= i < |stories| && stories[i] == s;
      if i < |st.stories| {
        assert stories[i] == stories[..|st.stories|][i] == st.stories[i];
      }
    }
  }

  lemma ScanPageNumbering(st: ScanState, page: Page, titleOf: TitleRegex)
    requires WellNumbered(st)
    ensures WellNumbered(ScanPage(st, page, titleOf))
    ensures |ScanPage(st, page, titleOf).stories| <= |st.stories| + 1
  {
    ScanPageChapters(st, page, titleOf);
    ScanPageStories(st, page, titleOf);
    NumberingKept(st, ScanPage(st, page, titleOf), NextBook(st.book, page.number), page.number);
  }

  /** The ids of chapters and stories are 1, 2, 3, ... in discovery order,
      every story title is stripped and of length 11 to 149, and a page
      gives at most one story. */
  lemma {:induction false} ScanProperties(pages: seq<Page>, titleOf: TitleRegex)
    ensures WellNumbered(Scan(pages, titleOf))
    ensures |Scan(pages, titleOf).stories| <= |pages|
  {
    if pages != [] {
      ScanProperties(pages[..|pages| - 1], titleOf);
      ScanPageNumbering(Scan(pages[..|pages| - 1], titleOf), pages[|pages| - 1], titleOf);
    }
  }

  /** Story `s` can come from page `p`: the page has the story's number
      and its text starts with that number and a dot. */
  predicate FromPage(p: Page, s: Story) {
    p.number == s.startPage
    && StoryHeader(PageText(p.segments)).Some?
    && StoryHeader(PageText(p.segments)).value.0 == s.number
    && s.title == Strip(StoryHeader(PageText(p.segments)).value.1)
  }

  /** Page `p` gives a story. */
  predicate PageGivesStory(p: Page) {
    GivesStory(PageText(p.segments))
  }

  /** `news` keeps the stories of `olds` and adds at most one, which
      `from` relates to `page`. */
  predicate AddsAtMostOneFrom(from: (Page, Story) -> bool, gives: Page -> bool, olds: seq<Story>, news: seq<Story>, page: Page) {
    && |olds| <= |news| <= |olds| + 1
    && (|news| > |olds| <==> gives(page))
    && (forall k :: 0 <= k < |olds| ==> news[k] == olds[k])
    && (|news| > |olds| ==> from(page, news[|olds|]))
  }

  /** One page keeps the stories found so far and adds at most one, found
      on that page. */
  lemma ScanPageStory(st: ScanState, page: Page, titleOf: TitleRegex)
    ensures AddsAtMostOneFrom(FromPage, PageGivesStory, st.stories, ScanPage(st, page, titleOf).stories, page)
  {
    var r := ScanPage(st, page, titleOf).stories;
    assert r[..|st.stories|] == st.stories;
    assert forall k :: 0 <= k < |st.stories| ==> r[k] == r[..|st.stories|][k];
  }

  /** Story `k` comes from page `idx[k]` (as `from` relates them), and the
      pages are in order. */
  predicate OnPages(from: (Page, Story) -> bool, pages: seq<Page>, stories: seq<Story>, idx: seq<nat>) {
    && |idx| == |stories|
    && (forall k :: 0 <= k < |idx| ==> idx[k] < |pages| && from(pages[idx[k]], stories[k]))
    && (forall k, l :: 0 <= k < l < |idx| ==> idx[k] < idx[l])
  }

  /** Extending the page indices: a kept story keeps its page, a new one
      gets the last page. */
  lemma OnPagesFrom(from: (Page, Story) -> bool, gives: Page -> bool, pages: seq<Page>, olds: seq<Story>, news: seq<Story>,
                    before: seq<nat>, idx: seq<nat>)
    requires pages != []
    requires OnPages(from, pages[..|pages| - 1], olds, before) && AddsAtMostOneFrom(from, gives, olds, news, pages[|pages| - 1])
    requires idx == if |news| == |olds| then before else before + [|pages| - 1]
    ensures forall k :: 0 <= k < |idx| ==> idx[k] < |pages| && from(pages[idx[k]], news[k])
  {
    var prefix := pages[..|pages| - 1];
    forall k | 0 <= k < |idx| ensures idx[k] < |pages| && from(pages[idx[k]], news[k]) {
      if k < |before| {
        assert idx[k] == before[k] && pages[before[k]] == prefix[before[k]] && news[k] == olds[k];
      }
    }
  }

  /** The extended page indices stay increasing. */
  lemma OnPagesOrdered(before: seq<nat>, n: nat, idx: seq<nat>, extend: bool)
    requires forall k :: 0 <= k < |before| ==> before[k] < n
    requires forall k, l :: 0 <= k < l < |before| ==> before[k] < before[l]
    requires idx == if extend then before + [n] else before
    ensures forall k, l :: 0 <= k < l < |idx| ==> idx[k] < idx[l]
  {
    forall k, l | 0 <= k < l < |idx| ensures idx[k] < idx[l] {
      if l < |before| {
        assert idx[k] == before[k] && idx[l] == before[l];
      } else {
        assert idx[k] == before[k] < n == idx[l];
      }
    }
  }

  /** One more page keeps the page indices of the stories before it and
      gives the new story, if any, the last page. */
  lemma OnPagesStep(from: (Page, Story) -> bool, gives: Page -> bool, pages: seq<Page>, olds: seq<Story>, news: seq<Story>, before: seq<nat>)
    returns (idx: seq<nat>)
    requires pages != []
    requires OnPages(from, pages[..|pages| - 1], olds, before) && AddsAtMostOneFrom(from, gives, olds, news, pages[|pages| - 1])
    ensures OnPages(from, pages, news, idx)
    ensures idx == before + if gives(pages[|pages| - 1]) then [|pages| - 1] else []
  {
    idx := if |news| == |olds| then before else before + [|pages| - 1];
    assert before + [] == before;
    OnPagesFrom(from, gives, pages, olds, news, before, idx);
    OnPagesOrdered(before, |pages| - 1, idx, |news| != |olds|);
  }

  /** Stories come one per page at most, in page order, and only from
      pages whose text starts with the story's number and a dot (the
      story pattern is anchored at the start of the page text): `idx[k]`
      is the index of the page story `k` was found on. */
  lemma {:induction false} StoryPages(pages: seq<Page>, titleOf: TitleRegex) returns (idx: seq<nat>)
    ensures OnPages(FromPage, pages, Scan(pages, titleOf).stories, idx)
    ensures idx == Marked(pages, PageGivesStory)
  {
    if pages == [] {
      idx := [];
    } else {
      var prefix := pages[..|pages| - 1];
      var st := Scan(prefix, titleOf);
      var before := StoryPages(prefix, titleOf);
      ScanPageStory(st, pages[|pages| - 1], titleOf);
      idx := OnPagesStep(FromPage, PageGivesStory, pages, st.stories, Scan(pages, titleOf).stories, before);
    }
  }

  /** Exactly the pages whose text starts with a story header with a
      stripped title of 11 to 149 characters give a story, one each, in
      page order: story `k` has the number and the stripped title of the
      header on page `m[k]`, the `k`-th such page, and every such page is
      some `m[k]`. */
  lemma StoriesExact(pages: seq<Page>, titleOf: TitleRegex)
    ensures var stories, m := Scan(pages, titleOf).stories, Marked(pages, PageGivesStory);
      && OnPages(FromPage, pages, stories, m)
      && (forall k :: 0 <= k < |m| ==> PageGivesStory(pages[m[k]]))
      && (forall i :: 0 <= i < |pages| && PageGivesStory(pages[i]) ==> i in m)
  {
    var idx := StoryPages(pages, titleOf);
    MarkedSpec(pages, PageGivesStory);
  }

  /** Pages numbered in strictly increasing order, as the PDF gives them. */
  predicate Increasing(pages: seq<Page>) {
    forall i, j :: 0 <= i < j < |pages| ==> pages[i].number < pages[j].number
  }

  /** The story's chapter is the last chapter starting on or before the
      story's page, and there is none exactly when no chapter starts
      that early. */
  predicate LinkedToLatestChapter(chapters: seq<Chapter>, s: Story) {
    match s.chapterId
    case None => forall c :: 0 <= c < |chapters| ==> chapters[c].startPage > s.startPage
    case Some(id) =>
      1 <= id <= |chapters| && chapters[id - 1].startPage <= s.startPage
      && forall c :: id <= c < |chapters| ==> chapters[c].startPage > s.startPage
  }

  predicate AllLinked(st: ScanState) {
    forall k :: 0 <= k < |st.stories| ==> LinkedToLatestChapter(st.chapters, st.stories[k])
  }

  predicate StartsNoLaterThan(st: ScanState, n: int) {
    && (forall c :: 0 <= c < |st.chapters| ==> st.chapters[c].startPage <= n)
    && (forall k :: 0 <= k < |st.stories| ==> st.stories[k].startPage <= n)
  }

  /** A story linked before more chapters are appended on a later page
      stays linked. */
  lemma LinkSurvivesLaterChapters(chapters: seq<Chapter>, chs: seq<Chapter>, s: Story, pageNum: int)
    requires LinkedToLatestChapter(chapters, s) && s.startPage < pageNum
    requires |chapters| <= |chs|
    requires forall c :: 0 <= c < |chapters| ==> chs[c] == chapters[c]
    requires forall c :: |chapters| <= c < |chs| ==> chs[c].startPage == pageNum
    ensures LinkedToLatestChapter(chs, s)
  {
  }

  /** One page's additions keep every story linked: old stories by
      `LinkSurvivesLaterChapters`, the new story because it takes the last
      chapter, which starts on or before its page. */
  lemma LinksKept(st: ScanState, st': ScanState, book: nat, pageNum: int)
    requires ChapterIdsConsecutive(st.chapters) && AllLinked(st)
    requires forall c :: 0 <= c < |st.chapters| ==> st.chapters[c].startPage < pageNum
    requires forall k :: 0 <= k < |st.stories| ==> st.stories[k].startPage < pageNum
    requires ChaptersExtend(st, st', book, pageNum) && StoriesExtend(st, st', book, pageNum)
    ensures AllLinked(st') && StartsNoLaterThan(st', pageNum)
  {
    var chapters, stories, chs, ss := st.chapters, st.stories, st'.chapters, st'.stories;
    forall k | 0 <= k < |ss| ensures LinkedToLatestChapter(chs, ss[k]) && ss[k].startPage <= pageNum {
      if k < |stories| {
        assert ss[k] == ss[..|stories|][k] == stories[k];
        LinkSurvivesLaterChapters(chapters, chs, stories[k], pageNum);
      } else if chs != [] {
        var last := |chs| - 1;
        if last < |chapters| {
          assert chs[last] == chapters[last];
        }
        assert chs[last].id == |chs| && chs[last].startPage <= pageNum;
      }
    }
  }

  lemma ScanPageLinks(st: ScanState, page: Page, titleOf: TitleRegex)
    requires ChapterIdsConsecutive(st.chapters) && AllLinked(st)
    requires forall c :: 0 <= c < |st.chapters| ==> st.chapters[c].startPage < page.number
    requires forall k :: 0 <= k < |st.stories| ==> st.stories[k].startPage < page.number
    ensures AllLinked(ScanPage(st, page, titleOf))
    ensures StartsNoLaterThan(ScanPage(st, page, titleOf), page.number)
  {
    ScanPageChapters(st, page, titleOf);
    ScanPageStories(st, page, titleOf);
    LinksKept(st, ScanPage(st, page, titleOf), NextBook(st.book, page.number), page.number);
  }

  /** For pages in increasing order, every story is linked to the latest
      chapter that starts on or before its page. */
  lemma {:induction false} StoryChapterIsLatest(pages: seq<Page>, titleOf: TitleRegex)
    requires Increasing(pages)
    ensures AllLinked(Scan(pages, titleOf))
    ensures pages != [] ==> StartsNoLaterThan(Scan(pages, titleOf), pages[|pages| - 1].number)
  {
    if pages != [] {
      var prefix := pages[..|pages| - 1];
      var page := pages[|pages| - 1];
      StoryChapterIsLatest(prefix, titleOf);
      ScanProperties(prefix, titleOf);
      if prefix != [] {
        assert prefix[|prefix| - 1].number < page.number;
      }
      ScanPageLinks(Scan(prefix, titleOf), page, titleOf);
    }
  }

  /** Every story and chapter on a page of pages 3 to 452 carries the
      book whose range holds that page. */
  predicate BooksAttributed(st: ScanState) {
    && (forall s :: s in st.stories && 3 <= s.startPage <= 452 ==> s.bookId == BookOf(Books, s.startPage).value)
    && (forall c :: c in st.chapters && 3 <= c.startPage <= 452 ==> c.bookId == BookOf(Books, c.startPage).value)
  }

  lemma ScanPageBooks(st: ScanState, page: Page, titleOf: TitleRegex)
    requires BooksAttributed(st)
    ensures BooksAttributed(ScanPage(st, page, titleOf))
  {
    AddChaptersSpec(st.chapters, ChapterPatterns, PageText(page.segments), NextBook(st.book, page.number), page.number, titleOf);
  }

  /** A story on a page inside some book's range is attributed to that
      book; pages outside every range keep the previous page's book. */
  lemma {:induction false} StoryBooks(pages: seq<Page>, titleOf: TitleRegex)
    ensures BooksAttributed(Scan(pages, titleOf))
  {
    if pages != [] {
      StoryBooks(pages[..|pages| - 1], titleOf);
      ScanPageBooks(Scan(pages[..|pages| - 1], titleOf), pages[|pages| - 1], titleOf);
    }
  }

  // ---------------------------------------------------------------------
  // extract_story_content
  // ---------------------------------------------------------------------

  /** The last page of a story's window: the next story's first page, or
      five pages on when there is no next story. */
  function EndPage(story: Story, next: Option<Story>): (e: int)
    ensures next.None? ==> e == story.startPage + 5
    ensures next.Some? ==> e == next.value.startPage
  {
    match next
    case Some(n) => n.startPage
    case None => story.startPage + 5
  }

  /** The segments of the pages the loop reads: pages before `start` are
      skipped and the first page after `end` stops the loop. */
  function WindowSegments(pages: seq<Page>, start: int, end: int): seq<Segment>
  {
    if pages == [] then []
    else if pages[0].number < start then WindowSegments(pages[1..], start, end)
    else if pages[0].number > end then []
    else pages[0].segments + WindowSegments(pages[1..], start, end)
  }

  /** Every segment of the window comes from a page numbered between
      `start` and `end`. */
  lemma {:induction false} WindowSegmentsInRange(pages: seq<Page>, start: int, end: int)
    ensures forall x :: x in WindowSegments(pages, start, end) ==>
      exists p :: 0 <= p < |pages| && start <= pages[p].number <= end && x in pages[p].segments
  {
    if pages != [] {
      WindowSegmentsInRange(pages[1..], start, end);
      forall x | x in WindowSegments(pages, start, end)
        ensures exists p :: 0 <= p < |pages| && start <= pages[p].number <= end && x in pages[p].segments
      {
        if pages[0].number >= start && pages[0].number <= end && x in pages[0].segments {
          assert start <= pages[0].number <= end && x in pages[0].segments;
        } else {
          assert x in WindowSegments(pages[1..], start, end);
          var p :| 0 <= p < |pages[1..]| && start <= pages[1..][p].number <= end && x in pages[1..][p].segments;
          assert pages[p + 1] == pages[1..][p];
        }
      }
    }
  }

  /** The index of the first segment whose text contains `key`, or the
      number of segments when none does. */
  function FirstWith(segs: seq<Segment>, key: string): (r: nat)
    ensures r <= |segs|
    ensures forall j :: 0 <= j < r ==> !Contains(segs[j].text, key)
    ensures r < |segs| ==> Contains(segs[r].text, key)
  {
    if segs == [] then 0
    else
      var f := FirstWith(segs[..|segs| - 1], key);
      if f < |segs| - 1 then f
      else if Contains(segs[|segs| - 1].text, key) then |segs| - 1
      else |segs|
  }

  datatype PieceKind = Arabic | English

  datatype ContentPiece = ContentPiece(kind: PieceKind, text: string)

  /** A segment as a content piece, typed "arabic" when flagged Arabic. */
  function Piece(seg: Segment): (c: ContentPiece)
    ensures c.text == seg.text && (c.kind == Arabic <==> seg.isArabic)
  {
    ContentPiece(if seg.isArabic then Arabic else English, seg.text)
  }

  /** Each segment as a content piece, in order. */
  function Classify(segs: seq<Segment>): (r: seq<ContentPiece>)
    ensures |r| == |segs|
    ensures forall i :: 0 <= i < |segs| ==> r[i] == Piece(segs[i])
  {
    if segs == [] then [] else Classify(segs[..|segs| - 1]) + [Piece(segs[|segs| - 1])]
  }

  /** The `in_story` flag and the list being built. */
  datatype Collecting = Collecting(inStory: bool, content: seq<ContentPiece>)

  /** One segment of the window: the flag is raised by a segment holding
      the key and, once raised, every segment is appended. */
  function CollectStep(st: Collecting, seg: Segment, key: string): Collecting
  {
    var inStory := st.inStory || Contains(seg.text, key);
    Collecting(inStory, if inStory then st.content + [Piece(seg)] else st.content)
  }

  /** The segment loop, as a left fold from the state `st`. */
  function Collect(st: Collecting, segs: seq<Segment>, key: string): Collecting
  {
    if segs == [] then st else CollectStep(Collect(st, segs[..|segs| - 1], key), segs[|segs| - 1], key)
  }

  lemma {:induction false} CollectAppend(st: Collecting, a: seq<Segment>, b: seq<Segment>, key: string)
    ensures Collect(st, a + b, key) == Collect(Collect(st, a, key), b, key)
  {
    if b != [] {
      assert (a + b)[..|a + b| - 1] == a + b[..|b| - 1];
      CollectAppend(st, a, b[..|b| - 1], key);
    } else {
      assert a + b == a;
    }
  }

  /** Starting with the flag down, the loop yields exactly the segments
      from the first one containing the key on, and ends with the flag up
      exactly when some segment contains it. */
  lemma {:induction false} CollectSpec(segs: seq<Segment>, key: string)
    ensures var f := FirstWith(segs, key);
      Collect(Collecting(false, []), segs, key) == Collecting(f < |segs|, Classify(segs[f..]))
  {
    if segs != [] {
      var init := segs[..|segs| - 1];
      var seg := segs[|segs| - 1];
      CollectSpec(init, key);
      var f := FirstWith(init, key);
      if f < |init| {
        assert segs[f..] == init[f..] + [seg];
      } else if Contains(seg.text, key) {
        assert segs[|init|..] == [seg];
      } else {
        assert segs[|segs|..] == [];
      }
    }
  }

  /** The segment loop of one page. */
  method CollectPage(st0: Collecting, segs: seq<Segment>, key: string) returns (st: Collecting)
    ensures st == Collect(st0, segs, key)
  {
    var inStory, content := st0.inStory, st0.content;
    for k := 0 to |segs|
      invariant Collecting(inStory, content) == Collect(st0, segs[..k], key)
    {
      assert segs[..k + 1][..k] == segs[..k];
      var seg := segs[k];
      if Contains(seg.text, key) {
        inStory := true;
      }
      if inStory {
        content := content + [ContentPiece(if seg.isArabic then Arabic else English, seg.text)];
      }
    }
    assert segs[..|segs|] == segs;
    st := Collecting(inStory, content);
  }

  /** `extract_story_content`: from the first segment of the window whose
      text contains the first 30 characters of the title, every segment
      of the window, in order, typed by its Arabic flag; nothing when no
      segment of the window contains them. */
  method ExtractStoryContent(pages: seq<Page>, story: Story, next: Option<Story>) returns (content: seq<ContentPiece>)
    ensures var w := WindowSegments(pages, story.startPage, EndPage(story, next));
      content == Classify(w[FirstWith(w, Take(story.title, 30))..])
  {
    var startPage := story.startPage;
    var endPage := EndPage(story, next);
    var key := Take(story.title, 30);
    ghost var window := WindowSegments(pages, startPage, endPage);
    ghost var seen: seq<Segment> := [];
    var st := Collecting(false, []);
    var i := 0;
    while i < |pages|
      invariant 0 <= i <= |pages|
      invariant window == seen + WindowSegments(pages[i..], startPage, endPage)
      invariant st == Collect(Collecting(false, []), seen, key)
    {
      var page := pages[i];
      assert pages[i..][1..] == pages[i + 1..];
      if page.number < startPage {
        i := i + 1;
        continue;
      }
      if page.number > endPage {
        break;
      }
      CollectAppend(Collecting(false, []), seen, page.segments, key);
      st := CollectPage(st, page.segments, key);
      seen := seen + page.segments;
      i := i + 1;
    }
    assert seen == window;
    CollectSpec(window, key);
    content := st.content;
  }

  // ---------------------------------------------------------------------
  // process_full_pdf: Arabic statistics and tagging
  // ---------------------------------------------------------------------

  /** The texts of the Arabic segments, in order. */
  function ArabicTexts(segs: seq<Segment>): (r: seq<string>)
    ensures |r| <= |segs|
  {
    if segs == [] then []
    else ArabicTexts(segs[..|segs| - 1]) + (if segs[|segs| - 1].isArabic then [segs[|segs| - 1].text] else [])
  }

  /** `ArabicTexts` is empty exactly when no segment is Arabic. */
  lemma {:induction false} ArabicTextsEmpty(segs: seq<Segment>)
    ensures ArabicTexts(segs) == [] <==> forall i :: 0 <= i < |segs| ==> !segs[i].isArabic
  {
    if segs != [] {
      var init := segs[..|segs| - 1];
      ArabicTextsEmpty(init);
      if ArabicTexts(segs) == [] {
        assert ArabicTexts(init) == [] && !segs[|segs| - 1].isArabic;
        forall i | 0 <= i < |segs| ensures !segs[i].isArabic {
          if i < |init| { assert segs[i] == init[i]; }
        }
      } else if ArabicTexts(init) != [] {
        var j :| 0 <= j < |init| && init[j].isArabic;
        assert segs[j] == init[j];
      }
    }
  }

  predicate IsArabicSeg(s: Segment) {
    s.isArabic
  }

  /** `ArabicTexts` holds, in order, the text of each segment flagged
      Arabic and nothing else: its k-th entry is the text of the k-th
      Arabic segment. */
  lemma {:induction false} ArabicTextsSpec(segs: seq<Segment>)
    ensures var m := Marked(segs, IsArabicSeg);
      && |ArabicTexts(segs)| == |m|
      && forall k :: 0 <= k < |m| ==> m[k] < |segs| && ArabicTexts(segs)[k] == segs[m[k]].text
  {
    if segs != [] {
      var init := segs[..|segs| - 1];
      ArabicTextsSpec(init);
      var mi := Marked(init, IsArabicSeg);
      forall k | 0 <= k < |mi| ensures ArabicTexts(segs)[k] == segs[mi[k]].text {
        assert segs[mi[k]] == init[mi[k]];
      }
    }
  }

  datatype ArabicPage = ArabicPage(page: int, arabicCount: nat, arabicTexts: seq<string>)

  /** The `pages_with_arabic` entries, in page order. */
  function ArabicPages(pages: seq<Page>): seq<ArabicPage>
  {
    if pages == [] then []
    else
      var texts := ArabicTexts(pages[|pages| - 1].segments);
      ArabicPages(pages[..|pages| - 1])
      + (if texts != [] then [ArabicPage(pages[|pages| - 1].number, |texts|, texts)] else [])
  }

  /** The number of Arabic segments over all pages. */
  function CountArabic(pages: seq<Page>): nat
  {
    if pages == [] then 0
    else CountArabic(pages[..|pages| - 1]) + |ArabicTexts(pages[|pages| - 1].segments)|
  }

  function SumCounts(entries: seq<ArabicPage>): nat
  {
    if entries == [] then 0 else SumCounts(entries[..|entries| - 1]) + entries[|entries| - 1].arabicCount
  }

  /** Only pages with an Arabic segment get an entry, each entry counts
      its texts, and the counts add up to the Arabic segments of all
      pages. */
  lemma {:induction false} ArabicPagesProperties(pages: seq<Page>)
    ensures forall e :: e in ArabicPages(pages) ==> e.arabicCount == |e.arabicTexts| > 0
    ensures SumCounts(ArabicPages(pages)) == CountArabic(pages)
    ensures |ArabicPages(pages)| <= |pages|
  {
    if pages != [] {
      var prefix := pages[..|pages| - 1];
      ArabicPagesProperties(prefix);
      var texts := ArabicTexts(pages[|pages| - 1].segments);
      if texts != [] {
        var e := [ArabicPage(pages[|pages| - 1].number, |texts|, texts)];
        assert (ArabicPages(prefix) + e)[..|ArabicPages(prefix) + e| - 1] == ArabicPages(prefix);
      } else {
        assert ArabicPages(pages) == ArabicPages(prefix);
      }
    }
  }

  /** The `pages_with_arabic` loop and `arabic_segment_count`. */
  method ArabicStatistics(pages: seq<Page>) returns (pagesWithArabic: seq<ArabicPage>, arabicSegmentCount: nat)
    ensures pagesWithArabic == ArabicPages(pages)
    ensures arabicSegmentCount == CountArabic(pages) == SumCounts(pagesWithArabic)
    ensures forall e :: e in pagesWithArabic ==> e.arabicCount == |e.arabicTexts| > 0
  {
    pagesWithArabic, arabicSegmentCount := [], 0;
    for i := 0 to |pages|
      invariant pagesWithArabic == ArabicPages(pages[..i])
      invariant arabicSegmentCount == CountArabic(pages[..i])
    {
      assert pages[..i + 1][..i] == pages[..i];
      var arabicTexts := ArabicTexts(pages[i].segments);
      if arabicTexts != [] {
        pagesWithArabic := pagesWithArabic + [ArabicPage(pages[i].number, |arabicTexts|, arabicTexts)];
        arabicSegmentCount := arabicSegmentCount + |arabicTexts|;
      }
    }
    assert pages[..|pages|] == pages;
    ArabicPagesProperties(pages);
  }

  const OpenTag: string := "<arabic>"
  const CloseTag: string := "</arabic>"

  /** The unstripped page content: an Arabic segment on its own line
      between `<arabic>` tags, any other segment followed by a space. */
  function TaggedText(segs: seq<Segment>): string
  {
    ConcatMap(segs, TagPiece)
  }

  /** What one segment adds to the tagged page text. */
  function TagPiece(s: Segment): string
  {
    if s.isArabic then "\n" + OpenTag + s.text + CloseTag + "\n" else s.text + " "
  }

  datatype PageContent = PageContent(page: int, content: string)

  /** The `fazail_full_content.json` records: one per page, its tagged
      text stripped. */
  method FullContent(pages: seq<Page>) returns (full: seq<PageContent>)
    ensures |full| == |pages|
    ensures forall i :: 0 <= i < |pages| ==>
      full[i] == PageContent(pages[i].number, Strip(TaggedText(pages[i].segments)))
  {
    full := [];
    for i := 0 to |pages|
      invariant |full| == i
      invariant forall j :: 0 <= j < i ==>
        full[j] == PageContent(pages[j].number, Strip(TaggedText(pages[j].segments)))
    {
      var pageText := PageTagged(pages[i].segments);
      full := full + [PageContent(pages[i].number, Strip(pageText))];
    }
  }

  /** The inner loop of lines 253 to 258: one page's tagged text. */
  method PageTagged(segs: seq<Segment>) returns (pageText: string)
    ensures pageText == TaggedText(segs)
  {
    pageText := "";
    for k := 0 to |segs|
      invariant pageText == TaggedText(segs[..k])
    {
      assert segs[..k + 1][..k] == segs[..k];
      if segs[k].isArabic {
        pageText := pageText + ("\n" + OpenTag + segs[k].text + CloseTag + "\n");
      } else {
        pageText := pageText + (segs[k].text + " ");
      }
    }
    assert segs[..|segs|] == segs;
  }

}

/** `process_full_extraction.py`: rebuilds the story list of the website
    data from the page dump. Stories 1 to 10 are kept; for every book of
    the data file with a known page range, the text of its pages is cut
    either at the places where its chapter titles occur (when at least half
    of them are found) or at "Story n" / "Hadith n" / "No. n" markers, whose
    pieces are then dealt out to the chapters in consecutive blocks. */
module ProcessFullExtraction {
  import opened Wrappers
  import opened Text
  import opened SiteData

  // ---------------------------------------------------------------------
  // BOOKS_META
  // ---------------------------------------------------------------------

  /** The page range of each book id. */
  const BooksMeta: map<int, (int, int)> := map[
    1 := (3, 130), 2 := (131, 180), 3 := (181, 260), 4 := (261, 320),
    5 := (321, 370), 6 := (371, 420), 7 := (421, 440), 8 := (441, 452)]

  /** The ranges are those of books 1 to 8, each starting right after the
      previous one ends, covering pages 3 to 452. */
  lemma BooksMetaContiguous()
    ensures BooksMeta.Keys == {1, 2, 3, 4, 5, 6, 7, 8}
    ensures BooksMeta[1].0 == 3 && BooksMeta[8].1 == 452
    ensures forall id :: 2 <= id <= 8 ==> BooksMeta[id].0 == BooksMeta[id - 1].1 + 1
    ensures forall id :: id in BooksMeta ==> BooksMeta[id].0 <= BooksMeta[id].1
  {
  }

  // ---------------------------------------------------------------------
  // clean_text
  // ---------------------------------------------------------------------

  /** The five patterns `clean_text` deletes, in the order it deletes them:
      `Stories of the Sahaabah` and `Virtues of the Holy Qur'an` (both
      case-insensitive), `Ch\. [IVX0-9]+:.*?\d+`, `Part [IVX]+.*` and
      `Page No:`. */
  datatype Boilerplate = BookOneTitle | BookTwoTitle | RunningHead | PartLine | PageLabel

  const Removals: seq<Boilerplate> := [BookOneTitle, BookTwoTitle, RunningHead, PartLine, PageLabel]

  /** `lit` (given in lower case) at the start of `s`, ignoring the case of
      ASCII letters. */
  predicate StartsWithIgnoringCase(s: string, lit: string) {
    |lit| <= |s| && Lower(s[..|lit|]) == lit
  }

  /** The number of characters before the first digit or line break. */
  function NonDigitRun(s: string): (r: nat)
    ensures r <= |s| && forall i :: 0 <= i < r ==> !IsDigit(s[i]) && s[i] != '\n'
    ensures r < |s| ==> IsDigit(s[r]) || s[r] == '\n'
  {
    if s != [] && !IsDigit(s[0]) && s[0] != '\n' then 1 + NonDigitRun(s[1..]) else 0
  }

  /** The number of characters before the first line break. */
  function LineRun(s: string): (r: nat)
    ensures r <= |s| && forall i :: 0 <= i < r ==> s[i] != '\n'
    ensures r < |s| ==> s[r] == '\n'
  {
    if s != [] && s[0] != '\n' then 1 + LineRun(s[1..]) else 0
  }

  /** The length of the run of characters of `set` at the start of `s`. */
  function RunOf(s: string, chars: set<char>): (r: nat)
    ensures r <= |s| && forall i :: 0 <= i < r ==> s[i] in chars
    ensures r < |s| ==> s[r] !in chars
  {
    if s != [] && s[0] in chars then 1 + RunOf(s[1..], chars) else 0
  }

  /** The length of the match of `b` at the start of `s`, if it matches
      there; every match is non-empty. In `Ch\. [IVX0-9]+:.*?\d+` the run
      of numeral characters can only be followed by the colon when it is
      taken whole, the lazy `.*?` stops at the first digit and may not
      cross a line break, and `\d+` then takes the whole digit run;
      `Part [IVX]+.*` runs to the end of the line. */
  function BoilerplateAt(b: Boilerplate, s: string): (r: Option<nat>)
    ensures r.Some? ==> 0 < r.value <= |s|
  {
    match b
    case BookOneTitle =>
      if StartsWithIgnoringCase(s, "stories of the sahaabah") then Some(23) else None
    case BookTwoTitle =>
      if StartsWithIgnoringCase(s, "virtues of the holy qur'an") then Some(26) else None
    case RunningHead =>
      if StartsWith(s, "Ch. ") then
        var n := RunOf(s[4..], {'I', 'V', 'X', '0', '1', '2', '3', '4', '5', '6', '7', '8', '9'});
        if n > 0 && 4 + n < |s| && s[4 + n] == ':' then
          var rest := s[5 + n..];
          var k := NonDigitRun(rest);
          if k < |rest| && IsDigit(rest[k]) then Some(5 + n + k + DigitRun(rest[k..])) else None
        else None
      else None
    case PartLine =>
      if StartsWith(s, "Part ") then
        var n := RunOf(s[5..], {'I', 'V', 'X'});
        if n > 0 then Some(5 + n + LineRun(s[5 + n..])) else None
      else None
    case PageLabel =>
      if StartsWith(s, "Page No:") then Some(8) else None
  }

  /** `re.sub(pattern, '', s)`: scanning from the left, every match is
      deleted and the scan resumes after it. */
  function RemoveAll(b: Boilerplate, s: string): (r: string)
    ensures |r| <= |s|
    decreases |s|
  {
    if s == [] then []
    else match BoilerplateAt(b, s)
      case Some(n) => RemoveAll(b, s[n..])
      case None => [s[0]] + RemoveAll(b, s[1..])
  }

  /** Text in which the pattern matches nowhere is left as it is. */
  lemma {:induction false} RemoveAllNoMatch(b: Boilerplate, s: string)
    requires forall i :: 0 <= i <= |s| ==> BoilerplateAt(b, s[i..]).None?
    ensures RemoveAll(b, s) == s
    decreases |s|
  {
    if s != [] {
      assert s[0..] == s;
      assert forall i :: 0 <= i <= |s[1..]| ==> s[1..][i..] == s[i + 1..];
      RemoveAllNoMatch(b, s[1..]);
    }
  }

  /** The deletions of lines 44 to 48, one after the other. */
  function RemoveBoilerplate(s: string, removals: seq<Boilerplate>): string
  {
    if removals == [] then s
    else RemoveAll(removals[|removals| - 1], RemoveBoilerplate(s, removals[..|removals| - 1]))
  }

  /** `re.sub(r'\s+', ' ', s)`: every maximal run of whitespace becomes one
      space. */
  function CollapseSpaces(s: string): string
    decreases |s|
  {
    if s == [] then []
    else if IsSpace(s[0]) then " " + CollapseSpaces(s[SpaceRun(s)..])
    else [s[0]] + CollapseSpaces(s[1..])
  }

  /** No two whitespace characters are adjacent, and every whitespace
      character is a plain space. */
  predicate SingleSpaced(s: string) {
    && (forall i :: 0 <= i < |s| && IsSpace(s[i]) ==> s[i] == ' ')
    && (forall i :: 0 <= i < |s| - 1 ==> !(IsSpace(s[i]) && IsSpace(s[i + 1])))
  }

  lemma {:induction false} CollapseSpacesSpec(s: string)
    ensures SingleSpaced(CollapseSpaces(s))
    ensures s != [] && !IsSpace(s[0]) ==> CollapseSpaces(s) != [] && CollapseSpaces(s)[0] == s[0]
    decreases |s|
  {
    if s != [] {
      if IsSpace(s[0]) {
        var rest := s[SpaceRun(s)..];
        CollapseSpacesSpec(rest);
        var r := CollapseSpaces(s);
        assert r == " " + CollapseSpaces(rest);
        assert forall i :: 1 <= i < |r| ==> r[i] == CollapseSpaces(rest)[i - 1];
      } else {
        CollapseSpacesSpec(s[1..]);
        var r := CollapseSpaces(s);
        assert forall i :: 1 <= i < |r| ==> r[i] == CollapseSpaces(s[1..])[i - 1];
      }
    }
  }

  /** `clean_text`. */
  function CleanText(s: string): string
  {
    Strip(CollapseSpaces(RemoveBoilerplate(s, Removals)))
  }

  /** Any piece of a single-spaced text is single-spaced. */
  lemma SingleSpacedSlice(c: string, i: nat, j: nat)
    requires i <= j <= |c| && SingleSpaced(c)
    ensures SingleSpaced(c[i..j])
  {
    assert forall k :: 0 <= k < j - i ==> c[i..j][k] == c[i + k];
  }

  /** Stripping a single-spaced text leaves it single-spaced, and with no
      whitespace at either end. */
  lemma StripSingleSpaced(c: string)
    requires SingleSpaced(c)
    ensures var r := Strip(c);
      && (r != [] ==> !IsSpace(r[0]) && !IsSpace(r[|r| - 1]))
      && SingleSpaced(r)
  {
    var i := StripSlice(c);
    var r := Strip(c);
    SingleSpacedSlice(c, i, i + |r|);
  }

  /** A cleaned text has no leading or trailing whitespace, no two adjacent
      whitespace characters, and no whitespace but plain spaces; in
      particular it has no line break. */
  lemma CleanTextSpec(s: string)
    ensures var r := CleanText(s);
      && (r != [] ==> !IsSpace(r[0]) && !IsSpace(r[|r| - 1]))
      && SingleSpaced(r)
      && '\n' !in r
  {
    var c := CollapseSpaces(RemoveBoilerplate(s, Removals));
    CollapseSpacesSpec(RemoveBoilerplate(s, Removals));
    StripSingleSpaced(c);
    assert IsSpace('\n');
  }

  /** So `.replace('\n', '<br><br>')` on a cleaned text changes nothing. */
  lemma CleanTextHasNoLineBreaks(s: string)
    ensures ReplaceChar(CleanText(s), '\n', "<br><br>") == CleanText(s)
  {
    CleanTextSpec(s);
    ReplaceCharAbsent(CleanText(s), '\n', "<br><br>");
  }

  // ---------------------------------------------------------------------
  // Pages and book text
  // ---------------------------------------------------------------------

  /** `{item['page']: item['content'] for item in full_content}`: a later
      item with the same page number overrides an earlier one. */
  function PageMap(items: seq<PageContent>): map<int, string>
  {
    if items == [] then map[]
    else PageMap(items[..|items| - 1])[items[|items| - 1].page := items[|items| - 1].content]
  }

  /** A page number is in the map exactly when some item has it, and it
      maps to the content of the last such item. */
  lemma {:induction false} PageMapSpec(items: seq<PageContent>, p: int)
    ensures p in PageMap(items) <==> exists i :: 0 <= i < |items| && items[i].page == p
    ensures p in PageMap(items) ==>
      exists i :: 0 <= i < |items| && items[i].page == p && PageMap(items)[p] == items[i].content
        && forall j :: i < j < |items| ==> items[j].page != p
  {
    if items != [] {
      var init := items[..|items| - 1];
      var last := items[|items| - 1];
      PageMapSpec(init, p);
      if last.page != p && p in PageMap(items) {
        var i :| 0 <= i < |init| && init[i].page == p && PageMap(init)[p] == init[i].content
          && forall j :: i < j < |init| ==> init[j].page != p;
        assert items[i] == init[i];
        assert forall j :: i < j < |items| ==> items[j].page != p by {
          forall j | i < j < |items| ensures items[j].page != p {
            if j < |init| { assert items[j] == init[j]; }
          }
        }
      }
      if p !in PageMap(items) {
        forall i | 0 <= i < |items| ensures items[i].page != p {
          if i < |init| { assert items[i] == init[i]; }
        }
      }
    }
  }

  /** The book text: the content of every page from `start` up to but not
      including `stop` that the dump has, each followed by a line break. */
  function BookText(pages: map<int, string>, start: int, stop: int): string
    decreases stop - start
  {
    if stop <= start then ""
    else BookText(pages, start, stop - 1) + (if stop - 1 in pages then pages[stop - 1] + "\n" else "")
  }

  /** The book text is empty exactly when the dump has none of its pages. */
  lemma {:induction false} BookTextEmpty(pages: map<int, string>, start: int, stop: int)
    ensures BookText(pages, start, stop) == [] <==> forall p :: start <= p < stop ==> p !in pages
    decreases stop - start
  {
    if stop > start {
      BookTextEmpty(pages, start, stop - 1);
    }
  }

  /** The loop of lines 78 to 81. */
  method BuildBookText(pages: map<int, string>, start: int, end: int) returns (bookText: string)
    ensures bookText == BookText(pages, start, end + 1)
  {
    bookText := "";
    var p := start;
    while p < end + 1
      invariant p == start || start <= p <= end + 1
      invariant bookText == BookText(pages, start, p)
      decreases end + 1 - p
    {
      if p in pages {
        bookText := bookText + pages[p] + "\n";
      }
      p := p + 1;
    }
  }

  // ---------------------------------------------------------------------
  // Finding the chapters
  // ---------------------------------------------------------------------

  /** A chapter found in the book text: its position in the book's chapter
      list, the chapter and the offset of the match. */
  datatype Found = Found(idx: nat, chapter: Chapter, start: nat)

  const Romans: seq<string> :=
    ["I", "II", "III", "IV", "V", "VI", "VII", "VIII", "IX", "X", "XI", "XII", "XIII", "XIV", "XV"]

  /** `title.replace('(', '').replace(')', '')`. */
  function WithoutParens(title: string): (r: string)
    ensures '(' !in r && ')' !in r
  {
    ReplaceCharChars(title, '(', "");
    ReplaceCharChars(ReplaceChar(title, '(', ""), ')', "");
    ReplaceChar(ReplaceChar(title, '(', ""), ')', "")
  }

  /** `re.search(re.escape(needle), hay, re.IGNORECASE)`: the leftmost
      place where the needle occurs, ignoring the case of ASCII letters. */
  function SearchIgnoringCase(hay: string, needle: string): Option<nat>
  {
    Find(Lower(hay), Lower(needle))
  }

  /** The needle, ignoring case, occurs in `hay` at `i`. */
  predicate OccursIgnoringCase(hay: string, needle: string, i: nat) {
    i + |needle| <= |hay| && Lower(hay[i..i + |needle|]) == Lower(needle)
  }

  lemma SearchIgnoringCaseSpec(hay: string, needle: string)
    ensures var r := SearchIgnoringCase(hay, needle);
      && (r.Some? ==> OccursIgnoringCase(hay, needle, r.value)
                      && forall j :: 0 <= j < r.value ==> !OccursIgnoringCase(hay, needle, j))
      && (r.None? ==> forall j :: 0 <= j ==> !OccursIgnoringCase(hay, needle, j))
  {
    FindSpec(Lower(hay), Lower(needle));
    var lh, ln := Lower(hay), Lower(needle);
    forall j: nat | j + |needle| <= |hay|
      ensures OccursAt(lh, ln, j) <==> OccursIgnoringCase(hay, needle, j)
    {
      assert lh[j..j + |needle|] == Lower(hay[j..j + |needle|]);
    }
  }

  /** The offset of chapter number `idx` of book `bookId`: where its title
      without parentheses occurs, or, for book 1 and the first fifteen
      chapters, where "CHAPTER <roman numeral>" occurs. */
  function LocateChapter(bookText: string, title: string, bookId: int, idx: nat): Option<nat>
  {
    match SearchIgnoringCase(bookText, WithoutParens(title))
    case Some(i) => Some(i)
    case None =>
      if bookId == 1 && idx < |Romans| then SearchIgnoringCase(bookText, "CHAPTER " + Romans[idx])
      else None
  }

  lemma LocateChapterInText(bookText: string, title: string, bookId: int, idx: nat)
    ensures var r := LocateChapter(bookText, title, bookId, idx);
      r.Some? ==> r.value <= |bookText|
  {
    SearchIgnoringCaseSpec(bookText, WithoutParens(title));
    if idx < |Romans| {
      SearchIgnoringCaseSpec(bookText, "CHAPTER " + Romans[idx]);
    }
  }

  /** The `enumerate(book_chapters)` loop of lines 92 to 106. */
  function LocateChapters(bookText: string, chapters: seq<Chapter>, bookId: int): seq<Found>
  {
    if chapters == [] then []
    else
      var n := |chapters| - 1;
      var prev := LocateChapters(bookText, chapters[..n], bookId);
      match LocateChapter(bookText, chapters[n].title, bookId, n)
      case Some(i) => prev + [Found(n, chapters[n], i)]
      case None => prev
  }

  /** The found chapters come in list order. */
  predicate FoundInOrder(found: seq<Found>) {
    forall i, j :: 0 <= i < j < |found| ==> found[i].idx < found[j].idx
  }

  /** Each found chapter carries its own position in the list and the offset
      at which its title (or numeral) is located. */
  predicate FoundLocated(bookText: string, chapters: seq<Chapter>, bookId: int, found: seq<Found>) {
    forall i :: 0 <= i < |found| ==>
      && found[i].idx < |chapters| && found[i].chapter == chapters[found[i].idx]
      && LocateChapter(bookText, chapters[found[i].idx].title, bookId, found[i].idx) == Some(found[i].start)
  }

  /** Every chapter whose title (or numeral) is located is among the found. */
  predicate FoundAll(bookText: string, chapters: seq<Chapter>, bookId: int, found: seq<Found>) {
    forall c :: 0 <= c < |chapters| && LocateChapter(bookText, chapters[c].title, bookId, c).Some? ==>
      Found(c, chapters[c], LocateChapter(bookText, chapters[c].title, bookId, c).value) in found
  }

  lemma {:induction false} LocateChaptersSound(bookText: string, chapters: seq<Chapter>, bookId: int)
    ensures var r := LocateChapters(bookText, chapters, bookId);
      FoundInOrder(r) && FoundLocated(bookText, chapters, bookId, r) && |r| <= |chapters|
  {
    if chapters != [] {
      var n := |chapters| - 1;
      var init := chapters[..n];
      LocateChaptersSound(bookText, init, bookId);
      var prev := LocateChapters(bookText, init, bookId);
      var r := LocateChapters(bookText, chapters, bookId);
      assert forall i :: 0 <= i < |prev| ==> r[i] == prev[i];
      forall i | 0 <= i < |prev|
        ensures r[i].idx < n && r[i].chapter == chapters[r[i].idx]
      {
        assert init[prev[i].idx] == chapters[prev[i].idx];
      }
    }
  }

  lemma {:induction false} LocateChaptersComplete(bookText: string, chapters: seq<Chapter>, bookId: int)
    ensures FoundAll(bookText, chapters, bookId, LocateChapters(bookText, chapters, bookId))
  {
    if chapters != [] {
      var n := |chapters| - 1;
      var init := chapters[..n];
      LocateChaptersComplete(bookText, init, bookId);
      var prev := LocateChapters(bookText, init, bookId);
      var r := LocateChapters(bookText, chapters, bookId);
      assert forall f :: f in prev ==> f in r;
      forall c | 0 <= c < n
        ensures chapters[c] == init[c]
      {
      }
    }
  }

  /** Every offset found lies inside the book's text. */
  lemma LocateChaptersInText(bookText: string, chapters: seq<Chapter>, bookId: int)
    ensures forall f :: f in LocateChapters(bookText, chapters, bookId) ==> f.start <= |bookText|
  {
    LocateChaptersSound(bookText, chapters, bookId);
    var r := LocateChapters(bookText, chapters, bookId);
    forall f | f in r
      ensures f.start <= |bookText|
    {
      var i :| 0 <= i < |r| && r[i] == f;
      LocateChapterInText(bookText, chapters[f.idx].title, bookId, f.idx);
    }
  }

  lemma LocateChaptersStep(bookText: string, chapters: seq<Chapter>, bookId: int, idx: nat)
    requires idx < |chapters|
    ensures var prev := LocateChapters(bookText, chapters[..idx], bookId);
      var m := LocateChapter(bookText, chapters[idx].title, bookId, idx);
      LocateChapters(bookText, chapters[..idx + 1], bookId)
      == if m.Some? then prev + [Found(idx, chapters[idx], m.value)] else prev
  {
    assert chapters[..idx + 1][..idx] == chapters[..idx];
  }

  /** The loop of lines 92 to 106. */
  method FindChapters(bookText: string, chapters: seq<Chapter>, bookId: int) returns (found: seq<Found>)
    ensures found == LocateChapters(bookText, chapters, bookId)
  {
    found := [];
    for idx := 0 to |chapters|
      invariant found == LocateChapters(bookText, chapters[..idx], bookId)
    {
      LocateChaptersStep(bookText, chapters, bookId, idx);
      var chapter := chapters[idx];
      var m := SearchIgnoringCase(bookText, WithoutParens(chapter.title));
      if m.None? && bookId == 1 && idx < |Romans| {
        m := SearchIgnoringCase(bookText, "CHAPTER " + Romans[idx]);
      }
      assert m == LocateChapter(bookText, chapter.title, bookId, idx);
      if m.Some? {
        found := found + [Found(idx, chapter, m.value)];
      }
    }
    assert chapters[..|chapters|] == chapters;
  }

  // ---------------------------------------------------------------------
  // chapters_found.sort(key=lambda x: x['start'])
  // ---------------------------------------------------------------------

  /** `a` comes before `b` after a stable sort by offset of a list in which
      positions increase. */
  predicate Before(a: Found, b: Found) {
    a.start < b.start || (a.start == b.start && a.idx < b.idx)
  }

  predicate SortedFound(s: seq<Found>) {
    forall i, j :: 0 <= i < j < |s| ==> Before(s[i], s[j])
  }

  predicate IdxIncreasing(s: seq<Found>) {
    forall i, j :: 0 <= i < j < |s| ==> s[i].idx < s[j].idx
  }

  /** Puts `x` after every element whose offset is not larger. */
  function InsertFound(s: seq<Found>, x: Found): seq<Found>
  {
    if s == [] || s[|s| - 1].start <= x.start then s + [x]
    else InsertFound(s[..|s| - 1], x) + [s[|s| - 1]]
  }

  /** A stable insertion sort by offset. */
  function SortFound(s: seq<Found>): seq<Found>
  {
    if s == [] then [] else InsertFound(SortFound(s[..|s| - 1]), s[|s| - 1])
  }

  lemma {:induction false} InsertFoundPerm(s: seq<Found>, x: Found)
    ensures multiset(InsertFound(s, x)) == multiset(s) + multiset{x}
  {
    if s != [] && s[|s| - 1].start > x.start {
      var init := s[..|s| - 1];
      InsertFoundPerm(init, x);
      assert s == init + [s[|s| - 1]];
    }
  }

  /** Whatever every element and `x` come before, the result comes before. */
  lemma {:induction false} InsertFoundBelow(s: seq<Found>, x: Found, b: Found)
    requires forall i :: 0 <= i < |s| ==> Before(s[i], b)
    requires Before(x, b)
    ensures forall i :: 0 <= i < |InsertFound(s, x)| ==> Before(InsertFound(s, x)[i], b)
  {
    if s != [] && s[|s| - 1].start > x.start {
      InsertFoundBelow(s[..|s| - 1], x, b);
    }
  }

  lemma {:induction false} InsertFoundSorted(s: seq<Found>, x: Found)
    requires SortedFound(s)
    requires forall i :: 0 <= i < |s| ==> s[i].idx < x.idx
    ensures SortedFound(InsertFound(s, x))
  {
    if s != [] && s[|s| - 1].start > x.start {
      var init := s[..|s| - 1];
      var last := s[|s| - 1];
      InsertFoundSorted(init, x);
      InsertFoundBelow(init, x, last);
      assert InsertFound(s, x) == InsertFound(init, x) + [last];
    }
  }

  lemma {:induction false} SortFoundPerm(s: seq<Found>)
    ensures multiset(SortFound(s)) == multiset(s)
  {
    if s != [] {
      var init, last := s[..|s| - 1], s[|s| - 1];
      SortFoundPerm(init);
      InsertFoundPerm(SortFound(init), last);
      assert SortFound(s) == InsertFound(SortFound(init), last);
      assert s == init + [last];
      assert multiset(s) == multiset(init) + multiset{last};
    }
  }

  /** Sorting keeps the number of found chapters. */
  lemma SortFoundLength(s: seq<Found>)
    ensures |SortFound(s)| == |s|
  {
    SortFoundPerm(s);
    assert |multiset(SortFound(s))| == |multiset(s)|;
  }

  /** A bound every element of `b` is under holds for a permutation of it. */
  lemma PermutedIdxBelow(a: seq<Found>, b: seq<Found>, x: Found)
    requires multiset(a) == multiset(b)
    requires forall k :: 0 <= k < |b| ==> b[k].idx < x.idx
    ensures forall i :: 0 <= i < |a| ==> a[i].idx < x.idx
  {
    forall i | 0 <= i < |a| ensures a[i].idx < x.idx {
      assert a[i] in multiset(b);
      var k :| 0 <= k < |b| && b[k] == a[i];
    }
  }

  lemma {:induction false} SortFoundSorted(s: seq<Found>)
    requires IdxIncreasing(s)
    ensures SortedFound(SortFound(s))
  {
    if s != [] {
      var init := s[..|s| - 1];
      var x := s[|s| - 1];
      assert IdxIncreasing(init);
      SortFoundSorted(init);
      SortFoundPerm(init);
      var sorted := SortFound(init);
      assert forall k :: 0 <= k < |init| ==> init[k].idx < x.idx;
      PermutedIdxBelow(sorted, init, x);
      InsertFoundSorted(sorted, x);
    }
  }

  /** The sort orders the found chapters by offset, equal offsets keeping
      their list order, and neither loses nor adds any. */
  lemma SortFoundSpec(s: seq<Found>)
    requires IdxIncreasing(s)
    ensures SortedFound(SortFound(s))
    ensures multiset(SortFound(s)) == multiset(s)
  {
    SortFoundSorted(s);
    SortFoundPerm(s);
  }

  // ---------------------------------------------------------------------
  // The chapter split
  // ---------------------------------------------------------------------

  /** `len(chapters_found) >= len(book_chapters) / 2`, over the integers. */
  predicate UseChapterSplit(found: nat, chapters: nat) {
    2 * found >= chapters
  }

  function Starts(found: seq<Found>): (r: seq<nat>)
    ensures |r| == |found| && forall i :: 0 <= i < |found| ==> r[i] == found[i].start
  {
    seq(|found|, i requires 0 <= i < |found| => found[i].start)
  }

  /** Where chunk `i` ends: the next offset, or the end of the text. */
  function ChunkEnd(starts: seq<nat>, i: nat, len: nat): nat
    requires i < |starts|
  {
    if i < |starts| - 1 then starts[i + 1] else len
  }

  /** `book_text[start:end]` for every found chapter. */
  function Chunks(text: string, starts: seq<nat>): (r: seq<string>)
    ensures |r| == |starts|
  {
    seq(|starts|, i requires 0 <= i < |starts| => Slice(text, starts[i], ChunkEnd(starts, i, |text|)))
  }

  predicate NonDecreasing(starts: seq<nat>) {
    forall i, j :: 0 <= i < j < |starts| ==> starts[i] <= starts[j]
  }

  /** For sorted offsets inside the text, the chunks tile the text from the
      first offset to the end: one after the other, with neither gap nor
      overlap. */
  lemma {:induction false} ChunksTile(text: string, starts: seq<nat>)
    requires starts != [] && NonDecreasing(starts)
    requires forall i :: 0 <= i < |starts| ==> starts[i] <= |text|
    ensures Flatten(Chunks(text, starts)) == text[starts[0]..]
    decreases |starts|
  {
    var c := Chunks(text, starts);
    if |starts| == 1 {
      assert c[0] == Slice(text, starts[0], |text|) == text[starts[0]..|text|];
      assert text[starts[0]..|text|] == text[starts[0]..];
      assert c == [text[starts[0]..]];
      assert Flatten(c) == text[starts[0]..] + Flatten(c[1..]);
    } else {
      ChunksTile(text, starts[1..]);
      assert c[1..] == Chunks(text, starts[1..]);
      assert c[0] == text[starts[0]..starts[1]];
      assert text[starts[0]..] == text[starts[0]..starts[1]] + text[starts[1]..];
    }
  }

  /** The HTML wrapper of a story's content. */
  function StoryHtml(body: string): string
  {
    "<div class=\"story-content\"><p>" + body + "</p></div>"
  }

  /** A preview, `cleaned[:150] + '...'`: at most 150 leading characters of
      the text and an ellipsis. */
  function Preview(cleaned: string): string
  {
    Take(cleaned, 150) + "..."
  }

  lemma PreviewSpec(cleaned: string)
    ensures var p := Preview(cleaned);
      && |p| == (if |cleaned| < 150 then |cleaned| else 150) + 3
      && p[..|p| - 3] == cleaned[..|p| - 3] && p[|p| - 3..] == "..."
  {
  }

  /** `book_text[start:end]` for found chapter `i`: from its offset to the
      next chapter's offset, or to the end of the text. */
  function ChunkText(text: string, found: seq<Found>, i: nat): string
    requires i < |found|
  {
    Slice(text, found[i].start, if i < |found| - 1 then found[i + 1].start else |text|)
  }

  /** The chunks of the tiling lemma are the chunks of the split. */
  lemma ChunkOfFound(text: string, found: seq<Found>, i: nat)
    requires i < |found|
    ensures Chunks(text, Starts(found))[i] == ChunkText(text, found, i)
  {
  }

  /** Sorting found chapters whose offsets lie in a text of length `len`
      keeps exactly those chapters, and their offsets come out
      non-decreasing. */
  lemma SortedStartsWithin(located: seq<Found>, len: nat)
    requires IdxIncreasing(located)
    requires forall f :: f in located ==> f.start <= len
    ensures var found := SortFound(located);
      && |found| == |located|
      && (forall f :: f in located <==> f in found)
      && (forall i :: 0 <= i < |found| ==> Starts(found)[i] <= len)
      && NonDecreasing(Starts(found))
  {
    SortFoundSpec(located);
    var found := SortFound(located);
    assert |found| == |multiset(found)| == |multiset(located)| == |located|;
    forall f ensures f in located <==> f in found {
      assert f in located <==> f in multiset(located);
      assert f in found <==> f in multiset(found);
    }
    var starts := Starts(found);
    forall i, j | 0 <= i < j < |starts| ensures starts[i] <= starts[j] {
      assert Before(found[i], found[j]);
    }
  }

  /** The chunks of the chapters a book's text gives, sorted by offset,
      tile the text from the earliest heading found to its end; no heading
      found lies before the first chunk. */
  lemma LocatedChunksTile(bookText: string, chapters: seq<Chapter>, bookId: int)
    requires LocateChapters(bookText, chapters, bookId) != []
    ensures var found := SortFound(LocateChapters(bookText, chapters, bookId));
      && found != [] && found[0].start <= |bookText|
      && Flatten(Chunks(bookText, Starts(found))) == bookText[found[0].start..]
      && forall f :: f in LocateChapters(bookText, chapters, bookId) ==> found[0].start <= f.start
  {
    var located := LocateChapters(bookText, chapters, bookId);
    LocateChaptersSound(bookText, chapters, bookId);
    LocateChaptersInText(bookText, chapters, bookId);
    assert IdxIncreasing(located);
    SortedStartsWithin(located, |bookText|);
    var found := SortFound(located);
    ChunksTile(bookText, Starts(found));
    FirstStartLeast(found);
  }

  /** In a list sorted by offset, no offset is below the first one. */
  lemma FirstStartLeast(found: seq<Found>)
    requires found != [] && NonDecreasing(Starts(found))
    ensures forall f :: f in found ==> found[0].start <= f.start
  {
    forall f | f in found ensures found[0].start <= f.start {
      var j :| 0 <= j < |found| && found[j] == f;
      assert Starts(found)[0] <= Starts(found)[j];
    }
  }

  /** Ids run on from `firstId` without gaps. */
  predicate IdsFrom(stories: seq<Story>, firstId: int) {
    forall i :: 0 <= i < |stories| ==> stories[i].id == firstId + i
  }

  /** Chunk `k`, cleaned, is longer than 100 characters and gives the
      chapter-split story `s` of book `bookId`: its chapter's title as title
      and chapter name, the cleaned text as content, and a preview made
      from it. */
  predicate ChunkGives(text: string, found: seq<Found>, bookId: int, k: nat, s: Story)
    requires k < |found|
  {
    var cleaned := CleanText(ChunkText(text, found, k));
    && |cleaned| > 100
    && s.bookId == bookId && s.title == s.chapter && s.chapter == found[k].chapter.title
    && s.content == StoryHtml(cleaned) && s.preview == Preview(cleaned)
  }

  /** `clean_text(book_text[start:end])` for every found chapter, in order. */
  function CleanedChunks(text: string, found: seq<Found>): seq<string>
  {
    seq(|found|, k requires 0 <= k < |found| => CleanText(ChunkText(text, found, k)))
  }

  /** `cleaned` holds the cleaned chunks of the text. */
  predicate CleanedOf(text: string, found: seq<Found>, cleaned: seq<string>) {
    && |cleaned| == |found|
    && forall k {:trigger CleanText(ChunkText(text, found, k))} :: 0 <= k < |found| ==>
         cleaned[k] == CleanText(ChunkText(text, found, k))
  }

  lemma CleanedChunksOf(text: string, found: seq<Found>)
    ensures CleanedOf(text, found, CleanedChunks(text, found))
  {
    var c := CleanedChunks(text, found);
    forall k | 0 <= k < |found| ensures c[k] == CleanText(ChunkText(text, found, k)) {
    }
  }

  /** `len(cleaned_chunk) > 100`: the chunk gives a story. */
  predicate IsLong(cleaned: string) {
    |cleaned| > 100
  }

  /** The story of a chunk with cleaned text `cleaned`, numbered `id`:
      titled after the chapter, with line breaks turned into `<br><br>`. */
  function SplitStory(cleaned: string, title: string, bookId: int, id: int): Story
  {
    Story(id, bookId, title, title, Preview(cleaned), StoryHtml(ReplaceChar(cleaned, '\n', "<br><br>")))
  }

  /** The stories a chunk gives: its story when the cleaned text is
      longer than 100 characters, none otherwise. */
  function ChunkStory(cleaned: string, title: string, bookId: int, id: int): seq<Story>
  {
    if IsLong(cleaned) then [SplitStory(cleaned, title, bookId, id)] else []
  }

  /** The stories `r` of the first `n` chunks: story `j` is the story of
      `m[j]`, the `j`-th of those chunks whose cleaned text is longer than
      100 characters, numbered `firstId + j`. */
  predicate SplitExact(cleaned: seq<string>, found: seq<Found>, bookId: int, firstId: int, n: nat, r: seq<Story>)
    requires n <= |cleaned| && n <= |found|
  {
    var m := Marked(cleaned[..n], IsLong);
    && |r| == |m|
    && forall j :: 0 <= j < |r| ==>
         m[j] < n && IsLong(cleaned[m[j]])
         && r[j] == SplitStory(cleaned[m[j]], found[m[j]].chapter.title, bookId, firstId + j)
  }

  /** Appending the stories of chunk `n - 1` to those of the earlier
      chunks gives the stories of the first `n` chunks. */
  lemma AppendChunkStories(cleaned: seq<string>, found: seq<Found>, bookId: int, firstId: int, n: nat,
                           prev: seq<Story>, more: seq<Story>)
    requires 1 <= n <= |cleaned| && n <= |found|
    requires SplitExact(cleaned, found, bookId, firstId, n - 1, prev)
    requires more == ChunkStory(cleaned[n - 1], found[n - 1].chapter.title, bookId, firstId + |prev|)
    ensures SplitExact(cleaned, found, bookId, firstId, n, prev + more)
  {
    var m0 := Marked(cleaned[..n - 1], IsLong);
    var m := Marked(cleaned[..n], IsLong);
    assert cleaned[..n][..n - 1] == cleaned[..n - 1];
    assert m == m0 + if IsLong(cleaned[n - 1]) then [n - 1] else [];
    var r := prev + more;
    forall j | 0 <= j < |r|
      ensures m[j] < n && IsLong(cleaned[m[j]])
        && r[j] == SplitStory(cleaned[m[j]], found[m[j]].chapter.title, bookId, firstId + j)
    {
      if j < |prev| {
        assert r[j] == prev[j] && m[j] == m0[j];
      } else {
        assert r[j] == more[0] && m[j] == n - 1;
      }
    }
  }

  /** The stories of the first `n` chunks of the chapter split, from their
      cleaned texts; ids run on from `firstId`. */
  function SplitFirst(cleaned: seq<string>, found: seq<Found>, bookId: int, firstId: int, n: nat): (r: seq<Story>)
    requires n <= |cleaned| && n <= |found|
    ensures SplitExact(cleaned, found, bookId, firstId, n, r)
  {
    if n == 0 then []
    else
      var prev := SplitFirst(cleaned, found, bookId, firstId, n - 1);
      var more := ChunkStory(cleaned[n - 1], found[n - 1].chapter.title, bookId, firstId + |prev|);
      AppendChunkStories(cleaned, found, bookId, firstId, n, prev, more);
      prev + more
  }

  /** The story of a chunk whose cleaned text is long is that chunk's
      story in the sense of `ChunkGives`: its content is the cleaned text
      itself, since a cleaned text holds no line break. */
  lemma CleanedGivesChunk(text: string, found: seq<Found>, bookId: int, k: nat, id: int)
    requires k < |found| && IsLong(CleanText(ChunkText(text, found, k)))
    ensures ChunkGives(text, found, bookId, k, SplitStory(CleanText(ChunkText(text, found, k)), found[k].chapter.title, bookId, id))
  {
    CleanTextHasNoLineBreaks(ChunkText(text, found, k));
  }

  /** Story `j` of `r` is the story of chunk `m[j]`, the `j`-th chunk
      whose cleaned text is longer than 100 characters, and is numbered
      `firstId + j`. */
  predicate SplitOfChunks(text: string, found: seq<Found>, bookId: int, firstId: int, r: seq<Story>) {
    var m := Marked(CleanedChunks(text, found), IsLong);
    && |r| == |m|
    && forall j :: 0 <= j < |r| ==>
         m[j] < |found| && r[j].id == firstId + j && ChunkGives(text, found, bookId, m[j], r[j])
  }

  lemma SplitFromChunks(text: string, found: seq<Found>, bookId: int, firstId: int, r: seq<Story>)
    requires SplitExact(CleanedChunks(text, found), found, bookId, firstId, |found|, r)
    ensures SplitOfChunks(text, found, bookId, firstId, r)
  {
    var cleaned := CleanedChunks(text, found);
    assert cleaned[..|found|] == cleaned;
    var m := Marked(cleaned, IsLong);
    forall j | 0 <= j < |r| ensures m[j] < |found| && r[j].id == firstId + j && ChunkGives(text, found, bookId, m[j], r[j]) {
      var k := m[j];
      assert cleaned[k] == CleanText(ChunkText(text, found, k));
      CleanedGivesChunk(text, found, bookId, k, firstId + j);
    }
  }

  /** The stories of the whole chapter split: one per chunk whose cleaned
      text is longer than 100 characters, in chunk order, ids running on
      from `firstId`. */
  function SplitStories(text: string, found: seq<Found>, bookId: int, firstId: int): (r: seq<Story>)
    ensures SplitOfChunks(text, found, bookId, firstId, r)
  {
    var r := SplitFirst(CleanedChunks(text, found), found, bookId, firstId, |found|);
    SplitFromChunks(text, found, bookId, firstId, r);
    r
  }

  /** Every chunk whose cleaned text is longer than 100 characters gives
      a story and no other chunk does, one story each, in chunk order:
      the chunks `m` of the stories are increasing, and a chunk is among
      them exactly when its cleaned text is long. */
  lemma SplitStoriesSpec(text: string, found: seq<Found>, bookId: int, firstId: int)
    ensures var m := Marked(CleanedChunks(text, found), IsLong);
      && |SplitStories(text, found, bookId, firstId)| == |m|
      && (forall k :: 0 <= k < |found| ==> (k in m <==> IsLong(CleanText(ChunkText(text, found, k)))))
      && (forall j, l :: 0 <= j < l < |m| ==> m[j] < m[l])
  {
    var cleaned := CleanedChunks(text, found);
    MarkedSpec(cleaned, IsLong);
    var m := Marked(cleaned, IsLong);
    forall k | 0 <= k < |found| && k in m ensures IsLong(cleaned[k]) {
      var j :| 0 <= j < |m| && m[j] == k;
    }
  }

  /** Appending `b` and then `c` is appending `d`, their concatenation. */
  lemma AppendAssociates(a: seq<Story>, b: seq<Story>, c: seq<Story>, d: seq<Story>)
    requires d == b + c
    ensures (a + b) + c == a + d
  {
  }

  /** One turn of the loop of lines 115 to 135: the story of chunk `i`, if
      its cleaned text is long enough. */
  method SplitChunk(stories0: seq<Story>, nextId0: int, bookText: string, found: seq<Found>, bookId: int, i: nat,
                    ghost cleaned: seq<string>)
    returns (stories: seq<Story>, nextId: int)
    requires i < |found| && CleanedOf(bookText, found, cleaned)
    ensures var added := ChunkStory(cleaned[i], found[i].chapter.title, bookId, nextId0);
      stories == stories0 + added && nextId == nextId0 + |added|
  {
    stories, nextId := stories0, nextId0;
    var start := found[i].start;
    var end := if i < |found| - 1 then found[i + 1].start else |bookText|;
    var chunkText := Slice(bookText, start, end);
    assert chunkText == ChunkText(bookText, found, i);
    var cleanedChunk := CleanText(chunkText);
    if |cleanedChunk| > 100 {
      var formatted := ReplaceChar(cleanedChunk, '\n', "<br><br>");
      var title := found[i].chapter.title;
      var story := Story(nextId, bookId, title, title, Preview(cleanedChunk), StoryHtml(formatted));
      stories := stories + [story];
      nextId := nextId + 1;
    }
  }

  /** Appending chunk `i`'s story to a list that ends in the stories of
      the chunks before it gives a list that ends in those of the first
      `i + 1` chunks. */
  lemma SplitGrows(stories0: seq<Story>, cleaned: seq<string>, found: seq<Found>, bookId: int, firstId: int, i: nat)
    requires i < |cleaned| && i < |found|
    ensures var prev := SplitFirst(cleaned, found, bookId, firstId, i);
      var more := ChunkStory(cleaned[i], found[i].chapter.title, bookId, firstId + |prev|);
      stories0 + prev + more == stories0 + SplitFirst(cleaned, found, bookId, firstId, i + 1)
  {
    var prev := SplitFirst(cleaned, found, bookId, firstId, i);
    var more := ChunkStory(cleaned[i], found[i].chapter.title, bookId, firstId + |prev|);
    AppendAssociates(stories0, prev, more, SplitFirst(cleaned, found, bookId, firstId, i + 1));
  }

  /** The loop of lines 115 to 135, appending to the story list; `cleaned`
      stands for the cleaned chunks the loop computes one by one. */
  method AppendChapterSplit(stories0: seq<Story>, nextId0: int, bookText: string, found: seq<Found>, bookId: int,
                            ghost cleaned: seq<string>)
    returns (stories: seq<Story>, nextId: int)
    requires CleanedOf(bookText, found, cleaned)
    ensures var added := SplitFirst(cleaned, found, bookId, nextId0, |found|);
      stories == stories0 + added && nextId == nextId0 + |added|
  {
    stories, nextId := stories0, nextId0;
    for i := 0 to |found|
      invariant stories == stories0 + SplitFirst(cleaned, found, bookId, nextId0, i)
      invariant nextId == nextId0 + |SplitFirst(cleaned, found, bookId, nextId0, i)|
    {
      SplitGrows(stories0, cleaned, found, bookId, nextId0, i);
      stories, nextId := SplitChunk(stories, nextId, bookText, found, bookId, i, cleaned);
    }
  }

  // ---------------------------------------------------------------------
  // The fallback split
  // ---------------------------------------------------------------------

  /** The length of the match of
      `(?:HADITH|Hadith|Story|STORY|No\.|NO\.)\s*[-:.]?\s*\d+` at the start
      of `s`. After the word and a whitespace run, a dash, colon or dot is
      taken if present; the digits must follow it (after more whitespace)
      or follow the first run directly; every shorter choice of the
      whitespace runs or of the optional mark leaves a non-digit in front
      of `\d+`, so no backtracking can find another match. */
  function MarkerAt(s: string): (r: Option<nat>)
    ensures r.Some? ==> 0 < r.value <= |s|
  {
    var w :=
      if StartsWith(s, "HADITH") || StartsWith(s, "Hadith") then 6
      else if StartsWith(s, "Story") || StartsWith(s, "STORY") then 5
      else if StartsWith(s, "No.") || StartsWith(s, "NO.") then 3
      else 0;
    if w == 0 then None
    else
      var p := w + SpaceRun(s[w..]);
      var q := if p < |s| && s[p] in "-:." then p + 1 + SpaceRun(s[p + 1..]) else p;
      if q < |s| && IsDigit(s[q]) then Some(q + DigitRun(s[q..])) else None
  }

  /** `re.split(marker, s)`: the pieces between the leftmost
      non-overlapping markers. */
  function SplitAtMarkers(s: string): (r: seq<string>)
    ensures |r| >= 1
    decreases |s|
  {
    if s == [] then [""]
    else match MarkerAt(s)
      case Some(n) => [""] + SplitAtMarkers(s[n..])
      case None =>
        var rest := SplitAtMarkers(s[1..]);
        [[s[0]] + rest[0]] + rest[1..]
  }

  /** The pieces are the text with the markers taken out: together they are
      never longer than the text. */
  lemma {:induction false} SplitAtMarkersShorter(s: string)
    ensures |Flatten(SplitAtMarkers(s))| <= |s|
    decreases |s|
  {
    if s != [] {
      match MarkerAt(s)
      case Some(n) =>
        SplitAtMarkersShorter(s[n..]);
        assert Flatten(SplitAtMarkers(s)) == "" + Flatten(SplitAtMarkers(s[n..]));
      case None =>
        SplitAtMarkersShorter(s[1..]);
        var rest := SplitAtMarkers(s[1..]);
        assert rest == [rest[0]] + rest[1..];
        assert Flatten(rest) == rest[0] + Flatten(rest[1..]);
        assert Flatten(SplitAtMarkers(s)) == [s[0]] + rest[0] + Flatten(rest[1..]);
    }
  }

  /** A text without any marker is one piece. */
  lemma {:induction false} SplitAtMarkersNone(s: string)
    requires forall i :: 0 <= i < |s| ==> MarkerAt(s[i..]).None?
    ensures SplitAtMarkers(s) == [s]
    decreases |s|
  {
    if s != [] {
      assert MarkerAt(s[0..]).None? && s[0..] == s;
      var t := s[1..];
      forall i | 0 <= i < |t| ensures MarkerAt(t[i..]).None? {
        assert t[i..] == s[i + 1..];
      }
      SplitAtMarkersNone(t);
      assert [s[0]] + t == s;
    }
  }

  /** The markers `SplitAtMarkers` cuts at, left to right. */
  function Markers(s: string): seq<string>
    decreases |s|
  {
    if s == [] then []
    else match MarkerAt(s)
      case Some(n) => [s[..n]] + Markers(s[n..])
      case None => Markers(s[1..])
  }

  /** The pieces with the separators put back between them. */
  function Interleave(pieces: seq<string>, seps: seq<string>): string
    requires |pieces| == |seps| + 1
    decreases |seps|
  {
    if seps == [] then pieces[0] else pieces[0] + seps[0] + Interleave(pieces[1..], seps[1..])
  }

  /** Prefixing the first piece prefixes the interleaving. */
  lemma {:induction false} InterleaveFront(c: string, pieces: seq<string>, seps: seq<string>)
    requires |pieces| == |seps| + 1
    ensures Interleave([c + pieces[0]] + pieces[1..], seps) == c + Interleave(pieces, seps)
  {
    var ps := [c + pieces[0]] + pieces[1..];
    if seps != [] {
      assert ps[1..] == pieces[1..];
      AppendAssoc(c, pieces[0], seps[0]);
      AppendAssoc(c, pieces[0] + seps[0], Interleave(pieces[1..], seps[1..]));
    }
  }

  /** A marker of length `n` at the front: an empty piece, then the marker. */
  lemma JoinAfterMarker(s: string, n: nat, ps: seq<string>, ms: seq<string>)
    requires 0 < n <= |s| && |ps| == |ms| + 1 && Interleave(ps, ms) == s[n..]
    ensures Interleave([""] + ps, [s[..n]] + ms) == s
  {
    var pieces, seps := [""] + ps, [s[..n]] + ms;
    assert pieces[1..] == ps && seps[1..] == ms;
    assert Interleave(pieces, seps) == pieces[0] + seps[0] + Interleave(ps, ms);
    assert pieces[0] + seps[0] == s[..n];
    assert s[..n] + s[n..] == s;
  }

  /** No marker at the front: the first character joins the first piece. */
  lemma JoinAfterChar(s: string, ps: seq<string>, ms: seq<string>)
    requires s != [] && |ps| == |ms| + 1 && Interleave(ps, ms) == s[1..]
    ensures Interleave([[s[0]] + ps[0]] + ps[1..], ms) == s
  {
    InterleaveFront([s[0]], ps, ms);
    assert [s[0]] + s[1..] == s;
  }

  /** The split loses nothing: there is one more piece than markers, and
      the pieces with the markers put back between them give the text. */
  lemma {:induction false} SplitAtMarkersJoin(s: string)
    ensures |SplitAtMarkers(s)| == |Markers(s)| + 1
    ensures Interleave(SplitAtMarkers(s), Markers(s)) == s
    decreases |s|
  {
    if s != [] {
      match MarkerAt(s)
      case Some(n) =>
        SplitAtMarkersJoin(s[n..]);
        JoinAfterMarker(s, n, SplitAtMarkers(s[n..]), Markers(s[n..]));
      case None =>
        SplitAtMarkersJoin(s[1..]);
        JoinAfterChar(s, SplitAtMarkers(s[1..]), Markers(s[1..]));
    }
  }

  /** The texts longer than 200 characters, in order. */
  function LongOnes(cleaned: seq<string>): seq<string>
  {
    if cleaned == [] then []
    else
      var last := cleaned[|cleaned| - 1];
      LongOnes(cleaned[..|cleaned| - 1]) + (if |last| > 200 then [last] else [])
  }

  lemma {:induction false} LongOnesSpec(cleaned: seq<string>)
    ensures |LongOnes(cleaned)| <= |cleaned|
    ensures forall k :: 0 <= k < |LongOnes(cleaned)| ==>
      |LongOnes(cleaned)[k]| > 200 && exists i :: 0 <= i < |cleaned| && LongOnes(cleaned)[k] == cleaned[i]
  {
    if cleaned != [] {
      var init := cleaned[..|cleaned| - 1];
      LongOnesSpec(init);
      assert forall i :: 0 <= i < |init| ==> init[i] == cleaned[i];
    }
  }

  lemma {:induction false} LongOnesEmpty(cleaned: seq<string>)
    ensures LongOnes(cleaned) == [] <==> forall i :: 0 <= i < |cleaned| ==> |cleaned[i]| <= 200
  {
    if cleaned != [] {
      var init := cleaned[..|cleaned| - 1];
      LongOnesEmpty(init);
      assert forall i :: 0 <= i < |init| ==> init[i] == cleaned[i];
    }
  }

  /** Lines 154 to 158: every piece cleaned, kept when longer than 200
      characters. */
  function KeepLong(pieces: seq<string>): seq<string>
  {
    LongOnes(CleanEach(pieces))
  }

  /** The kept chunks are, in order, cleaned pieces longer than 200
      characters. */
  lemma KeepLongSpec(pieces: seq<string>)
    ensures |KeepLong(pieces)| <= |pieces|
    ensures forall k :: 0 <= k < |KeepLong(pieces)| ==>
      |KeepLong(pieces)[k]| > 200 && exists i :: 0 <= i < |pieces| && KeepLong(pieces)[k] == CleanText(pieces[i])
  {
    var cleaned := CleanEach(pieces);
    var r := LongOnes(cleaned);
    LongOnesSpec(cleaned);
    forall k | 0 <= k < |r|
      ensures exists i :: 0 <= i < |pieces| && r[k] == CleanText(pieces[i])
    {
      var i :| 0 <= i < |cleaned| && r[k] == cleaned[i];
      assert cleaned[i] == CleanText(pieces[i]);
    }
  }

  /** Nothing is kept exactly when every piece cleans to at most 200
      characters. */
  lemma KeepLongEmpty(pieces: seq<string>)
    ensures KeepLong(pieces) == [] <==> forall i :: 0 <= i < |pieces| ==> |CleanText(pieces[i])| <= 200
  {
    var cleaned := CleanEach(pieces);
    LongOnesEmpty(cleaned);
    assert forall i :: 0 <= i < |pieces| ==> cleaned[i] == CleanText(pieces[i]);
  }

  /** The chunks to distribute: the long cleaned pieces or, when there is
      none, the whole cleaned book text (lines 162 to 166). */
  function FallbackChunks(bookText: string): (r: seq<string>)
    ensures |r| >= 1
  {
    var valid := KeepLong(SplitAtMarkers(bookText));
    if valid == [] then [CleanText(bookText)] else valid
  }

  /** Lines 154 to 166. */
  method FilterChunks(splits: seq<string>, bookText: string) returns (validChunks: seq<string>)
    ensures validChunks == if KeepLong(splits) == [] then [CleanText(bookText)] else KeepLong(splits)
  {
    validChunks := [];
    ghost var cleaned := CleanEach(splits);
    CleanEachCleans(splits);
    for i := 0 to |splits|
      invariant validChunks == LongOnes(cleaned[..i])
    {
      assert cleaned[..i + 1][..i] == cleaned[..i];
      var s := CleanText(splits[i]);
      if |s| > 200 {
        validChunks := validChunks + [s];
      }
    }
    assert cleaned[..|splits|] == cleaned;
    if validChunks == [] {
      var s := CleanText(bookText);
      validChunks := validChunks + [s];
    }
  }

  // ---------------------------------------------------------------------
  // Distribution
  // ---------------------------------------------------------------------

  function Min(a: int, b: int): int {
    if a <= b then a else b
  }

  /** `max(1, ceil(n / k))`, the float ceiling written as integer division. */
  function ChunksPerChapter(n: nat, k: nat): (c: nat)
    requires k > 0
    ensures c >= 1 && c * k >= n
    ensures n >= 1 ==> (c - 1) * k < n
  {
    var c := (n + k - 1) / k;
    if c < 1 then 1 else c
  }

  lemma PrefixSplit(s: seq<string>, a: nat, b: nat)
    requires a <= b <= |s|
    ensures s[..b] == s[..a] + s[a..b]
  {
  }

  lemma MulMono(i: nat, j: nat, c: nat)
    requires i <= j
    ensures i * c <= j * c
  {
  }

  lemma MulSucc(j: nat, c: nat)
    ensures (j + 1) * c == j * c + c
  {
  }

  /** The block of chapter `j`: the next `cpc` chunks, or fewer at the end. */
  function Block(chunks: seq<string>, j: nat, cpc: nat): seq<string>
  {
    chunks[Min(j * cpc, |chunks|)..Min((j + 1) * cpc, |chunks|)]
  }

  /** The first `k` blocks, in chapter order. */
  function Blocks(chunks: seq<string>, k: nat, cpc: nat): (r: seq<seq<string>>)
    ensures |r| == k && forall j :: 0 <= j < k ==> r[j] == Block(chunks, j, cpc)
  {
    seq(k, j requires 0 <= j < k => Block(chunks, j, cpc))
  }

  lemma {:induction false} BlocksPrefix(chunks: seq<string>, k: nat, cpc: nat)
    ensures Flatten(Blocks(chunks, k, cpc)) == chunks[..Min(k * cpc, |chunks|)]
  {
    if k > 0 {
      var init, last := Blocks(chunks, k - 1, cpc), Block(chunks, k - 1, cpc);
      BlocksPrefix(chunks, k - 1, cpc);
      assert Blocks(chunks, k, cpc) == init + [last];
      FlattenAppend(init, [last]);
      assert Flatten([last]) == last + Flatten<string>([]);
      var a, b := Min((k - 1) * cpc, |chunks|), Min(k * cpc, |chunks|);
      MulMono(k - 1, k, cpc);
      assert last == chunks[a..b];
      PrefixSplit(chunks, a, b);
    } else {
      assert chunks[..0] == [];
    }
  }

  /** Every chunk is handed to exactly one chapter: the blocks, in chapter
      order, put back together are the chunk list, and no block is larger
      than `cpc`. */
  lemma EveryChunkAssignedOnce(chunks: seq<string>, k: nat)
    requires k > 0
    ensures var cpc := ChunksPerChapter(|chunks|, k);
      && Flatten(Blocks(chunks, k, cpc)) == chunks
      && forall j :: 0 <= j < k ==> |Block(chunks, j, cpc)| <= cpc
  {
    var cpc := ChunksPerChapter(|chunks|, k);
    BlocksCover(chunks, k, cpc);
    forall j | 0 <= j < k ensures |Block(chunks, j, cpc)| <= cpc {
      BlockSize(chunks, j, cpc);
    }
  }

  /** Blocks enough for every chunk put together are the chunk list. */
  lemma BlocksCover(chunks: seq<string>, k: nat, cpc: nat)
    requires cpc * k >= |chunks|
    ensures Flatten(Blocks(chunks, k, cpc)) == chunks
  {
    BlocksPrefix(chunks, k, cpc);
    assert k * cpc == cpc * k;
    assert chunks[..|chunks|] == chunks;
  }

  /** No block is larger than `cpc`. */
  lemma BlockSize(chunks: seq<string>, j: nat, cpc: nat)
    ensures |Block(chunks, j, cpc)| <= cpc
  {
    MulSucc(j, cpc);
  }

  /** `[c.replace('\n', '<br><br>') for c in block]`. */
  function BreakLines(block: seq<string>): (r: seq<string>)
    ensures |r| == |block|
  {
    seq(|block|, i requires 0 <= i < |block| => ReplaceChar(block[i], '\n', "<br><br>"))
  }

  /** The chapter story for a block: the chunks joined, titled after the
      chapter, previewed from its first chunk cleaned again (`cleanedHead`). */
  function BlockStory(block: seq<string>, cleanedHead: string, chapter: Chapter, bookId: int, id: int): Story
  {
    Story(id, bookId, chapter.title, "Content for " + chapter.title, Preview(cleanedHead),
          StoryHtml(Join("<br><hr><br>", BreakLines(block))))
  }

  /** `clean_text` of every text. */
  function CleanEach(texts: seq<string>): seq<string>
  {
    seq(|texts|, i requires 0 <= i < |texts| => CleanText(texts[i]))
  }

  /** `cleaned` holds the cleaned texts. */
  predicate CleanedEach(texts: seq<string>, cleaned: seq<string>) {
    && |cleaned| == |texts|
    && forall i {:trigger CleanText(texts[i])} :: 0 <= i < |texts| ==> cleaned[i] == CleanText(texts[i])
  }

  lemma CleanEachCleans(texts: seq<string>)
    ensures CleanedEach(texts, CleanEach(texts))
  {
    var c := CleanEach(texts);
    forall i | 0 <= i < |texts| ensures c[i] == CleanText(texts[i]) {
    }
  }

  /** The chapters (by position) whose block is not empty. */
  function ChaptersWithChunks(n: nat, k: nat, cpc: nat): set<nat>
  {
    set j: nat | j < k && j * cpc < n
  }

  /** The story chapter `j` adds in the fallback: one for its block when
      the block is not empty; `cleaned` holds the cleaned chunks. */
  function ChapterBlockStory(chunks: seq<string>, cleaned: seq<string>, chapters: seq<Chapter>, cpc: nat, bookId: int,
                             id: int, j: nat): seq<Story>
    requires j < |chapters| && |cleaned| == |chunks|
  {
    var block := Block(chunks, j, cpc);
    if block != [] then [BlockStory(block, cleaned[Min(j * cpc, |chunks|)], chapters[j], bookId, id)] else []
  }

  /** The stories of the fallback for the first `k` chapters: one for every
      chapter whose block is not empty, ids running on from `firstId`. */
  function DistributeFirst(chunks: seq<string>, cleaned: seq<string>, chapters: seq<Chapter>, cpc: nat, bookId: int,
                           firstId: int, k: nat): seq<Story>
    requires k <= |chapters| && |cleaned| == |chunks|
  {
    if k == 0 then []
    else
      var prev := DistributeFirst(chunks, cleaned, chapters, cpc, bookId, firstId, k - 1);
      prev + ChapterBlockStory(chunks, cleaned, chapters, cpc, bookId, firstId + |prev|, k - 1)
  }

  /** The stories of the fallback for all chapters. */
  function DistributeStories(chunks: seq<string>, chapters: seq<Chapter>, cpc: nat, bookId: int, firstId: int): seq<Story>
  {
    DistributeFirst(chunks, CleanEach(chunks), chapters, cpc, bookId, firstId, |chapters|)
  }

  lemma DistributeFirstStep(chunks: seq<string>, cleaned: seq<string>, chapters: seq<Chapter>, cpc: nat, bookId: int, firstId: int, j: nat)
    requires j < |chapters| && |cleaned| == |chunks|
    ensures var prev := DistributeFirst(chunks, cleaned, chapters, cpc, bookId, firstId, j);
      DistributeFirst(chunks, cleaned, chapters, cpc, bookId, firstId, j + 1)
      == prev + ChapterBlockStory(chunks, cleaned, chapters, cpc, bookId, firstId + |prev|, j)
  {
  }

  lemma ChaptersWithChunksStep(n: nat, j: nat, cpc: nat)
    ensures |ChaptersWithChunks(n, j + 1, cpc)|
         == |ChaptersWithChunks(n, j, cpc)| + (if j * cpc < n then 1 else 0)
  {
    var before := ChaptersWithChunks(n, j, cpc);
    var after := ChaptersWithChunks(n, j + 1, cpc);
    if j * cpc < n {
      assert after == before + {j};
    } else {
      assert after == before;
    }
  }

  lemma BlockNonEmpty(chunks: seq<string>, j: nat, cpc: nat)
    requires cpc >= 1
    ensures Block(chunks, j, cpc) != [] <==> j * cpc < |chunks|
  {
    MulSucc(j, cpc);
  }

  lemma {:induction false} DistributeFirstCount(chunks: seq<string>, cleaned: seq<string>, chapters: seq<Chapter>, cpc: nat, bookId: int, firstId: int, k: nat)
    requires cpc >= 1 && k <= |chapters| && |cleaned| == |chunks|
    ensures |DistributeFirst(chunks, cleaned, chapters, cpc, bookId, firstId, k)| == |ChaptersWithChunks(|chunks|, k, cpc)|
  {
    if k > 0 {
      var j := k - 1;
      DistributeFirstCount(chunks, cleaned, chapters, cpc, bookId, firstId, j);
      DistributeFirstStep(chunks, cleaned, chapters, cpc, bookId, firstId, j);
      ChaptersWithChunksStep(|chunks|, j, cpc);
      BlockNonEmpty(chunks, j, cpc);
    }
  }

  /** The fallback's stories for the first `k` chapters are numbered on
      from `firstId`, of the book, each of one of those chapters. */
  lemma {:induction false} DistributeFirstStories(chunks: seq<string>, cleaned: seq<string>, chapters: seq<Chapter>, cpc: nat, bookId: int, firstId: int, k: nat)
    requires k <= |chapters| && |cleaned| == |chunks|
    ensures var r := DistributeFirst(chunks, cleaned, chapters, cpc, bookId, firstId, k);
      && IdsFrom(r, firstId)
      && forall i :: 0 <= i < |r| ==>
           r[i].bookId == bookId && exists j :: 0 <= j < k && r[i].chapter == chapters[j].title
  {
    if k > 0 {
      var j := k - 1;
      DistributeFirstStories(chunks, cleaned, chapters, cpc, bookId, firstId, j);
      DistributeFirstStep(chunks, cleaned, chapters, cpc, bookId, firstId, j);
      var prev := DistributeFirst(chunks, cleaned, chapters, cpc, bookId, firstId, j);
      var more := ChapterBlockStory(chunks, cleaned, chapters, cpc, bookId, firstId + |prev|, j);
      var r := prev + more;
      forall i | 0 <= i < |r|
        ensures r[i].id == firstId + i && r[i].bookId == bookId
        ensures exists c :: 0 <= c < k && r[i].chapter == chapters[c].title
      {
        if i < |prev| {
          assert r[i] == prev[i];
        } else {
          assert r[i] == more[0];
        }
      }
    }
  }

  /** One story per chapter whose block is not empty (those are the first
      chapters, up to the one that takes the last chunk), ids running on,
      every story of the book and of one of its chapters. */
  lemma DistributeStoriesSpec(chunks: seq<string>, chapters: seq<Chapter>, cpc: nat, bookId: int, firstId: int)
    requires cpc >= 1
    ensures var r := DistributeStories(chunks, chapters, cpc, bookId, firstId);
      && |r| == |ChaptersWithChunks(|chunks|, |chapters|, cpc)|
      && IdsFrom(r, firstId)
      && forall i :: 0 <= i < |r| ==>
           r[i].bookId == bookId && exists j :: 0 <= j < |chapters| && r[i].chapter == chapters[j].title
  {
    var cleaned := CleanEach(chunks);
    assert DistributeStories(chunks, chapters, cpc, bookId, firstId)
        == DistributeFirst(chunks, cleaned, chapters, cpc, bookId, firstId, |chapters|);
    DistributeFirstCount(chunks, cleaned, chapters, cpc, bookId, firstId, |chapters|);
    DistributeFirstStories(chunks, cleaned, chapters, cpc, bookId, firstId, |chapters|);
  }

  /** The inner loop of lines 176 to 181: the next `cpc` chunks from
      `start`, or fewer at the end of the list. */
  method AssignChunks(validChunks: seq<string>, start: nat, cpc: nat) returns (taken: seq<string>, next: nat)
    requires start <= |validChunks|
    ensures next == Min(start + cpc, |validChunks|)
    ensures taken == validChunks[start..next]
  {
    taken, next := [], start;
    for t := 0 to cpc
      invariant next == Min(start + t, |validChunks|)
      invariant taken == validChunks[start..next]
    {
      if next < |validChunks| {
        taken := taken + [validChunks[next]];
        next := next + 1;
      }
    }
  }

  /** One turn of the loop of lines 175 to 195: chapter `j` takes the next
      `cpc` chunks from `idx0` and, when it got any, adds its story. */
  method DistributeChapter(stories0: seq<Story>, nextId0: int, validChunks: seq<string>, bookChapters: seq<Chapter>,
                           cpc: nat, bookId: int, j: nat, idx0: nat, ghost cleaned: seq<string>)
    returns (stories: seq<Story>, nextId: int, idx: nat)
    requires j < |bookChapters| && CleanedEach(validChunks, cleaned)
    requires idx0 == Min(j * cpc, |validChunks|)
    ensures idx == Min((j + 1) * cpc, |validChunks|)
    ensures var added := ChapterBlockStory(validChunks, cleaned, bookChapters, cpc, bookId, nextId0, j);
      stories == stories0 + added && nextId == nextId0 + |added|
  {
    stories, nextId := stories0, nextId0;
    var chapter := bookChapters[j];
    var assignedChunks;
    MulSucc(j, cpc);
    assignedChunks, idx := AssignChunks(validChunks, idx0, cpc);
    assert assignedChunks == Block(validChunks, j, cpc);
    if assignedChunks != [] {
      assert assignedChunks[0] == validChunks[idx0];
      var fullChapterText := Join("<br><hr><br>", BreakLines(assignedChunks));
      var story := Story(nextId, bookId, chapter.title, "Content for " + chapter.title,
                         Preview(CleanText(assignedChunks[0])), StoryHtml(fullChapterText));
      stories := stories + [story];
      nextId := nextId + 1;
    }
  }

  /** Appending chapter `j`'s story to a list that ends in the stories of
      the chapters before it gives a list that ends in those of the first
      `j + 1` chapters. */
  lemma DistributeGrows(stories0: seq<Story>, chunks: seq<string>, cleaned: seq<string>, chapters: seq<Chapter>, cpc: nat, bookId: int,
                        firstId: int, j: nat)
    requires j < |chapters| && |cleaned| == |chunks|
    ensures var prev := DistributeFirst(chunks, cleaned, chapters, cpc, bookId, firstId, j);
      var more := ChapterBlockStory(chunks, cleaned, chapters, cpc, bookId, firstId + |prev|, j);
      stories0 + prev + more == stories0 + DistributeFirst(chunks, cleaned, chapters, cpc, bookId, firstId, j + 1)
  {
    var prev := DistributeFirst(chunks, cleaned, chapters, cpc, bookId, firstId, j);
    var more := ChapterBlockStory(chunks, cleaned, chapters, cpc, bookId, firstId + |prev|, j);
    DistributeFirstStep(chunks, cleaned, chapters, cpc, bookId, firstId, j);
    AppendAssociates(stories0, prev, more, DistributeFirst(chunks, cleaned, chapters, cpc, bookId, firstId, j + 1));
  }

  /** Lines 169 to 170: `math.ceil(len(valid_chunks) / len(book_chapters))`, at least 1. */
  method ComputeChunksPerChapter(n: nat, k: nat) returns (c: nat)
    requires k > 0
    ensures c == ChunksPerChapter(n, k)
  {
    c := (n + k - 1) / k;
    if c < 1 {
      c := 1;
    }
  }

  /** The chapter loop of lines 175 to 195, with `cpc` chunks per
      chapter, appending to the story list. */
  method DistributeChapters(stories0: seq<Story>, nextId0: int, validChunks: seq<string>, bookChapters: seq<Chapter>,
                            cpc: nat, bookId: int, ghost cleaned: seq<string>)
    returns (stories: seq<Story>, nextId: int)
    requires CleanedEach(validChunks, cleaned)
    ensures var added := DistributeFirst(validChunks, cleaned, bookChapters, cpc, bookId, nextId0, |bookChapters|);
      stories == stories0 + added && nextId == nextId0 + |added|
  {
    stories, nextId := stories0, nextId0;
    var currentChunkIdx := 0;
    for j := 0 to |bookChapters|
      invariant currentChunkIdx == Min(j * cpc, |validChunks|)
      invariant stories == stories0 + DistributeFirst(validChunks, cleaned, bookChapters, cpc, bookId, nextId0, j)
      invariant nextId == nextId0 + |DistributeFirst(validChunks, cleaned, bookChapters, cpc, bookId, nextId0, j)|
    {
      DistributeGrows(stories0, validChunks, cleaned, bookChapters, cpc, bookId, nextId0, j);
      stories, nextId, currentChunkIdx :=
        DistributeChapter(stories, nextId, validChunks, bookChapters, cpc, bookId, j, currentChunkIdx, cleaned);
    }
  }

  /** Lines 169 to 195, appending to the story list. */
  method AppendDistribution(stories0: seq<Story>, nextId0: int, validChunks: seq<string>, bookChapters: seq<Chapter>,
                            bookId: int, ghost cleaned: seq<string>)
    returns (stories: seq<Story>, nextId: int)
    requires |bookChapters| > 0 && CleanedEach(validChunks, cleaned)
    ensures var added := DistributeFirst(validChunks, cleaned, bookChapters,
                                         ChunksPerChapter(|validChunks|, |bookChapters|), bookId, nextId0, |bookChapters|);
      stories == stories0 + added && nextId == nextId0 + |added|
  {
    var chunksPerChapter := ComputeChunksPerChapter(|validChunks|, |bookChapters|);
    stories, nextId := DistributeChapters(stories0, nextId0, validChunks, bookChapters, chunksPerChapter, bookId, cleaned);
  }

  // ---------------------------------------------------------------------
  // extract_stories
  // ---------------------------------------------------------------------

  /** The stories kept from the data file: those with id at most 10. */
  function Kept(stories: seq<Story>): (r: seq<Story>)
    ensures |r| <= |stories|
  {
    if stories == [] then []
    else Kept(stories[..|stories| - 1]) + (if stories[|stories| - 1].id <= 10 then [stories[|stories| - 1]] else [])
  }

  /** The kept stories are exactly those with id at most 10. */
  lemma {:induction false} KeptMembers(stories: seq<Story>)
    ensures forall s :: s in Kept(stories) <==> s in stories && s.id <= 10
  {
    if stories != [] {
      var init := stories[..|stories| - 1];
      var last := stories[|stories| - 1];
      KeptMembers(init);
      assert stories == init + [last];
      assert Kept(stories) == Kept(init) + (if last.id <= 10 then [last] else []);
      forall s ensures s in Kept(stories) <==> s in stories && s.id <= 10 {
        assert s in stories <==> s in init || s == last;
      }
    }
  }

  /** The kept stories keep their original order: they are the stories at
      increasing positions `idx` of the input. */
  lemma {:induction false} KeptOrder(stories: seq<Story>) returns (idx: seq<nat>)
    ensures |idx| == |Kept(stories)|
    ensures forall i :: 0 <= i < |idx| ==> idx[i] < |stories| && stories[idx[i]] == Kept(stories)[i]
    ensures forall i, j :: 0 <= i < j < |idx| ==> idx[i] < idx[j]
  {
    if stories == [] {
      idx := [];
    } else {
      var n := |stories| - 1;
      var init := stories[..n];
      var prev := KeptOrder(init);
      var extra := if stories[n].id <= 10 then [n] else [];
      assert Kept(stories) == Kept(init) + (if stories[n].id <= 10 then [stories[n]] else []);
      idx := prev + extra;
      forall i | 0 <= i < |idx| ensures idx[i] < |stories| && stories[idx[i]] == Kept(stories)[i] {
        if i < |prev| {
          assert idx[i] == prev[i] && stories[prev[i]] == init[prev[i]];
        }
      }
      forall i, j | 0 <= i < j < |idx| ensures idx[i] < idx[j] {
        if j < |prev| {
          assert idx[i] == prev[i] && idx[j] == prev[j];
        } else {
          assert idx[i] == prev[i] < n == idx[j];
        }
      }
    }
  }

  /** The chapters of the data file that belong to `bookId`. */
  function ChaptersOf(chapters: seq<Chapter>, bookId: int): (r: seq<Chapter>)
    ensures forall c :: c in r <==> c in chapters && c.bookId == bookId
  {
    if chapters == [] then []
    else ChaptersOf(chapters[..|chapters| - 1], bookId)
         + (if chapters[|chapters| - 1].bookId == bookId then [chapters[|chapters| - 1]] else [])
  }

  /** Every story in `stories` belongs to book `bookId`. */
  predicate OfBook(stories: seq<Story>, bookId: int) {
    forall i :: 0 <= i < |stories| ==> stories[i].bookId == bookId
  }

  /** Every story in `stories` belongs to a book with a known page range. */
  predicate FromKnownBooks(stories: seq<Story>) {
    forall i :: 0 <= i < |stories| ==> stories[i].bookId in BooksMeta
  }

  /** Stories from the chunks of book `bookId` belong to that book. */
  lemma ChunkStoriesOfBook(text: string, found: seq<Found>, bookId: int, firstId: int, r: seq<Story>)
    requires SplitOfChunks(text, found, bookId, firstId, r)
    ensures OfBook(r, bookId)
  {
  }

  /** The stories of a book with chapters: the chapter split when at least
      half the chapters are found, else the distribution of the fallback
      chunks. */
  function ChapterStories(bookText: string, bookChapters: seq<Chapter>, bookId: int, firstId: int): (r: seq<Story>)
    ensures IdsFrom(r, firstId) && OfBook(r, bookId)
  {
    var found := LocateChapters(bookText, bookChapters, bookId);
    if UseChapterSplit(|found|, |bookChapters|) then
      var r := SplitStories(bookText, SortFound(found), bookId, firstId);
      ChunkStoriesOfBook(bookText, SortFound(found), bookId, firstId, r);
      r
    else
      var chunks := FallbackChunks(bookText);
      if bookChapters == [] then []
      else
        var cpc := ChunksPerChapter(|chunks|, |bookChapters|);
        DistributeStoriesSpec(chunks, bookChapters, cpc, bookId, firstId);
        DistributeStories(chunks, bookChapters, cpc, bookId, firstId)
  }

  /** The stories one book adds, ids running on from `firstId`: none for a
      book without a known page range or without chapters; otherwise they
      all carry the book's id. */
  function BookStories(pages: map<int, string>, book: Book, chapters: seq<Chapter>, firstId: int): (r: seq<Story>)
    ensures IdsFrom(r, firstId) && OfBook(r, book.id)
    ensures r != [] ==> book.id in BooksMeta
  {
    if book.id !in BooksMeta then []
    else
      var bookChapters := ChaptersOf(chapters, book.id);
      if bookChapters == [] then []
      else
        var bookText := BookText(pages, BooksMeta[book.id].0, BooksMeta[book.id].1 + 1);
        ChapterStories(bookText, bookChapters, book.id, firstId)
  }

  /** Appending one known book's stories, numbered on, keeps the ids
      running on and every story's book known. */
  lemma AppendRunningIds(prev: seq<Story>, added: seq<Story>, bookId: int, firstId: int)
    requires IdsFrom(prev, firstId) && IdsFrom(added, firstId + |prev|)
    requires FromKnownBooks(prev) && OfBook(added, bookId) && (added != [] ==> bookId in BooksMeta)
    ensures IdsFrom(prev + added, firstId) && FromKnownBooks(prev + added)
  {
    var r := prev + added;
    forall i | 0 <= i < |r| ensures r[i].id == firstId + i {
      if i >= |prev| { assert r[i] == added[i - |prev|]; }
    }
  }

  /** The stories added by the first `n` books: their ids run on from
      `firstId` without gaps, and each belongs to a book with a known page
      range. */
  function NewStories(pages: map<int, string>, books: seq<Book>, chapters: seq<Chapter>, firstId: int, n: nat): (r: seq<Story>)
    requires n <= |books|
    ensures IdsFrom(r, firstId) && FromKnownBooks(r)
  {
    if n == 0 then []
    else
      var prev := NewStories(pages, books, chapters, firstId, n - 1);
      var added := BookStories(pages, books[n - 1], chapters, firstId + |prev|);
      AppendRunningIds(prev, added, books[n - 1].id, firstId);
      prev + added
  }

  lemma NewStoriesStep(pages: map<int, string>, books: seq<Book>, chapters: seq<Chapter>, firstId: int, n: nat)
    requires n < |books|
    ensures var prev := NewStories(pages, books, chapters, firstId, n);
      NewStories(pages, books, chapters, firstId, n + 1)
      == prev + BookStories(pages, books[n], chapters, firstId + |prev|)
  {
  }

  /** The final story list: the kept stories, then the new ones from id 11. */
  function FinalStories(items: seq<PageContent>, books: seq<Book>, chapters: seq<Chapter>, stories: seq<Story>): seq<Story>
  {
    Kept(stories) + NewStories(PageMap(items), books, chapters, 11, |books|)
  }

  /** The kept stories come first, in their order, and the stories after
      them are numbered 11, 12, 13, ... */
  lemma FinalStoriesSpec(items: seq<PageContent>, books: seq<Book>, chapters: seq<Chapter>, stories: seq<Story>)
    ensures var r := FinalStories(items, books, chapters, stories);
      && r[..|Kept(stories)|] == Kept(stories)
      && forall i :: |Kept(stories)| <= i < |r| ==> r[i].id == 11 + (i - |Kept(stories)|) && r[i].bookId in BooksMeta
  {
    var k := Kept(stories);
    var added := NewStories(PageMap(items), books, chapters, 11, |books|);
    var r := k + added;
    assert r[..|k|] == k;
    forall i | |k| <= i < |r| ensures r[i].id == 11 + (i - |k|) && r[i].bookId in BooksMeta {
      assert r[i] == added[i - |k|];
      assert added[i - |k|] in added;
    }
  }

  /** Lines 87 to 195 for a book with chapters. */
  method ProcessChapters(stories0: seq<Story>, nextId0: int, bookText: string, bookChapters: seq<Chapter>, bookId: int)
    returns (stories: seq<Story>, nextId: int)
    requires bookChapters != []
    ensures var added := ChapterStories(bookText, bookChapters, bookId, nextId0);
      stories == stories0 + added && nextId == nextId0 + |added|
  {
    var chaptersFound := FindChapters(bookText, bookChapters, bookId);
    SortFoundLength(chaptersFound);
    chaptersFound := SortFound(chaptersFound);
    var useChapterSplit := 2 * |chaptersFound| >= |bookChapters|;
    if useChapterSplit {
      CleanedChunksOf(bookText, chaptersFound);
      stories, nextId := AppendChapterSplit(stories0, nextId0, bookText, chaptersFound, bookId,
                                            CleanedChunks(bookText, chaptersFound));
    } else {
      var splits := SplitAtMarkers(bookText);
      var validChunks := FilterChunks(splits, bookText);
      assert validChunks == FallbackChunks(bookText);
      CleanEachCleans(validChunks);
      stories, nextId := AppendDistribution(stories0, nextId0, validChunks, bookChapters, bookId, CleanEach(validChunks));
    }
  }

  /** The story processing of one book (lines 69 to 195). */
  method ProcessBook(stories0: seq<Story>, nextId0: int, pages: map<int, string>, book: Book, chapters: seq<Chapter>)
    returns (stories: seq<Story>, nextId: int)
    ensures var added := BookStories(pages, book, chapters, nextId0);
      stories == stories0 + added && nextId == nextId0 + |added|
  {
    stories, nextId := stories0, nextId0;
    var bookId := book.id;
    if bookId !in BooksMeta {
      return;
    }
    var startPage := BooksMeta[bookId].0;
    var endPage := BooksMeta[bookId].1;
    var bookText := BuildBookText(pages, startPage, endPage);
    var bookChapters := ChaptersOf(chapters, bookId);
    if bookChapters == [] {
      return;
    }
    stories, nextId := ProcessChapters(stories, nextId, bookText, bookChapters, bookId);
  }

  /** One turn of the book loop of lines 68 to 195: the stories so far are
      the kept ones and those of the first `b` books; afterwards also those
      of book `b`. */
  method ProcessNextBook(stories0: seq<Story>, nextId0: int, pages: map<int, string>, books: seq<Book>,
                         chapters: seq<Chapter>, b: nat, ghost kept: seq<Story>)
    returns (stories: seq<Story>, nextId: int)
    requires b < |books|
    requires stories0 == kept + NewStories(pages, books, chapters, 11, b)
    requires nextId0 == 11 + |NewStories(pages, books, chapters, 11, b)|
    ensures stories == kept + NewStories(pages, books, chapters, 11, b + 1)
    ensures nextId == 11 + |NewStories(pages, books, chapters, 11, b + 1)|
  {
    NewStoriesStep(pages, books, chapters, 11, b);
    ghost var added := NewStories(pages, books, chapters, 11, b);
    ghost var more := BookStories(pages, books[b], chapters, 11 + |added|);
    stories, nextId := ProcessBook(stories0, nextId0, pages, books[b], chapters);
    AppendAssociates(kept, added, more, NewStories(pages, books, chapters, 11, b + 1));
  }

  /** `extract_stories` after the files are read: `None` when the page dump
      is empty (the script then stops without writing), otherwise the new
      story list of the data file. */
  method ExtractStories(items: seq<PageContent>, books: seq<Book>, chapters: seq<Chapter>, stories: seq<Story>)
    returns (result: Option<seq<Story>>)
    ensures items == [] ==> result == None
    ensures items != [] ==> result == Some(FinalStories(items, books, chapters, stories))
  {
    if items == [] {
      return None;
    }
    var pages := PageMap(items);
    var finalStories := Kept(stories);
    var nextId := 11;
    for b := 0 to |books|
      invariant finalStories == Kept(stories) + NewStories(pages, books, chapters, 11, b)
      invariant nextId == 11 + |NewStories(pages, books, chapters, 11, b)|
    {
      finalStories, nextId := ProcessNextBook(finalStories, nextId, pages, books, chapters, b, Kept(stories));
    }
    return Some(finalStories);
  }
}

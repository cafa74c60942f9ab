/** `generate_website_data.py`: the static book, chapter and story tables
    of the website, and the assembly of each story's content from the page
    dump: the pages of the story's range are joined, `<arabic>` passages
    become `<span>` elements, and a tag-free preview is cut from the
    result. `extract_story`, which the script defines but does not call,
    is modelled too. */
module GenerateWebsiteData {
  import opened Text
  import opened SiteData
  import ExtractComplete

  // ---------------------------------------------------------------------
  // BOOKS, CHAPTERS, STORIES
  // ---------------------------------------------------------------------

  const Books: seq<Book> := [
    Book(1, "Stories of the Sahaabah", "حکایاتِ صحابہ", 3, 130),
    Book(2, "Virtues of the Holy Qur'aan", "فضائلِ قرآن", 131, 200),
    Book(3, "Virtues of Salaat", "فضائلِ نماز", 201, 280),
    Book(4, "Virtues of Zikr", "فضائلِ ذکر", 281, 340),
    Book(5, "Virtues of Tabligh", "فضائلِ تبلیغ", 341, 400),
    Book(6, "Virtues of Ramadhaan", "فضائلِ رمضان", 401, 430),
    Book(7, "Muslim Degeneration", "مسلمانوں کی پستی", 431, 445),
    Book(8, "Six Fundamentals", "چھ اصول", 446, 452)
  ]

  /** The books are numbered 1 to 8, and each range starts right after the
      previous one ends, from page 3 to page 452. */
  lemma BooksContiguous()
    ensures |Books| == 8 && Books[0].startPage == 3 && Books[|Books| - 1].endPage == 452
    ensures forall i :: 0 < i < |Books| ==> Books[i].startPage == Books[i - 1].endPage + 1
    ensures forall i :: 0 <= i < |Books| ==> Books[i].id == i + 1 && Books[i].startPage <= Books[i].endPage
  {
  }

  /** Consequently every page from 3 to 452 lies in exactly one book's
      range: the index of that book. */
  lemma PageInOneBook(page: int) returns (i: nat)
    requires 3 <= page <= 452
    ensures i < |Books| && Books[i].startPage <= page <= Books[i].endPage
    ensures forall j :: 0 <= j < |Books| && Books[j].startPage <= page <= Books[j].endPage ==> j == i
  {
    BooksContiguous();
    i := 0;
    while Books[i].endPage < page
      invariant i < |Books| && Books[i].startPage <= page
      decreases |Books| - i
    {
      i := i + 1;
    }
    forall j | 0 <= j < |Books| && Books[j].startPage <= page <= Books[j].endPage ensures j == i {
      BooksOrdered(j, i);
      BooksOrdered(i, j);
    }
  }

  /** A later book starts after an earlier one ends. */
  lemma BooksOrdered(i: nat, j: nat)
    requires i < |Books| && j < |Books|
    ensures i < j ==> Books[i].endPage < Books[j].startPage
  {
    BooksContiguous();
    if i < j {
      var k := i + 1;
      while k < j
        invariant i < k <= j && Books[i].endPage < Books[k].startPage
      {
        k := k + 1;
      }
    }
  }

  const Chapters: seq<Chapter> := [
    Chapter(1, 1, "Steadfastness in the Face of Hardships", "مشکلات میں ثابت قدمی"),
    Chapter(2, 1, "Fear of Allah", "اللہ کا خوف"),
    Chapter(3, 1, "Abstinence and Self-Denial", "پرہیزگاری"),
    Chapter(4, 1, "Piety and Scrupulousness", "تقویٰ اور احتیاط"),
    Chapter(5, 1, "Devotion to Salaat", "نماز کی محبت"),
    Chapter(6, 1, "Sympathy and Self-Sacrifice", "ہمدردی اور ایثار"),
    Chapter(7, 1, "Valour and Heroism", "بہادری اور شجاعت"),
    Chapter(8, 1, "Zeal for Knowledge", "علم کا شوق"),
    Chapter(9, 1, "Pleasing the Prophet", "نبی ﷺ کی خوشنودی"),
    Chapter(10, 1, "Women's Courage and Spirit", "خواتین کی ہمت"),
    Chapter(11, 1, "The Children", "بچے"),
    Chapter(12, 1, "Love for the Prophet", "نبی ﷺ سے محبت")
  ]

  /** An entry of the `STORIES` table: where a story's pages are. */
  datatype StoryEntry = StoryEntry(id: int, bookId: int, chapter: string, title: string, startPage: int, endPage: int)

  const Steadfastness := "Steadfastness in the Face of Hardships"

  const Stories: seq<StoryEntry> := [
    StoryEntry(1, 1, Steadfastness, "Prophet's Journey to Taif", 10, 12),
    StoryEntry(2, 1, Steadfastness, "Martyrdom of Hadhrat Anas bin Nadhr", 12, 12),
    StoryEntry(3, 1, Steadfastness, "Hadhrat Bilal and his Sufferings", 13, 14),
    StoryEntry(4, 1, Steadfastness, "Hadhrat Abuzar Ghifari's Conversion to Islam", 14, 15),
    StoryEntry(5, 1, Steadfastness, "The Afflictions of Hadhrat Khabbab", 15, 16),
    StoryEntry(6, 1, Steadfastness, "Hadhrat Ammaar and His Parents", 16, 17),
    StoryEntry(7, 1, Steadfastness, "Hadhrat Sohaib's Coming into Islam", 17, 17),
    StoryEntry(8, 1, Steadfastness, "Hadhrat Umar Coming into Islam", 17, 19),
    StoryEntry(9, 1, "Fear of Allah", "The Prophet's Apprehensions at the Time of Storm", 21, 22),
    StoryEntry(10, 1, "Fear of Allah", "Hadhrat Abu Bakr and the Fear of Allah", 22, 23)
  ]

  /** The chapter entry a story names: same title, same book. */
  predicate NamesChapter(s: StoryEntry, c: Chapter) {
    c.title == s.chapter && c.bookId == s.bookId
  }

  /** The story names an entry of `CHAPTERS`. */
  predicate HasChapter(s: StoryEntry) {
    exists c :: 0 <= c < |Chapters| && NamesChapter(s, Chapters[c])
  }

  /** Every story has a non-empty page range, its chapter is an entry of
      `CHAPTERS` of the same book, and the ids run 1 to 10. */
  lemma StoriesWellFormed()
    ensures forall i :: 0 <= i < |Stories| ==> Stories[i].id == i + 1 && Stories[i].startPage <= Stories[i].endPage
    ensures forall i :: 0 <= i < |Stories| ==> HasChapter(Stories[i])
  {
    forall i | 0 <= i < |Stories| ensures HasChapter(Stories[i]) {
      var c := if i < 8 then 0 else 1;
      assert NamesChapter(Stories[i], Chapters[c]);
    }
  }

  // ---------------------------------------------------------------------
  // format_arabic_in_content
  // ---------------------------------------------------------------------

  const ArabicOpen := "<arabic>"
  const ArabicClose := "</arabic>"
  const SpanOpen := "<span class=\"arabic-text\" lang=\"ar\">"
  const SpanClose := "</span>"

  /** `re.sub(r'<arabic>(.*?)</arabic>', r'<span ...>\1</span>', s,
      flags=re.DOTALL)`: scanning from the left, an opening tag followed
      somewhere by a closing tag is replaced, up to the first closing tag,
      by the span around the text between them; scanning goes on after the
      closing tag. */
  function FormatArabic(s: string): (r: string)
    decreases |s|
  {
    if s == [] then []
    else if StartsWith(s, ArabicOpen) && Find(s[|ArabicOpen|..], ArabicClose).Some? then
      FindSpec(s[|ArabicOpen|..], ArabicClose);
      var j := Find(s[|ArabicOpen|..], ArabicClose).value;
      SpanOpen + s[|ArabicOpen|..|ArabicOpen| + j] + SpanClose + FormatArabic(s[|ArabicOpen| + j + |ArabicClose|..])
    else [s[0]] + FormatArabic(s[1..])
  }

  /** Dropping the first character keeps a string free of `needle`. */
  lemma ContainsTail(s: string, needle: string)
    requires s != [] && !Contains(s, needle)
    ensures !Contains(s[1..], needle)
  {
    ContainsIff(s, needle);
    ContainsIff(s[1..], needle);
    forall i | OccursAt(s[1..], needle, i) ensures OccursAt(s, needle, i + 1) {
      assert s[i + 1..i + 1 + |needle|] == s[1..][i..i + |needle|];
    }
  }

  /** Text without an opening tag, or without a closing tag, is returned
      unchanged. */
  lemma {:induction false} FormatArabicUnchanged(s: string)
    requires !Contains(s, ArabicOpen) || !Contains(s, ArabicClose)
    ensures FormatArabic(s) == s
    decreases |s|
  {
    if s != [] {
      if StartsWith(s, ArabicOpen) {
        ContainsIff(s, ArabicOpen);
        assert OccursAt(s, ArabicOpen, 0);
        var tail := s[|ArabicOpen|..];
        FindSpec(tail, ArabicClose);
        if Find(tail, ArabicClose).Some? {
          var j := Find(tail, ArabicClose).value;
          assert s[|ArabicOpen| + j..|ArabicOpen| + j + |ArabicClose|] == tail[j..j + |ArabicClose|];
          assert OccursAt(s, ArabicClose, |ArabicOpen| + j);
          ContainsIff(s, ArabicClose);
          assert false;
        }
      }
      if !Contains(s, ArabicOpen) {
        ContainsTail(s, ArabicOpen);
      } else {
        ContainsTail(s, ArabicClose);
      }
      FormatArabicUnchanged(s[1..]);
      assert [s[0]] + s[1..] == s;
    }
  }

  /** At an opening tag with a closing tag after it, the replaced passage
      is the shortest one: it reaches the first closing tag, so the text
      it wraps holds no closing tag. */
  lemma FormatArabicShortest(s: string) returns (j: nat)
    requires StartsWith(s, ArabicOpen) && Contains(s[|ArabicOpen|..], ArabicClose)
    ensures OccursAt(s, ArabicClose, |ArabicOpen| + j)
    ensures !Contains(s[|ArabicOpen|..|ArabicOpen| + j], ArabicClose)
    ensures FormatArabic(s) == SpanOpen + s[|ArabicOpen|..|ArabicOpen| + j] + SpanClose
                               + FormatArabic(s[|ArabicOpen| + j + |ArabicClose|..])
  {
    var tail := s[|ArabicOpen|..];
    FindSpec(tail, ArabicClose);
    j := Find(tail, ArabicClose).value;
    assert s[|ArabicOpen| + j..|ArabicOpen| + j + |ArabicClose|] == tail[j..j + |ArabicClose|];
    FindPrefixFree(tail, ArabicClose);
    assert tail[..j] == s[|ArabicOpen|..|ArabicOpen| + j];
  }

  /** No character of `s` can start a tag. */
  predicate NoTagStart(s: string) {
    forall i :: 0 <= i < |s| ==> s[i] != '<'
  }

  /** A first character other than `<` is kept as it is. */
  lemma FormatFirst(s: string)
    requires s != [] && s[0] != '<'
    ensures FormatArabic(s) == [s[0]] + FormatArabic(s[1..])
  {
    assert ArabicOpen[0] == '<';
  }

  /** Text that holds no `<` is passed through as it is. */
  lemma {:induction false} FormatPlain(a: string, b: string)
    requires NoTagStart(a)
    ensures FormatArabic(a + b) == a + FormatArabic(b)
  {
    if a != [] {
      FormatFirst(a + b);
      assert (a + b)[1..] == a[1..] + b;
      FormatPlain(a[1..], b);
      AppendAssoc([a[0]], a[1..], FormatArabic(b));
      assert [a[0]] + a[1..] == a;
    } else {
      assert a + b == b;
    }
  }

  /** A tagged passage whose text holds no `<` becomes a span around
      that text. */
  lemma FormatTagged(t: string, rest: string)
    requires NoTagStart(t)
    ensures FormatArabic(ArabicOpen + t + ArabicClose + rest) == SpanOpen + t + SpanClose + FormatArabic(rest)
  {
    var tail := t + ArabicClose + rest;
    var s := ArabicOpen + tail;
    Regroup4(ArabicOpen, t, ArabicClose, rest);
    var n := |ArabicOpen|;
    FindPastFree(t, ArabicClose, rest);
    assert s[..n] == ArabicOpen && s[n..] == tail;
    assert s[n..n + |t|] == t && s[n + |t| + |ArabicClose|..] == rest;
  }

  /** What a segment's piece of the page text of `fazail_full_content.json`
      becomes on the website: an Arabic text in a span on its own line,
      any other text followed by a space. */
  function SpanPiece(s: ExtractComplete.Segment): string
  {
    if s.isArabic then "\n" + SpanOpen + s.text + SpanClose + "\n" else s.text + " "
  }

  /** Formatting turns a segment's tagged piece into its website piece. */
  lemma FormatPiece(s: ExtractComplete.Segment, r: string)
    requires NoTagStart(s.text)
    ensures FormatArabic(ExtractComplete.TagPiece(s) + r) == SpanPiece(s) + FormatArabic(r)
  {
    if s.isArabic {
      FormatArabicPiece(s.text, r);
    } else {
      FormatPlain(s.text + " ", r);
    }
  }

  /** The piece of an Arabic segment with text `t`. */
  lemma FormatArabicPiece(t: string, r: string)
    requires NoTagStart(t)
    ensures FormatArabic("\n" + ArabicOpen + t + ArabicClose + "\n" + r)
         == "\n" + SpanOpen + t + SpanClose + "\n" + FormatArabic(r)
  {
    var nl := "\n";
    Regroup(nl, ArabicOpen, t, ArabicClose, nl, r);
    FormatPlain(nl, ArabicOpen + t + ArabicClose + (nl + r));
    FormatTagged(t, nl + r);
    FormatPlain(nl, r);
    Regroup(nl, SpanOpen, t, SpanClose, nl, FormatArabic(r));
  }

  /** Formatting a page's tagged text (before it is stripped) turns
      exactly the Arabic segments into spans, in order, and keeps every
      other text, when no segment text holds a `<`. */
  lemma {:induction false} FormatTaggedText(segs: seq<ExtractComplete.Segment>)
    requires forall i :: 0 <= i < |segs| ==> NoTagStart(segs[i].text)
    ensures FormatArabic(ExtractComplete.TaggedText(segs)) == ConcatMap(segs, SpanPiece)
  {
    if segs != [] {
      ConcatMapFront(segs, ExtractComplete.TagPiece);
      ConcatMapFront(segs, SpanPiece);
      FormatTaggedText(segs[1..]);
      FormatPiece(segs[0], ExtractComplete.TaggedText(segs[1..]));
    }
  }

  // ---------------------------------------------------------------------
  // The preview: re.sub(r'<[^>]+>', '', content)[:200] + "..."
  // ---------------------------------------------------------------------

  /** The number of characters of `s` before the first `c`. */
  function CharsBefore(s: string, c: char): (r: nat)
    ensures r <= |s| && (r < |s| ==> s[r] == c)
    ensures forall i :: 0 <= i < r ==> s[i] != c
  {
    if s == [] || s[0] == c then 0 else 1 + CharsBefore(s[1..], c)
  }

  /** `re.sub(r'<[^>]+>', '', s)`: scanning from the left, a `<` with at
      least one character before the next `>` starts a tag, which is
      removed up to and including that `>`; scanning goes on after it. */
  function StripTags(s: string): (r: string)
    ensures |r| <= |s|
    decreases |s|
  {
    if s == [] then []
    else if s[0] == '<' && 0 < CharsBefore(s[1..], '>') < |s| - 1 then
      StripTags(s[CharsBefore(s[1..], '>') + 2..])
    else [s[0]] + StripTags(s[1..])
  }

  /** No tag is left: every `<` is followed directly by `>` or by no `>`
      at all. */
  predicate NoTags(r: string) {
    forall i :: 0 <= i < |r| ==> NoTagAt(r, i)
  }

  /** Position `i` does not start a tag. */
  predicate NoTagAt(r: string, i: nat)
    requires i < |r|
  {
    r[i] == '<' ==> (i + 1 < |r| && r[i + 1] == '>') || NoCloseAfter(r, i)
  }

  /** No `>` follows position `i`. */
  predicate NoCloseAfter(r: string, i: nat) {
    forall j :: i < j < |r| ==> r[j] != '>'
  }

  /** A character that is not in `s` is not in `StripTags(s)`. */
  lemma {:induction false} StripTagsKeepsOut(s: string, c: char)
    requires forall i :: 0 <= i < |s| ==> s[i] != c
    ensures forall i :: 0 <= i < |StripTags(s)| ==> StripTags(s)[i] != c
    decreases |s|
  {
    if s != [] {
      var k := CharsBefore(s[1..], '>');
      if s[0] == '<' && 0 < k < |s| - 1 {
        StripTagsKeepsOut(s[k + 2..], c);
      } else {
        StripTagsKeepsOut(s[1..], c);
      }
    }
  }

  /** Prepending a character moves every tag-free position one to the
      right. */
  lemma ConsNoTagAt(x: char, t: string, i: nat)
    requires i < |t| && NoTagAt(t, i)
    ensures NoTagAt([x] + t, i + 1)
  {
    var r := [x] + t;
    assert r[i + 1] == t[i];
    if t[i] == '<' && !(i + 1 < |t| && t[i + 1] == '>') {
      forall j | i + 1 < j < |r| ensures r[j] != '>' {
        assert r[j] == t[j - 1];
      }
    }
  }

  /** Prepending a character other than `<` to a tag-free text keeps it
      tag-free. */
  lemma ConsNoTags(x: char, t: string)
    requires x != '<' && NoTags(t)
    ensures NoTags([x] + t)
  {
    forall i | 0 < i < |t| + 1 ensures NoTagAt([x] + t, i) {
      ConsNoTagAt(x, t, i - 1);
    }
  }

  /** Stripping leaves no tag. */
  lemma {:induction false} StripTagsNoTags(s: string)
    ensures NoTags(StripTags(s))
    decreases |s|
  {
    if s != [] {
      var k := CharsBefore(s[1..], '>');
      if s[0] == '<' && 0 < k < |s| - 1 {
        StripTagsNoTags(s[k + 2..]);
      } else {
        var t := StripTags(s[1..]);
        StripTagsNoTags(s[1..]);
        if s[0] != '<' {
          ConsNoTags(s[0], t);
        } else {
          var r := [s[0]] + t;
          if k == 0 && |s| > 1 {
            assert s[1] == '>' && s[1..] == [s[1]] + s[2..];
            assert t == [s[1]] + StripTags(s[2..]);
            assert r[1] == '>';
          } else {
            assert forall i :: 0 <= i < |s[1..]| ==> s[1..][i] != '>';
            StripTagsKeepsOut(s[1..], '>');
            forall j | 0 < j < |r| ensures r[j] != '>' {
              assert r[j] == t[j - 1];
            }
          }
          assert NoTagAt(r, 0);
          forall i | 0 < i < |r| ensures NoTagAt(r, i) {
            ConsNoTagAt(s[0], t, i - 1);
          }
        }
      }
    }
  }

  /** Cutting a tag-free text short keeps it tag-free. */
  lemma TakeNoTags(r: string, n: nat)
    requires NoTags(r)
    ensures NoTags(Take(r, n))
  {
    var t := Take(r, n);
    forall i | 0 <= i < |t| ensures NoTagAt(t, i) {
      assert NoTagAt(r, i) && t[i] == r[i];
      if t[i] == '<' && !(i + 1 < |t| && t[i + 1] == '>') && i + 1 < |t| {
        assert !(r[i + 1] == '>');
        forall j | i < j < |t| ensures t[j] != '>' {
          assert t[j] == r[j];
        }
      }
    }
  }

  /** The website preview of a story's content. */
  function WebPreview(content: string): string
  {
    Take(StripTags(content), 200) + "..."
  }

  /** The preview is at most 203 characters, ends in `...`, and has no tag
      left in it. */
  lemma WebPreviewSpec(content: string)
    ensures var p := WebPreview(content);
      && |p| <= 203 && p[|p| - 3..] == "..." && NoTags(p)
  {
    var t := Take(StripTags(content), 200);
    StripTagsNoTags(content);
    TakeNoTags(StripTags(content), 200);
    var p := t + "...";
    forall i | 0 <= i < |p| ensures NoTagAt(p, i) {
      if i < |t| {
        assert NoTagAt(t, i) && p[i] == t[i];
        if t[i] == '<' && !(i + 1 < |p| && p[i + 1] == '>') {
          forall j | i < j < |p| ensures p[j] != '>' {
            if j < |t| {
              assert p[j] == t[j] && !(i + 1 < |t| && t[i + 1] == '>');
            }
          }
        }
      }
    }
  }

  // ---------------------------------------------------------------------
  // The story loop
  // ---------------------------------------------------------------------

  /** The contents of the pages whose number lies in `[startPage,
      endPage]`, in the order of the dump. */
  function ContentParts(pages: seq<PageContent>, startPage: int, endPage: int): (r: seq<string>)
    ensures |r| <= |pages|
  {
    if pages == [] then []
    else
      var prev := ContentParts(pages[..|pages| - 1], startPage, endPage);
      var p := pages[|pages| - 1];
      if startPage <= p.page <= endPage then prev + [p.content] else prev
  }

  /** `r[k]` is the content of page `idx[k]`, the indices increase and
      cover exactly the pages numbered within `[startPage, endPage]`. */
  predicate PartsAt(pages: seq<PageContent>, r: seq<string>, idx: seq<nat>, startPage: int, endPage: int) {
    && |idx| == |r|
    && (forall k :: 0 <= k < |idx| ==> idx[k] < |pages| && r[k] == pages[idx[k]].content
                                       && startPage <= pages[idx[k]].page <= endPage)
    && (forall k, l :: 0 <= k < l < |idx| ==> idx[k] < idx[l])
    && (forall i :: 0 <= i < |pages| && startPage <= pages[i].page <= endPage ==> i in idx)
  }

  lemma {:induction false} ContentPartsSpec(pages: seq<PageContent>, startPage: int, endPage: int)
    returns (idx: seq<nat>)
    ensures PartsAt(pages, ContentParts(pages, startPage, endPage), idx, startPage, endPage)
  {
    if pages == [] {
      idx := [];
    } else {
      var before := ContentPartsSpec(pages[..|pages| - 1], startPage, endPage);
      idx := PartsAtSnoc(pages, ContentParts(pages[..|pages| - 1], startPage, endPage), before, startPage, endPage);
    }
  }

  /** One more page keeps the parts aligned with their pages. */
  lemma PartsAtSnoc(pages: seq<PageContent>, prev: seq<string>, before: seq<nat>, startPage: int, endPage: int)
    returns (idx: seq<nat>)
    requires pages != [] && PartsAt(pages[..|pages| - 1], prev, before, startPage, endPage)
    ensures var p := pages[|pages| - 1];
      PartsAt(pages, if startPage <= p.page <= endPage then prev + [p.content] else prev, idx, startPage, endPage)
  {
    var p := pages[|pages| - 1];
    if startPage <= p.page <= endPage {
      idx := before + [|pages| - 1];
      PartsAtSnocIn(pages, prev, before, startPage, endPage);
    } else {
      idx := before;
      PartsAtSnocOut(pages, prev, before, startPage, endPage);
    }
  }

  /** An in-range page adds its part, at its own index. */
  lemma PartsAtSnocIn(pages: seq<PageContent>, prev: seq<string>, before: seq<nat>, startPage: int, endPage: int)
    requires pages != [] && PartsAt(pages[..|pages| - 1], prev, before, startPage, endPage)
    requires startPage <= pages[|pages| - 1].page <= endPage
    ensures PartsAt(pages, prev + [pages[|pages| - 1].content], before + [|pages| - 1], startPage, endPage)
  {
    var init, n := pages[..|pages| - 1], |pages| - 1;
    var r, idx := prev + [pages[n].content], before + [n];
    forall k | 0 <= k < |before|
      ensures idx[k] < |pages| && r[k] == pages[idx[k]].content && startPage <= pages[idx[k]].page <= endPage
    {
      assert idx[k] == before[k] && r[k] == prev[k] && pages[before[k]] == init[before[k]];
    }
    forall k, l | 0 <= k < l < |idx| ensures idx[k] < idx[l] {
      assert idx[k] == before[k];
    }
    forall i | 0 <= i < n && startPage <= pages[i].page <= endPage ensures i in idx {
      assert pages[i] == init[i] && i in before;
    }
  }

  /** A page out of range adds nothing. */
  lemma PartsAtSnocOut(pages: seq<PageContent>, prev: seq<string>, before: seq<nat>, startPage: int, endPage: int)
    requires pages != [] && PartsAt(pages[..|pages| - 1], prev, before, startPage, endPage)
    requires !(startPage <= pages[|pages| - 1].page <= endPage)
    ensures PartsAt(pages, prev, before, startPage, endPage)
  {
    var init := pages[..|pages| - 1];
    forall k | 0 <= k < |before|
      ensures before[k] < |pages| && prev[k] == pages[before[k]].content && startPage <= pages[before[k]].page <= endPage
    {
      assert pages[before[k]] == init[before[k]];
    }
    forall i | 0 <= i < |pages| - 1 && startPage <= pages[i].page <= endPage ensures i in before {
      assert pages[i] == init[i];
    }
  }

  /** The story the website shows for a table entry. */
  function ProcessedStory(entry: StoryEntry, pages: seq<PageContent>): Story
  {
    var content := FormatArabic(Join("\n\n", ContentParts(pages, entry.startPage, entry.endPage)));
    Story(entry.id, entry.bookId, entry.chapter, entry.title, WebPreview(content), content)
  }

  /** The inner loop: the contents of the pages in an entry's range. */
  method CollectParts(pages: seq<PageContent>, startPage: int, endPage: int) returns (contentParts: seq<string>)
    ensures contentParts == ContentParts(pages, startPage, endPage)
  {
    contentParts := [];
    for j := 0 to |pages|
      invariant contentParts == ContentParts(pages[..j], startPage, endPage)
    {
      assert pages[..j + 1][..j] == pages[..j];
      if startPage <= pages[j].page <= endPage {
        contentParts := contentParts + [pages[j].content];
      }
    }
    assert pages[..|pages|] == pages;
  }

  /** The module-level loop over `STORIES`: one processed story per entry,
      in table order, keeping the entry's id, book, chapter and title. */
  method ProcessStories(pages: seq<PageContent>) returns (processed: seq<Story>)
    ensures |processed| == |Stories|
    ensures forall i :: 0 <= i < |Stories| ==> processed[i] == ProcessedStory(Stories[i], pages)
    ensures forall i :: 0 <= i < |Stories| ==>
      && processed[i].id == Stories[i].id && processed[i].bookId == Stories[i].bookId
      && processed[i].chapter == Stories[i].chapter && processed[i].title == Stories[i].title
  {
    processed := [];
    for i := 0 to |Stories|
      invariant |processed| == i
      invariant forall k :: 0 <= k < i ==> processed[k] == ProcessedStory(Stories[k], pages)
    {
      var story := Stories[i];
      var contentParts := CollectParts(pages, story.startPage, story.endPage);
      var fullContent := Join("\n\n", contentParts);
      fullContent := FormatArabic(fullContent);
      var preview := Take(StripTags(fullContent), 200) + "...";
      processed := processed + [Story(story.id, story.bookId, story.chapter, story.title, preview, fullContent)];
    }
  }

  // ---------------------------------------------------------------------
  // extract_story
  // ---------------------------------------------------------------------

  /** The page that stops the loop: not skipped as too early, and past the
      end. */
  predicate Breaks(p: PageContent, startPage: int, endPage: int) {
    p.page >= startPage && p.page > endPage
  }

  /** The pages the loop looks at: it skips pages before `startPage` and
      stops at the first page after `endPage`. */
  function Window(pages: seq<PageContent>, startPage: int, endPage: int): seq<PageContent>
  {
    if pages == [] then []
    else if pages[0].page < startPage then Window(pages[1..], startPage, endPage)
    else if pages[0].page > endPage then []
    else [pages[0]] + Window(pages[1..], startPage, endPage)
  }

  /** Before a stopping page, the window of a concatenation is the
      concatenation of the windows. */
  lemma {:induction false} WindowConcat(ps: seq<PageContent>, qs: seq<PageContent>, startPage: int, endPage: int)
    requires forall k :: 0 <= k < |ps| ==> !Breaks(ps[k], startPage, endPage)
    ensures Window(ps + qs, startPage, endPage) == Window(ps, startPage, endPage) + Window(qs, startPage, endPage)
  {
    if ps == [] {
      assert ps + qs == qs;
    } else {
      assert (ps + qs)[1..] == ps[1..] + qs;
      assert !Breaks(ps[0], startPage, endPage);
      WindowConcat(ps[1..], qs, startPage, endPage);
    }
  }

  /** Pages numbered in non-decreasing order. */
  predicate SortedPages(pages: seq<PageContent>) {
    forall i, j :: 0 <= i < j < |pages| ==> pages[i].page <= pages[j].page
  }

  /** For a dump in page order, the window holds exactly the pages of the
      range, the same pages the story loop joins. */
  lemma {:induction false} WindowOfSortedPages(pages: seq<PageContent>, startPage: int, endPage: int)
    requires SortedPages(pages)
    ensures |Window(pages, startPage, endPage)| == |ContentParts(pages, startPage, endPage)|
    ensures forall k :: 0 <= k < |Window(pages, startPage, endPage)| ==>
      Window(pages, startPage, endPage)[k].content == ContentParts(pages, startPage, endPage)[k]
  {
    var w, c := Window(pages, startPage, endPage), ContentParts(pages, startPage, endPage);
    WindowContents(pages, startPage, endPage);
    assert w == InRange(pages, startPage, endPage);
    InRangeContents(pages, startPage, endPage);
  }

  /** The in-range pages, in order (a left fold, to compare with the
      window). */
  function InRange(pages: seq<PageContent>, startPage: int, endPage: int): seq<PageContent>
  {
    if pages == [] then []
    else (if startPage <= pages[0].page <= endPage then [pages[0]] else []) + InRange(pages[1..], startPage, endPage)
  }

  lemma {:induction false} WindowContents(pages: seq<PageContent>, startPage: int, endPage: int)
    requires SortedPages(pages)
    ensures Window(pages, startPage, endPage) == InRange(pages, startPage, endPage)
  {
    if pages != [] {
      WindowContents(pages[1..], startPage, endPage);
      if pages[0].page >= startPage && pages[0].page > endPage {
        InRangeEmpty(pages[1..], startPage, endPage);
      }
    }
  }

  /** No page after a page past the end is in range, for sorted pages. */
  lemma {:induction false} InRangeEmpty(pages: seq<PageContent>, startPage: int, endPage: int)
    requires forall i :: 0 <= i < |pages| ==> pages[i].page > endPage
    ensures InRange(pages, startPage, endPage) == []
  {
    if pages != [] {
      InRangeEmpty(pages[1..], startPage, endPage);
    }
  }

  /** The contents of the in-range pages are the parts the story loop
      collects. */
  lemma {:induction false} InRangeContents(pages: seq<PageContent>, startPage: int, endPage: int)
    ensures |InRange(pages, startPage, endPage)| == |ContentParts(pages, startPage, endPage)|
    ensures forall k :: 0 <= k < |InRange(pages, startPage, endPage)| ==>
      InRange(pages, startPage, endPage)[k].content == ContentParts(pages, startPage, endPage)[k]
  {
    if pages != [] {
      var init, p := pages[..|pages| - 1], pages[|pages| - 1];
      InRangeContents(init, startPage, endPage);
      InRangeSnoc(init, p, startPage, endPage);
      assert init + [p] == pages;
    }
  }

  lemma {:induction false} InRangeSnoc(ps: seq<PageContent>, p: PageContent, startPage: int, endPage: int)
    ensures InRange(ps + [p], startPage, endPage)
            == InRange(ps, startPage, endPage) + (if startPage <= p.page <= endPage then [p] else [])
  {
    if ps == [] {
      assert [p][1..] == [];
    } else {
      assert (ps + [p])[1..] == ps[1..] + [p];
      InRangeSnoc(ps[1..], p, startPage, endPage);
    }
  }

  /** `title[:30].lower()`, the text a page must contain to start the
      story. */
  function TitleKey(title: string): string {
    Lower(Take(title, 30))
  }

  predicate Mentions(p: PageContent, key: string) {
    Contains(Lower(p.content), key)
  }

  /** The pages from the first one that mentions `key` on. */
  function FromFirstMention(ws: seq<PageContent>, key: string): seq<PageContent>
  {
    if ws == [] then []
    else if Mentions(ws[0], key) then ws
    else FromFirstMention(ws[1..], key)
  }

  /** `FromFirstMention` is empty exactly when no page mentions the key,
      and otherwise the suffix that starts at the first page that does. */
  lemma {:induction false} FromFirstMentionSpec(ws: seq<PageContent>, key: string) returns (f: nat)
    ensures f <= |ws| && FromFirstMention(ws, key) == ws[f..]
    ensures forall k :: 0 <= k < f ==> !Mentions(ws[k], key)
    ensures f < |ws| ==> Mentions(ws[f], key)
  {
    if ws == [] {
      f := 0;
    } else if Mentions(ws[0], key) {
      f := 0;
    } else {
      var g := FromFirstMentionSpec(ws[1..], key);
      f := g + 1;
      assert ws[1..][g..] == ws[f..];
      forall k | 0 <= k < f ensures !Mentions(ws[k], key) {
        if k > 0 {
          assert ws[k] == ws[1..][k - 1];
        }
      }
    }
  }

  predicate AnyMention(ws: seq<PageContent>, key: string) {
    exists k :: 0 <= k < |ws| && Mentions(ws[k], key)
  }

  lemma {:induction false} FromFirstMentionSnoc(ws: seq<PageContent>, p: PageContent, key: string)
    ensures FromFirstMention(ws + [p], key)
            == if AnyMention(ws, key) then FromFirstMention(ws, key) + [p]
               else if Mentions(p, key) then [p] else []
  {
    if ws == [] {
      assert [p][1..] == [];
    } else {
      assert (ws + [p])[1..] == ws[1..] + [p];
      assert (ws + [p])[0] == ws[0];
      FromFirstMentionSnoc(ws[1..], p, key);
      if !Mentions(ws[0], key) {
        if AnyMention(ws, key) {
          var k :| 0 <= k < |ws| && Mentions(ws[k], key);
          assert ws[1..][k - 1] == ws[k];
        } else {
          assert !AnyMention(ws[1..], key) by {
            forall k | 0 <= k < |ws[1..]| ensures !Mentions(ws[1..][k], key) {
              assert ws[1..][k] == ws[k + 1];
            }
          }
        }
      }
    }
  }

  /** `content += page_content + "\n\n"` over the given pages. */
  function Concat(ws: seq<PageContent>): string
  {
    if ws == [] then "" else ws[0].content + "\n\n" + Concat(ws[1..])
  }

  lemma {:induction false} ConcatSnoc(ws: seq<PageContent>, p: PageContent)
    ensures Concat(ws + [p]) == Concat(ws) + p.content + "\n\n"
  {
    if ws == [] {
      assert [p][1..] == [];
    } else {
      assert (ws + [p])[1..] == ws[1..] + [p];
      ConcatSnoc(ws[1..], p);
    }
  }

  /** What `extract_story` returns: the pages of the window from the first
      one that mentions the title key on, each followed by a blank line,
      stripped, with the Arabic passages rewritten. */
  function StoryText(title: string, startPage: int, endPage: int, pagesContent: seq<PageContent>): string
  {
    FormatArabic(Strip(Concat(FromFirstMention(Window(pagesContent, startPage, endPage), TitleKey(title)))))
  }

  /** One page of `extract_story`'s loop that does not stop it: a page
      before the range leaves the window as it is, a page in range joins
      it. */
  lemma ExtractStoryStep(pages: seq<PageContent>, i: nat, startPage: int, endPage: int)
    requires i < |pages| && !Breaks(pages[i], startPage, endPage)
    requires forall k :: 0 <= k < i ==> !Breaks(pages[k], startPage, endPage)
    ensures forall k :: 0 <= k < i + 1 ==> !Breaks(pages[k], startPage, endPage)
    ensures pages[i].page < startPage ==>
      Window(pages[..i + 1], startPage, endPage) == Window(pages[..i], startPage, endPage)
    ensures pages[i].page >= startPage ==>
      Window(pages[..i + 1], startPage, endPage) == Window(pages[..i], startPage, endPage) + [pages[i]]
  {
    assert [pages[i]][1..] == [];
    assert Window([pages[i]][1..], startPage, endPage) == [];
    WindowConcat(pages[..i], [pages[i]], startPage, endPage);
    assert pages[..i] + [pages[i]] == pages[..i + 1];
    if pages[i].page < startPage {
      assert Window(pages[..i], startPage, endPage) + [] == Window(pages[..i], startPage, endPage);
    }
  }

  /** Nothing is collected before the first mention. */
  lemma NoMentionNothing(ws: seq<PageContent>, key: string)
    requires !AnyMention(ws, key)
    ensures FromFirstMention(ws, key) == []
  {
    var f := FromFirstMentionSpec(ws, key);
    assert f == |ws|;
  }

  /** One in-range page: the flag and the collected text of the loop track
      the window grown by that page. */
  lemma CollectStep(w: seq<PageContent>, page: PageContent, key: string, collecting: bool, content: string)
    requires collecting == AnyMention(w, key)
    requires content == Concat(FromFirstMention(w, key))
    ensures (collecting || Mentions(page, key)) == AnyMention(w + [page], key)
    ensures (if collecting || Mentions(page, key) then content + page.content + "\n\n" else content)
            == Concat(FromFirstMention(w + [page], key))
  {
    FromFirstMentionSnoc(w, page, key);
    AnyMentionSnoc(w, page, key);
    if collecting {
      ConcatSnoc(FromFirstMention(w, key), page);
    } else {
      NoMentionNothing(w, key);
      if Mentions(page, key) {
        assert [page][1..] == [];
        assert Concat([page]) == page.content + "\n\n" + Concat([]);
      }
    }
  }

  /** `extract_story`. */
  method ExtractStory(title: string, startPage: int, endPage: int, pagesContent: seq<PageContent>)
    returns (result: string)
    ensures result == StoryText(title, startPage, endPage, pagesContent)
  {
    var content := "";
    var collecting := false;
    var key := TitleKey(title);
    var i := 0;
    while i < |pagesContent|
      invariant 0 <= i <= |pagesContent|
      invariant forall k :: 0 <= k < i ==> !Breaks(pagesContent[k], startPage, endPage)
      invariant collecting == AnyMention(Window(pagesContent[..i], startPage, endPage), key)
      invariant content == Concat(FromFirstMention(Window(pagesContent[..i], startPage, endPage), key))
    {
      var page := pagesContent[i];
      if page.page < startPage {
        ExtractStoryStep(pagesContent, i, startPage, endPage);
        i := i + 1;
        continue;
      }
      if page.page > endPage {
        WindowStops(pagesContent, i, startPage, endPage);
        break;
      }
      ExtractStoryStep(pagesContent, i, startPage, endPage);
      CollectStep(Window(pagesContent[..i], startPage, endPage), page, key, collecting, content);
      var pageContent := page.content;
      if Contains(Lower(pageContent), key) {
        collecting := true;
      }
      if collecting {
        content := content + pageContent + "\n\n";
      }
      i := i + 1;
    }
    if i == |pagesContent| {
      assert pagesContent[..i] == pagesContent;
    }
    result := FormatArabic(Strip(content));
  }

  /** The page that stops the loop ends the window. */
  lemma WindowStops(pages: seq<PageContent>, i: nat, startPage: int, endPage: int)
    requires i < |pages| && Breaks(pages[i], startPage, endPage)
    requires forall k :: 0 <= k < i ==> !Breaks(pages[k], startPage, endPage)
    ensures Window(pages[..i], startPage, endPage) == Window(pages, startPage, endPage)
  {
    assert pages[i..][0] == pages[i];
    assert Window(pages[i..], startPage, endPage) == [];
    WindowConcat(pages[..i], pages[i..], startPage, endPage);
    assert pages[..i] + pages[i..] == pages;
    assert Window(pages[..i], startPage, endPage) + [] == Window(pages[..i], startPage, endPage);
  }

  lemma AnyMentionSnoc(ws: seq<PageContent>, p: PageContent, key: string)
    ensures AnyMention(ws + [p], key) <==> AnyMention(ws, key) || Mentions(p, key)
  {
    var v := ws + [p];
    if AnyMention(ws, key) {
      var k :| 0 <= k < |ws| && Mentions(ws[k], key);
      assert v[k] == ws[k];
    }
    if Mentions(p, key) {
      assert v[|ws|] == p;
    }
    if AnyMention(v, key) {
      var k :| 0 <= k < |v| && Mentions(v[k], key);
      if k < |ws| {
        assert v[k] == ws[k];
      }
    }
  }
}

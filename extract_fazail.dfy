/** `extract_fazail.py`: a first pass over the PDF's pages that opens a
    chapter on every page naming one of the known main sections, and the
    500-character preview of the first twenty pages. */
module ExtractFazail {
  import opened Wrappers
  import opened Text

  /** The text of one PDF page, numbered from 1. */
  datatype PageText = PageText(page: int, text: string)

  /** A chapter as `identify_chapters` builds it. */
  datatype FazailChapter = FazailChapter(title: string, startPage: int, content: string, sections: seq<string>)

  /** `main_sections`: the names `identify_chapters` looks for, in the
      order it tries them. The functions below take the list as a
      parameter `names`; `IdentifyChapters` passes this one. */
  const MainSections: seq<string> := [
    "Virtues of Salat",
    "Virtues of Prayer",
    "Fazail-e-Salat",
    "Virtues of Quran",
    "Fazail-e-Quran",
    "Virtues of Dhikr",
    "Virtues of Zikr",
    "Fazail-e-Dhikr",
    "Virtues of Tabligh",
    "Fazail-e-Tabligh",
    "Virtues of Ramadan",
    "Fazail-e-Ramadan",
    "Virtues of Hajj",
    "Fazail-e-Hajj",
    "Virtues of Sadaqat",
    "Virtues of Charity",
    "Fazail-e-Sadaqat",
    "Stories of Sahabah",
    "Hikayat-e-Sahabah"
  ]

  // ---------------------------------------------------------------------
  // Which section a page names
  // ---------------------------------------------------------------------

  /** `section.lower() in text.lower()` for section number `k`. */
  predicate Hit(names: seq<string>, text: string, k: nat)
    requires k < |names|
  {
    Contains(Lower(text), Lower(names[k]))
  }

  /** The first section from number `k` on whose name the page contains. */
  function SectionIndexFrom(names: seq<string>, text: string, k: nat): (r: Option<nat>)
    ensures r.Some? ==> k <= r.value < |names|
    decreases |names| - k
  {
    if k >= |names| then None
    else if Hit(names, text, k) then Some(k)
    else SectionIndexFrom(names, text, k + 1)
  }

  /** The section a page opens, if any. */
  function SectionIndex(names: seq<string>, text: string): (r: Option<nat>)
    ensures r.Some? ==> r.value < |names|
  {
    SectionIndexFrom(names, text, 0)
  }

  lemma {:induction false} SectionIndexFromSpec(names: seq<string>, text: string, k: nat)
    ensures var r := SectionIndexFrom(names, text, k);
      && (r.Some? ==> Hit(names, text, r.value) && forall j :: k <= j < r.value ==> !Hit(names, text, j))
      && (r.None? ==> forall j :: k <= j < |names| ==> !Hit(names, text, j))
    decreases |names| - k
  {
    if k < |names| && !Hit(names, text, k) {
      SectionIndexFromSpec(names, text, k + 1);
    }
  }

  /** A page opens a chapter exactly when it names some section, and the
      title is the first section it names in list order. */
  lemma SectionIndexSpec(names: seq<string>, text: string)
    ensures var r := SectionIndex(names, text);
      && (r.None? <==> forall j :: 0 <= j < |names| ==> !Hit(names, text, j))
      && (r.Some? ==> Hit(names, text, r.value) && forall j :: 0 <= j < r.value ==> !Hit(names, text, j))
  {
    SectionIndexFromSpec(names, text, 0);
  }

  /** The inner loop over `main_sections`, left at the first hit. */
  method FindSection(names: seq<string>, text: string) returns (hit: Option<nat>)
    ensures hit == SectionIndex(names, text)
  {
    hit := None;
    var k := 0;
    while k < |names|
      invariant k <= |names|
      invariant SectionIndexFrom(names, text, k) == SectionIndex(names, text)
    {
      if Contains(Lower(text), Lower(names[k])) {
        hit := Some(k);
        break;
      }
      k := k + 1;
    }
  }

  // ---------------------------------------------------------------------
  // identify_chapters
  // ---------------------------------------------------------------------

  /** The loop's state: the finished chapters and the open one. */
  datatype Progress = Progress(chapters: seq<FazailChapter>, current: Option<FazailChapter>)

  /** One page: a page naming a section closes the open chapter and opens
      a new one whose content is the page's text; then the open chapter,
      if any, gets a newline and the page's text. */
  function Step(names: seq<string>, st: Progress, p: PageText): Progress
  {
    var hit := SectionIndex(names, p.text);
    var st' :=
      if hit.Some? then
        Progress(st.chapters + (if st.current.Some? then [st.current.value] else []),
                 Some(FazailChapter(names[hit.value], p.page, p.text, [])))
      else st;
    st'.(current := Extend(st'.current, p.text))
  }

  /** `current_chapter["content"] += "\n" + text`, when a chapter is
      open. */
  function Extend(current: Option<FazailChapter>, text: string): Option<FazailChapter>
  {
    if current.Some? then Some(current.value.(content := current.value.content + "\n" + text)) else None
  }

  /** The state after the given pages. */
  function Scan(names: seq<string>, pages: seq<PageText>): Progress
  {
    if pages == [] then Progress([], None)
    else Step(names, Scan(names, pages[..|pages| - 1]), pages[|pages| - 1])
  }

  /** What `identify_chapters` returns: the finished chapters and the one
      still open. */
  function Chapters(names: seq<string>, pages: seq<PageText>): seq<FazailChapter>
  {
    var st := Scan(names, pages);
    st.chapters + if st.current.Some? then [st.current.value] else []
  }

  /** `identify_chapters`, with its list `main_sections`. */
  method IdentifyChapters(pages: seq<PageText>) returns (chapters: seq<FazailChapter>)
    ensures chapters == Chapters(MainSections, pages)
  {
    var names := MainSections;
    chapters := [];
    var current: Option<FazailChapter> := None;
    for i := 0 to |pages|
      invariant Scan(names, pages[..i]) == Progress(chapters, current)
    {
      assert pages[..i + 1][..i] == pages[..i];
      var text := pages[i].text;
      var pageNum := pages[i].page;
      var hit := FindSection(names, text);
      if hit.Some? {
        if current.Some? {
          chapters := chapters + [current.value];
        }
        current := Some(FazailChapter(names[hit.value], pageNum, text, []));
      }
      if current.Some? {
        current := Some(current.value.(content := current.value.content + "\n" + text));
      }
    }
    assert pages[..|pages|] == pages;
    if current.Some? {
      chapters := chapters + [current.value];
    }
  }

  // ---------------------------------------------------------------------
  // What the chapters are
  // ---------------------------------------------------------------------

  predicate Opens(names: seq<string>, p: PageText) {
    SectionIndex(names, p.text).Some?
  }

  /** The indices of the pages that open a chapter. */
  function Openings(names: seq<string>, pages: seq<PageText>): seq<nat>
  {
    if pages == [] then []
    else Openings(names, pages[..|pages| - 1]) + if Opens(names, pages[|pages| - 1]) then [|pages| - 1] else []
  }

  /** Indices of opening pages, increasing. */
  predicate ValidOpenings(names: seq<string>, pages: seq<PageText>, o: seq<nat>) {
    && (forall k :: 0 <= k < |o| ==> o[k] < |pages| && Opens(names, pages[o[k]]))
    && (forall k, l :: 0 <= k < l < |o| ==> o[k] < o[l])
  }

  /** `Openings` lists every opening page, and only those, in order. */
  lemma OpeningsSpec(names: seq<string>, pages: seq<PageText>)
    ensures ValidOpenings(names, pages, Openings(names, pages))
    ensures forall i :: 0 <= i < |pages| && Opens(names, pages[i]) ==> i in Openings(names, pages)
  {
    OpeningsMarked(names, pages);
    MarkedSpec(pages, p => Opens(names, p));
  }

  /** `Openings` is `Marked` for `Opens`. */
  lemma {:induction false} OpeningsMarked(names: seq<string>, pages: seq<PageText>)
    ensures Openings(names, pages) == Marked(pages, p => Opens(names, p))
  {
    if pages != [] {
      OpeningsMarked(names, pages[..|pages| - 1]);
    }
  }

  /** `"\n" + text` for each of the pages, in order. */
  function Lines(pages: seq<PageText>): string
  {
    if pages == [] then "" else Lines(pages[..|pages| - 1]) + "\n" + pages[|pages| - 1].text
  }

  /** The chapter opened at page `i` and closed before page `next`: titled
      by the first section page `i` names, starting at its number, holding
      its text twice, separated by a newline, and then a newline and the
      text of each page after it up to `next`, with no sections. */
  function ChapterAt(names: seq<string>, pages: seq<PageText>, i: nat, next: nat): FazailChapter
    requires i < next <= |pages| && Opens(names, pages[i])
  {
    var t := pages[i].text;
    FazailChapter(names[SectionIndex(names, t).value], pages[i].page, t + "\n" + t + Lines(pages[i + 1..next]), [])
  }

  /** The finished chapters: chapter `k` opens at `o[k]` and closes
      before `o[k + 1]`. */
  predicate ChaptersAt(names: seq<string>, pages: seq<PageText>, cs: seq<FazailChapter>, o: seq<nat>) {
    forall k :: 0 <= k < |cs| ==> ClosedAt(names, pages, cs[k], o, k)
  }

  /** Chapter `c` is the `k`-th: it opens at `o[k]` and closes before
      `o[k + 1]`. */
  predicate ClosedAt(names: seq<string>, pages: seq<PageText>, c: FazailChapter, o: seq<nat>, k: nat) {
    k + 1 < |o| && o[k] < o[k + 1] <= |pages| && Opens(names, pages[o[k]])
    && c == ChapterAt(names, pages, o[k], o[k + 1])
  }

  /** The open chapter, if any, opened at the last opening page. */
  predicate CurrentAt(names: seq<string>, pages: seq<PageText>, current: Option<FazailChapter>, o: seq<nat>) {
    current.Some? ==>
      |o| > 0 && o[|o| - 1] < |pages| && Opens(names, pages[o[|o| - 1]])
      && current.value == ChapterAt(names, pages, o[|o| - 1], |pages|)
  }

  /** The state after the pages matches their openings `o`: one chapter
      per opening page, all but the last finished at the next opening
      page, the last still open. */
  predicate Matches(names: seq<string>, pages: seq<PageText>, st: Progress, o: seq<nat>) {
    && (st.current.None? <==> o == [])
    && |st.chapters| == (if o == [] then 0 else |o| - 1)
    && ChaptersAt(names, pages, st.chapters, o)
    && CurrentAt(names, pages, st.current, o)
  }

  /** A chapter closed within a prefix is the same in the whole list. */
  lemma ChapterAtPrefix(names: seq<string>, pages: seq<PageText>, n: nat, i: nat, next: nat)
    requires n <= |pages| && i < next <= n && Opens(names, pages[..n][i])
    ensures pages[..n][i] == pages[i]
    ensures ChapterAt(names, pages[..n], i, next) == ChapterAt(names, pages, i, next)
  {
    assert pages[..n][i + 1..next] == pages[i + 1..next];
  }

  /** The finished chapters of a prefix keep their meaning one page on. */
  lemma ChaptersAtPrefix(names: seq<string>, pages: seq<PageText>, n: nat, cs: seq<FazailChapter>, o: seq<nat>)
    requires n <= |pages| && ChaptersAt(names, pages[..n], cs, o)
    ensures ChaptersAt(names, pages, cs, o)
  {
    forall k | 0 <= k < |cs| ensures ClosedAt(names, pages, cs[k], o, k) {
      assert ClosedAt(names, pages[..n], cs[k], o, k);
      ChapterAtPrefix(names, pages, n, o[k], o[k + 1]);
    }
  }

  /** Closing the open chapter at opening page `n` adds it to the finished
      ones. */
  lemma ChaptersAtClose(names: seq<string>, pages: seq<PageText>, cs: seq<FazailChapter>, o: seq<nat>, c: FazailChapter, n: nat)
    requires ChaptersAt(names, pages, cs, o) && |cs| + 1 == |o|
    requires o[|o| - 1] < n <= |pages| && Opens(names, pages[o[|o| - 1]])
    requires c == ChapterAt(names, pages, o[|o| - 1], n)
    ensures ChaptersAt(names, pages, cs + [c], o + [n])
  {
    var cs', o' := cs + [c], o + [n];
    forall k | 0 <= k < |cs'| ensures ClosedAt(names, pages, cs'[k], o', k) {
      if k < |cs| {
        assert cs'[k] == cs[k] && o'[k] == o[k] && o'[k + 1] == o[k + 1];
      } else {
        assert o'[k] == o[|o| - 1] && o'[k + 1] == n;
      }
    }
  }

  /** An open chapter grows by a newline and the next page's text. */
  lemma ChapterGrows(names: seq<string>, pages: seq<PageText>, i: nat)
    requires i < |pages| - 1 && Opens(names, pages[..|pages| - 1][i])
    ensures pages[..|pages| - 1][i] == pages[i]
    ensures ChapterAt(names, pages, i, |pages|)
      == var c := ChapterAt(names, pages[..|pages| - 1], i, |pages| - 1);
         c.(content := c.content + "\n" + pages[|pages| - 1].text)
  {
    var n := |pages| - 1;
    ChapterAtPrefix(names, pages, n, i, n);
    ChapterAtNext(names, pages, i, n);
  }

  /** Moving a chapter's end one page on adds a newline and that page's
      text. */
  lemma ChapterAtNext(names: seq<string>, pages: seq<PageText>, i: nat, next: nat)
    requires i < next < |pages| && Opens(names, pages[i])
    ensures ChapterAt(names, pages, i, next + 1)
      == ChapterAt(names, pages, i, next).(content := ChapterAt(names, pages, i, next).content + "\n" + pages[next].text)
  {
    var ps := pages[i + 1..next + 1];
    assert ps[..|ps| - 1] == pages[i + 1..next] && ps[|ps| - 1] == pages[next];
    var t, x := pages[i].text, pages[next].text;
    var l := Lines(pages[i + 1..next]);
    assert Lines(ps) == l + "\n" + x;
    AppendAssoc(t + "\n" + t, l + "\n", x);
    AppendAssoc(t + "\n" + t, l, "\n");
  }

  /** The chapter a page opens, as `Step` records it after that page. */
  lemma ChapterOpened(names: seq<string>, pages: seq<PageText>)
    requires pages != [] && Opens(names, pages[|pages| - 1])
    ensures var n := |pages| - 1;
      var p := pages[n];
      ChapterAt(names, pages, n, |pages|)
        == FazailChapter(names[SectionIndex(names, p.text).value], p.page, p.text + "\n" + p.text, [])
  {
    var n := |pages| - 1;
    assert pages[n + 1..n + 1] == [];
    assert pages[n].text + "\n" + pages[n].text + "" == pages[n].text + "\n" + pages[n].text;
  }

  /** A page that opens a chapter. */
  lemma OpenStep(names: seq<string>, pages: seq<PageText>, st: Progress, o: seq<nat>)
    requires pages != [] && Opens(names, pages[|pages| - 1])
    requires Matches(names, pages[..|pages| - 1], st, o)
    ensures Matches(names, pages, Step(names, st, pages[|pages| - 1]), o + [|pages| - 1])
  {
    var n := |pages| - 1;
    var p := pages[n];
    var started := FazailChapter(names[SectionIndex(names, p.text).value], p.page, p.text, []);
    var closed := st.chapters + if st.current.Some? then [st.current.value] else [];
    assert Step(names, st, p) == Progress(closed, Extend(Some(started), p.text));
    ChaptersAtPrefix(names, pages, n, st.chapters, o);
    if st.current.Some? {
      ChapterAtPrefix(names, pages, n, o[|o| - 1], n);
      ChaptersAtClose(names, pages, st.chapters, o, st.current.value, n);
    }
    ChapterOpened(names, pages);
  }

  /** A page that opens nothing. */
  lemma PlainStep(names: seq<string>, pages: seq<PageText>, st: Progress, o: seq<nat>)
    requires pages != [] && !Opens(names, pages[|pages| - 1])
    requires Matches(names, pages[..|pages| - 1], st, o)
    ensures Matches(names, pages, Step(names, st, pages[|pages| - 1]), o)
  {
    ChaptersAtPrefix(names, pages, |pages| - 1, st.chapters, o);
    CurrentGrows(names, pages, st.current, o);
  }

  /** The open chapter keeps its meaning one page on. */
  lemma CurrentGrows(names: seq<string>, pages: seq<PageText>, current: Option<FazailChapter>, o: seq<nat>)
    requires pages != [] && CurrentAt(names, pages[..|pages| - 1], current, o)
    ensures CurrentAt(names, pages, Extend(current, pages[|pages| - 1].text), o)
  {
    if current.Some? {
      ChapterGrows(names, pages, o[|o| - 1]);
    }
  }

  lemma {:induction false} ScanMatches(names: seq<string>, pages: seq<PageText>)
    ensures Matches(names, pages, Scan(names, pages), Openings(names, pages))
  {
    if pages != [] {
      var init := pages[..|pages| - 1];
      ScanMatches(names, init);
      if Opens(names, pages[|pages| - 1]) {
        OpenStep(names, pages, Scan(names, init), Openings(names, init));
      } else {
        PlainStep(names, pages, Scan(names, init), Openings(names, init));
      }
    }
  }

  /** The page index where the `k`-th chapter closes: the next opening
      page, or the end. */
  function NextOpening(pages: seq<PageText>, o: seq<nat>, k: nat): nat
  {
    if k + 1 < |o| then o[k + 1] else |pages|
  }

  /** `cs[k]` is the chapter opened at the `k`-th opening page and closed
      at the next one. */
  predicate ChapterK(names: seq<string>, pages: seq<PageText>, cs: seq<FazailChapter>, o: seq<nat>, k: nat) {
    && k < |cs| && k < |o| && o[k] < NextOpening(pages, o, k) <= |pages| && Opens(names, pages[o[k]])
    && cs[k] == ChapterAt(names, pages, o[k], NextOpening(pages, o, k))
  }

  /** One chapter per opening page, in page order: chapter `k` opens at
      the `k`-th opening page and runs up to the next one (or the end). */
  lemma ChaptersSpec(names: seq<string>, pages: seq<PageText>)
    ensures ValidOpenings(names, pages, Openings(names, pages))
    ensures |Chapters(names, pages)| == |Openings(names, pages)|
    ensures forall k :: 0 <= k < |Openings(names, pages)| ==> ChapterK(names, pages, Chapters(names, pages), Openings(names, pages), k)
  {
    ScanMatches(names, pages);
    OpeningsSpec(names, pages);
    var o, st, cs := Openings(names, pages), Scan(names, pages), Chapters(names, pages);
    forall k | 0 <= k < |o| ensures ChapterK(names, pages, cs, o, k) {
      if k < |st.chapters| {
        assert ClosedAt(names, pages, st.chapters[k], o, k);
        assert cs[k] == st.chapters[k];
      } else {
        assert cs[k] == st.current.value;
      }
    }
  }

  /** Pages before the first opening page belong to no chapter, and the
      number of chapters is the number of opening pages. */
  lemma ChapterCount(names: seq<string>, pages: seq<PageText>)
    ensures |Chapters(names, pages)| == |Openings(names, pages)|
    ensures (forall i :: 0 <= i < |pages| ==> !Opens(names, pages[i])) <==> Chapters(names, pages) == []
  {
    ChaptersSpec(names, pages);
    OpeningsSpec(names, pages);
    var o := Openings(names, pages);
    if o != [] {
      assert Opens(names, pages[o[0]]);
    }
  }

  /** Chapter `k` in terms of its opening page `i` and the next opening
      page (or the end) `next`: titled by the first section page `i`
      names, starting at its number, its content the page's text twice,
      separated by a newline, and then a newline and the text of each page
      up to `next`; no sections. */
  lemma ChapterOf(names: seq<string>, pages: seq<PageText>, k: nat) returns (i: nat, next: nat)
    requires k < |Chapters(names, pages)|
    ensures k < |Openings(names, pages)| && i == Openings(names, pages)[k] && next == NextOpening(pages, Openings(names, pages), k)
    ensures i < next <= |pages| && Opens(names, pages[i])
    ensures var c, t := Chapters(names, pages)[k], pages[i].text;
      && c.title == names[SectionIndex(names, t).value]
      && c.startPage == pages[i].page
      && c.sections == []
      && c.content == t + "\n" + t + Lines(pages[i + 1..next])
  {
    ChapterKOf(names, pages, k);
    var o := Openings(names, pages);
    i, next := o[k], NextOpening(pages, o, k);
  }

  /** Chapter `k` as `ChaptersSpec` gives it, on its own. */
  lemma ChapterKOf(names: seq<string>, pages: seq<PageText>, k: nat)
    requires k < |Chapters(names, pages)|
    ensures k < |Openings(names, pages)| && ChapterK(names, pages, Chapters(names, pages), Openings(names, pages), k)
  {
    ChaptersSpec(names, pages);
  }

  /** The pages after a chapter's opening page, up to the next opening
      page or the end, open no chapter. */
  lemma ChapterPagesPlain(names: seq<string>, pages: seq<PageText>, k: nat, j: nat)
    requires k < |Openings(names, pages)| && Openings(names, pages)[k] < j < NextOpening(pages, Openings(names, pages), k)
    requires j < |pages|
    ensures !Opens(names, pages[j])
  {
    OpeningsSpec(names, pages);
    NoIndexBetween(Openings(names, pages), k, j, NextOpening(pages, Openings(names, pages), k));
  }

  /** Pages numbered in strictly increasing order, as the PDF reader
      produces them. */
  predicate Increasing(pages: seq<PageText>) {
    forall i, j :: 0 <= i < j < |pages| ==> pages[i].page < pages[j].page
  }

  /** For increasing page numbers, the chapters' start pages strictly
      increase. */
  lemma StartPagesIncrease(names: seq<string>, pages: seq<PageText>)
    requires Increasing(pages)
    ensures forall k, l :: 0 <= k < l < |Chapters(names, pages)| ==> Chapters(names, pages)[k].startPage < Chapters(names, pages)[l].startPage
  {
    ChaptersSpec(names, pages);
    forall k, l | 0 <= k < l < |Chapters(names, pages)|
      ensures Chapters(names, pages)[k].startPage < Chapters(names, pages)[l].startPage
    {
      var i, ni := ChapterOf(names, pages, k);
      var j, nj := ChapterOf(names, pages, l);
    }
  }

  // ---------------------------------------------------------------------
  // The structure preview
  // ---------------------------------------------------------------------

  /** One entry of the structure preview. */
  datatype PagePreview = PagePreview(page: int, preview: string)

  /** `text[:500] if len(text) > 500 else text`. */
  function PreviewText(text: string): (r: string)
  {
    if |text| > 500 then text[..500] else text
  }

  /** The preview is the text cut to 500 characters. */
  lemma PreviewTextSpec(text: string)
    ensures var r := PreviewText(text);
      && |r| == (if |text| < 500 then |text| else 500)
      && r == text[..|r|]
      && r == Take(text, 500)
  {
  }

  /** The loop over the first 20 pages. */
  method StructurePreview(pages: seq<PageText>) returns (summary: seq<PagePreview>)
    ensures |summary| == if |pages| < 20 then |pages| else 20
    ensures forall i :: 0 <= i < |summary| ==>
      summary[i] == PagePreview(pages[i].page, Take(pages[i].text, 500))
  {
    summary := [];
    var first := if |pages| < 20 then pages else pages[..20];
    for i := 0 to |first|
      invariant |summary| == i
      invariant forall k :: 0 <= k < i ==> summary[k] == PagePreview(pages[k].page, Take(pages[k].text, 500))
    {
      var page := first[i];
      PreviewTextSpec(page.text);
      summary := summary + [PagePreview(page.page, PreviewText(page.text))];
    }
  }
}

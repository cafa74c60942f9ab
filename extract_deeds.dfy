/** `extract_deeds.py`: the text of the deeds book is cut into lines; a
    line such as `12. Smiling at others` starts a new deed, and the other
    lines after it make up that deed's content. */
module ExtractDeeds {
  import opened Wrappers
  import opened Text
  import opened SiteData

  // ---------------------------------------------------------------------
  // The header pattern ^(\d+)\.\s+(.+)$
  // ---------------------------------------------------------------------

  /** `re.match(r'^(\d+)\.\s+(.+)$', line)` on a line without line breaks:
      one or more digits, a dot, whitespace and at least one more
      character. The whitespace run is taken whole when something follows
      it; when the line ends in it, the pattern gives the last whitespace
      character back to the title. The result is the number the digits
      spell and the title. */
  function MatchHeader(line: string): Option<(nat, string)>
  {
    var d := DigitRun(line);
    if d == 0 || d + 1 >= |line| || line[d] != '.' || !IsSpace(line[d + 1]) then None
    else
      var w := SpaceRun(line[d + 1..]);
      if d + 1 + w < |line| then Some((DigitsValue(line[..d]), line[d + 1 + w..]))
      else if w >= 2 then Some((DigitsValue(line[..d]), line[|line| - 1..]))
      else None
  }

  /** A header is found exactly when the line starts with digits, a dot
      and whitespace, and has at least one more character; the id is the
      value of all the leading digits, however many, and the title is a
      non-empty end of the line. */
  lemma MatchHeaderSpec(line: string)
    ensures var d := DigitRun(line);
      MatchHeader(line).Some? <==> 0 < d && d + 2 < |line| && line[d] == '.' && IsSpace(line[d + 1])
    ensures var r := MatchHeader(line);
      r.Some? ==>
        && r.value.0 == DigitsValue(line[..DigitRun(line)])
        && r.value.1 != []
        && r.value.1 == line[|line| - |r.value.1|..]
  {
    var d := DigitRun(line);
    if 0 < d && d + 2 < |line| && line[d] == '.' && IsSpace(line[d + 1]) {
      var rest := line[d + 1..];
      var w := SpaceRun(rest);
      if d + 1 + w == |line| {
        assert rest[1] == line[d + 2];
        assert w >= 2;
        assert rest[w - 1] == line[|line| - 1];
      }
    }
  }

  /** On a line that does not end in whitespace the title is what follows
      the whole whitespace run, and it starts with no whitespace. */
  lemma MatchHeaderStripped(line: string)
    ensures var r := MatchHeader(line);
      r.Some? && !IsSpace(line[|line| - 1]) ==>
        var d := DigitRun(line);
        && d + 1 + SpaceRun(line[d + 1..]) < |line|
        && r.value.1 == line[d + 1 + SpaceRun(line[d + 1..])..]
        && !IsSpace(r.value.1[0])
  {
    var d, w := MatchHeaderRuns(line);
    if MatchHeader(line).Some? && !IsSpace(line[|line| - 1]) {
      TitleStart(line, d, w);
    }
  }

  /** When a line does not end in whitespace, the whitespace run after
      position `d + 1` stops before the end, at a character that is not
      whitespace. */
  lemma TitleStart(line: string, d: nat, w: nat)
    requires d + 1 < |line| && w == SpaceRun(line[d + 1..]) && !IsSpace(line[|line| - 1])
    ensures d + 1 + w < |line| && !IsSpace(line[d + 1 + w..][0])
  {
    var rest := line[d + 1..];
    assert rest[|rest| - 1] == line[|line| - 1];
    SpaceRunToEnd(rest);
    assert rest[w] == line[d + 1 + w] == line[d + 1 + w..][0];
  }

  /** The digit run `d` and the whitespace run `w` after the dot of a
      header line, and where its title starts. */
  lemma MatchHeaderRuns(line: string) returns (d: nat, w: nat)
    ensures d == DigitRun(line)
    ensures MatchHeader(line).Some? ==>
      && d + 1 < |line| && w == SpaceRun(line[d + 1..]) && d + 1 + w <= |line|
      && MatchHeader(line).value.1 == if d + 1 + w < |line| then line[d + 1 + w..] else line[|line| - 1..]
  {
    d := DigitRun(line);
    w := if d + 1 < |line| then SpaceRun(line[d + 1..]) else 0;
  }

  /** The header a deed list would be written with is read back: the
      line `str(n) + ". " + title`, for a title that starts with no
      whitespace, gives the id `n` and the title. */
  lemma MatchHeaderOfWritten(n: nat, title: string)
    requires title != [] && !IsSpace(title[0])
    ensures MatchHeader(DecimalString(n) + ". " + title) == Some((n, title))
  {
    var ds := DecimalString(n);
    var line := ds + ". " + title;
    DigitRunOfDigits(ds, ". " + title);
    DigitsValueOfDecimalString(n);
    HeaderLineParts(ds, title);
    SpaceThenTitle(title);
  }

  /** The parts of `ds + ". " + title`. */
  lemma HeaderLineParts(ds: string, title: string)
    ensures var line := ds + ". " + title;
      && line == ds + (". " + title)
      && |line| == |ds| + 2 + |title|
      && line[..|ds|] == ds && line[|ds|] == '.' && line[|ds| + 1] == ' '
      && line[|ds| + 1..] == " " + title && line[|ds| + 2..] == title
  {
    var line := ds + ". " + title;
    assert line[|ds| + 1..] == " " + title;
  }

  /** One space before a title that starts with no whitespace is a
      whitespace run of one. */
  lemma SpaceThenTitle(title: string)
    requires title != [] && !IsSpace(title[0])
    ensures SpaceRun(" " + title) == 1
  {
    assert (" " + title)[1..] == title;
  }


  // ---------------------------------------------------------------------
  // parse_deeds
  // ---------------------------------------------------------------------

  /** What a line is to `parse_deeds`: after `line.strip()`, blank, a
      header with its id and title, or any other text. */
  datatype LineKind = Blank | Header(id: nat, title: string) | Plain(s: string)

  /** The stripped line, then the header pattern on it. */
  function Classify(line: string): (k: LineKind)
    ensures k.Blank? <==> Strip(line) == []
    ensures k.Header? <==> Strip(line) != [] && MatchHeader(Strip(line)).Some?
    ensures k.Header? ==> MatchHeader(Strip(line)) == Some((k.id, k.title))
    ensures k.Plain? ==> k.s == Strip(line)
  {
    var s := Strip(line);
    if s == [] then Blank
    else match MatchHeader(s)
      case Some((id, title)) => Header(id, title)
      case None => Plain(s)
  }

  /** Each line classified. */
  function Kinds(lines: seq<string>): (ks: seq<LineKind>)
    ensures |ks| == |lines| && forall i :: 0 <= i < |lines| ==> ks[i] == Classify(lines[i])
  {
    seq(|lines|, i requires 0 <= i < |lines| => Classify(lines[i]))
  }

  /** The loop's state: the finished deeds and the current one, absent
      until the first header. */
  datatype Progress = Progress(deeds: seq<Deed>, current: Option<Deed>)

  /** `current_deed["content"] += line + " "`, when a deed has started. */
  function AddLine(current: Option<Deed>, s: string): Option<Deed>
  {
    if current.Some? then Some(current.value.(content := current.value.content + s + " ")) else None
  }

  /** One line: a blank one is skipped; a header closes the current deed
      and starts a new one with empty content; any other line is added to
      the current deed. */
  function Step(st: Progress, k: LineKind): Progress
  {
    match k
    case Blank => st
    case Header(id, title) =>
      Progress(st.deeds + (if st.current.Some? then [st.current.value] else []), Some(Deed(id, title, "")))
    case Plain(s) => Progress(st.deeds, AddLine(st.current, s))
  }

  /** The state after the given lines. */
  function Scan(ks: seq<LineKind>): Progress
  {
    if ks == [] then Progress([], None)
    else Step(Scan(ks[..|ks| - 1]), ks[|ks| - 1])
  }

  /** The deeds of the lines: the finished ones and the last one. */
  function Deeds(ks: seq<LineKind>): seq<Deed>
  {
    var st := Scan(ks);
    st.deeds + if st.current.Some? then [st.current.value] else []
  }

  /** What `parse_deeds` returns for a text. */
  function ParseDeeds(text: string): seq<Deed>
  {
    Deeds(Kinds(Split(text, "\n")))
  }

  /** `parse_deeds`. */
  method ParseDeedsLoop(text: string) returns (deeds: seq<Deed>)
    ensures deeds == ParseDeeds(text)
  {
    var lines := Split(text, "\n");
    ghost var ks := Kinds(lines);
    deeds := [];
    var current: Option<Deed> := None;
    var i := 0;
    while i < |lines|
      invariant 0 <= i <= |lines|
      invariant Scan(ks[..i]) == Progress(deeds, current)
    {
      ScanNext(ks, i);
      ghost var next := Step(Progress(deeds, current), Classify(lines[i]));
      var line := Strip(lines[i]);
      if line == [] {
        i := i + 1;
        continue;
      }
      var m := MatchHeader(line);
      if m.Some? {
        if current.Some? {
          deeds := deeds + [current.value];
        }
        current := Some(Deed(m.value.0, m.value.1, ""));
      } else {
        if current.Some? {
          current := Some(current.value.(content := current.value.content + line + " "));
        }
      }
      assert Progress(deeds, current) == next;
      i := i + 1;
    }
    assert ks[..|lines|] == ks;
    if current.Some? {
      deeds := deeds + [current.value];
    }
  }

  /** The state one line on. */
  lemma ScanNext(ks: seq<LineKind>, i: nat)
    requires i < |ks|
    ensures Scan(ks[..i + 1]) == Step(Scan(ks[..i]), ks[i])
  {
    assert ks[..i + 1][..i] == ks[..i];
  }

  // ---------------------------------------------------------------------
  // What the deeds are
  // ---------------------------------------------------------------------

  predicate IsHeader(k: LineKind) {
    k.Header?
  }

  /** The indices of the header lines. */
  function Headers(ks: seq<LineKind>): seq<nat>
  {
    if ks == [] then []
    else Headers(ks[..|ks| - 1]) + if ks[|ks| - 1].Header? then [|ks| - 1] else []
  }

  /** Indices of header lines, increasing. */
  predicate ValidHeaders(ks: seq<LineKind>, o: seq<nat>) {
    && (forall k :: 0 <= k < |o| ==> o[k] < |ks| && ks[o[k]].Header?)
    && (forall k, l :: 0 <= k < l < |o| ==> o[k] < o[l])
  }

  /** `Headers` lists every header line, and only those, in order. */
  lemma HeadersSpec(ks: seq<LineKind>)
    ensures ValidHeaders(ks, Headers(ks))
    ensures forall i :: 0 <= i < |ks| && ks[i].Header? ==> i in Headers(ks)
  {
    HeadersMarked(ks);
    MarkedSpec(ks, IsHeader);
  }

  /** `Headers` is `Marked` for `IsHeader`. */
  lemma {:induction false} HeadersMarked(ks: seq<LineKind>)
    ensures Headers(ks) == Marked(ks, IsHeader)
  {
    if ks != [] {
      HeadersMarked(ks[..|ks| - 1]);
    }
  }

  /** Each line that is neither blank nor a header, stripped and followed
      by one space. */
  function Body(ks: seq<LineKind>): string
  {
    if ks == [] then ""
    else Body(ks[..|ks| - 1]) + if ks[|ks| - 1].Plain? then ks[|ks| - 1].s + " " else ""
  }

  /** The deed started by header line `i` and closed before line `next`:
      the header's id and title, and the body of the lines after it up to
      `next`. */
  function DeedAt(ks: seq<LineKind>, i: nat, next: nat): Deed
    requires i < next <= |ks| && ks[i].Header?
  {
    Deed(ks[i].id, ks[i].title, Body(ks[i + 1..next]))
  }

  /** The finished deeds: deed `k` starts at `o[k]` and closes before
      `o[k + 1]`. */
  predicate DeedsAt(ks: seq<LineKind>, ds: seq<Deed>, o: seq<nat>) {
    forall k :: 0 <= k < |ds| ==> ClosedAt(ks, ds[k], o, k)
  }

  /** Deed `d` is the `k`-th: it starts at `o[k]` and closes before
      `o[k + 1]`. */
  predicate ClosedAt(ks: seq<LineKind>, d: Deed, o: seq<nat>, k: nat) {
    k + 1 < |o| && o[k] < o[k + 1] <= |ks| && ks[o[k]].Header?
    && d == DeedAt(ks, o[k], o[k + 1])
  }

  /** The current deed, if any, started at the last header line. */
  predicate CurrentAt(ks: seq<LineKind>, current: Option<Deed>, o: seq<nat>) {
    current.Some? ==>
      |o| > 0 && o[|o| - 1] < |ks| && ks[o[|o| - 1]].Header?
      && current.value == DeedAt(ks, o[|o| - 1], |ks|)
  }

  /** The state after the lines matches their headers `o`. */
  predicate Matches(ks: seq<LineKind>, st: Progress, o: seq<nat>) {
    && (st.current.None? <==> o == [])
    && |st.deeds| == (if o == [] then 0 else |o| - 1)
    && DeedsAt(ks, st.deeds, o)
    && CurrentAt(ks, st.current, o)
  }

  /** A deed closed within a prefix is the same in the whole list. */
  lemma DeedAtPrefix(ks: seq<LineKind>, n: nat, i: nat, next: nat)
    requires n <= |ks| && i < next <= n && ks[..n][i].Header?
    ensures ks[..n][i] == ks[i]
    ensures DeedAt(ks[..n], i, next) == DeedAt(ks, i, next)
  {
    assert ks[..n][i + 1..next] == ks[i + 1..next];
  }

  lemma DeedsAtPrefix(ks: seq<LineKind>, n: nat, ds: seq<Deed>, o: seq<nat>)
    requires n <= |ks| && DeedsAt(ks[..n], ds, o)
    ensures DeedsAt(ks, ds, o)
  {
    forall k | 0 <= k < |ds| ensures ClosedAt(ks, ds[k], o, k) {
      assert ClosedAt(ks[..n], ds[k], o, k);
      DeedAtPrefix(ks, n, o[k], o[k + 1]);
    }
  }

  /** Closing the current deed at header line `n` adds it to the finished
      ones. */
  lemma DeedsAtClose(ks: seq<LineKind>, ds: seq<Deed>, o: seq<nat>, d: Deed, n: nat)
    requires DeedsAt(ks, ds, o) && |ds| + 1 == |o|
    requires o[|o| - 1] < n <= |ks| && ks[o[|o| - 1]].Header?
    requires d == DeedAt(ks, o[|o| - 1], n)
    ensures DeedsAt(ks, ds + [d], o + [n])
  {
    var ds', o' := ds + [d], o + [n];
    forall k | 0 <= k < |ds'| ensures ClosedAt(ks, ds'[k], o', k) {
      if k < |ds| {
        assert ds'[k] == ds[k] && o'[k] == o[k] && o'[k + 1] == o[k + 1];
      } else {
        assert o'[k] == o[|o| - 1] && o'[k + 1] == n;
      }
    }
  }

  /** Moving a deed's end one line on adds that line's body. */
  lemma DeedAtNext(ks: seq<LineKind>, i: nat, next: nat)
    requires i < next < |ks| && ks[i].Header?
    ensures DeedAt(ks, i, next + 1)
      == DeedAt(ks, i, next).(content := DeedAt(ks, i, next).content + if ks[next].Plain? then ks[next].s + " " else "")
  {
    var ls := ks[i + 1..next + 1];
    assert ls[..|ls| - 1] == ks[i + 1..next] && ls[|ls| - 1] == ks[next];
  }

  /** The current deed keeps its meaning one line of text on. */
  lemma CurrentGrows(ks: seq<LineKind>, current: Option<Deed>, o: seq<nat>)
    requires ks != [] && CurrentAt(ks[..|ks| - 1], current, o)
    requires ks[|ks| - 1].Plain?
    ensures CurrentAt(ks, AddLine(current, ks[|ks| - 1].s), o)
  {
    if current.Some? {
      var n := |ks| - 1;
      DeedAtPrefix(ks, n, o[|o| - 1], n);
      DeedAtNext(ks, o[|o| - 1], n);
      AppendAssoc(current.value.content, ks[n].s, " ");
    }
  }

  /** A blank line changes nothing, and the current deed keeps its
      meaning. */
  lemma CurrentSkips(ks: seq<LineKind>, current: Option<Deed>, o: seq<nat>)
    requires ks != [] && CurrentAt(ks[..|ks| - 1], current, o)
    requires ks[|ks| - 1].Blank?
    ensures CurrentAt(ks, current, o)
  {
    if current.Some? {
      var n := |ks| - 1;
      DeedAtPrefix(ks, n, o[|o| - 1], n);
      DeedAtNext(ks, o[|o| - 1], n);
      assert current.value.content + "" == current.value.content;
    }
  }

  /** A header line. */
  lemma HeaderStep(ks: seq<LineKind>, st: Progress, o: seq<nat>)
    requires ks != [] && ks[|ks| - 1].Header?
    requires Matches(ks[..|ks| - 1], st, o)
    ensures Matches(ks, Step(st, ks[|ks| - 1]), o + [|ks| - 1])
  {
    var n := |ks| - 1;
    DeedsAtPrefix(ks, n, st.deeds, o);
    if st.current.Some? {
      DeedAtPrefix(ks, n, o[|o| - 1], n);
      DeedsAtClose(ks, st.deeds, o, st.current.value, n);
    }
    assert ks[n + 1..n + 1] == [];
  }

  /** A line that is no header. */
  lemma PlainStep(ks: seq<LineKind>, st: Progress, o: seq<nat>)
    requires ks != [] && !ks[|ks| - 1].Header?
    requires Matches(ks[..|ks| - 1], st, o)
    ensures Matches(ks, Step(st, ks[|ks| - 1]), o)
  {
    DeedsAtPrefix(ks, |ks| - 1, st.deeds, o);
    if ks[|ks| - 1].Blank? {
      CurrentSkips(ks, st.current, o);
    } else {
      CurrentGrows(ks, st.current, o);
    }
  }

  lemma {:induction false} ScanMatches(ks: seq<LineKind>)
    ensures Matches(ks, Scan(ks), Headers(ks))
  {
    if ks != [] {
      var init := ks[..|ks| - 1];
      ScanMatches(init);
      if ks[|ks| - 1].Header? {
        HeaderStep(ks, Scan(init), Headers(init));
      } else {
        PlainStep(ks, Scan(init), Headers(init));
      }
    }
  }

  /** The line index where the `k`-th deed closes: the next header line,
      or the end. */
  function NextHeader(ks: seq<LineKind>, o: seq<nat>, k: nat): nat
  {
    if k + 1 < |o| then o[k + 1] else |ks|
  }

  /** `ds[k]` is the deed started at the `k`-th header line and closed at
      the next one. */
  predicate DeedK(ks: seq<LineKind>, ds: seq<Deed>, o: seq<nat>, k: nat) {
    && k < |ds| && k < |o| && o[k] < NextHeader(ks, o, k) <= |ks| && ks[o[k]].Header?
    && ds[k] == DeedAt(ks, o[k], NextHeader(ks, o, k))
  }

  /** One deed per header line, in order, the last one included: deed
      `k` starts at the `k`-th header line and runs up to the next one
      (or the end). */
  lemma DeedsSpec(ks: seq<LineKind>)
    ensures ValidHeaders(ks, Headers(ks))
    ensures |Deeds(ks)| == |Headers(ks)|
    ensures forall k :: 0 <= k < |Headers(ks)| ==> DeedK(ks, Deeds(ks), Headers(ks), k)
  {
    ScanMatches(ks);
    HeadersSpec(ks);
    var o, st, ds := Headers(ks), Scan(ks), Deeds(ks);
    forall k | 0 <= k < |o| ensures DeedK(ks, ds, o, k) {
      if k < |st.deeds| {
        assert ClosedAt(ks, st.deeds[k], o, k);
        assert ds[k] == st.deeds[k];
      } else {
        assert ds[k] == st.current.value;
      }
    }
  }

  /** The number of deeds is the number of header lines; with no header
      line there is no deed. */
  lemma DeedCount(ks: seq<LineKind>)
    ensures |Deeds(ks)| == |Headers(ks)|
    ensures (forall i :: 0 <= i < |ks| ==> !ks[i].Header?) <==> Deeds(ks) == []
  {
    DeedsSpec(ks);
    HeadersSpec(ks);
    var o := Headers(ks);
    if o != [] {
      assert ks[o[0]].Header?;
    }
  }

  /** Deed `k` in terms of its header line `i` and the next header line
      (or the end) `next`: id and title from the header, and the content
      each line in between that is neither blank nor a header, stripped
      and followed by one space. Lines before the first header are in no
      deed. */
  lemma DeedOf(ks: seq<LineKind>, k: nat) returns (i: nat, next: nat)
    requires k < |Deeds(ks)|
    ensures k < |Headers(ks)| && i == Headers(ks)[k] && next == NextHeader(ks, Headers(ks), k)
    ensures i < next <= |ks| && ks[i].Header?
    ensures var d := Deeds(ks)[k];
      && d.id == ks[i].id && d.title == ks[i].title
      && d.content == Body(ks[i + 1..next])
  {
    DeedKOf(ks, k);
    var o := Headers(ks);
    i, next := o[k], NextHeader(ks, o, k);
  }

  /** Deed `k` as `DeedsSpec` gives it, on its own. */
  lemma DeedKOf(ks: seq<LineKind>, k: nat)
    requires k < |Deeds(ks)|
    ensures k < |Headers(ks)| && DeedK(ks, Deeds(ks), Headers(ks), k)
  {
    DeedsSpec(ks);
  }

  /** The lines between a deed's header and the next header are no
      headers. */
  lemma DeedLinesPlain(ks: seq<LineKind>, k: nat, j: nat)
    requires k < |Headers(ks)| && Headers(ks)[k] < j < NextHeader(ks, Headers(ks), k)
    requires j < |ks|
    ensures !ks[j].Header?
  {
    HeadersSpec(ks);
    NoIndexBetween(Headers(ks), k, j, NextHeader(ks, Headers(ks), k));
  }
}

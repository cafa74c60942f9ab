/** `generate_placeholders.py`: before the deeds book is processed, a
    placeholder entry is made for each deed listed in the website's
    `data.js`, from the deed's id, title and short description. The deeds
    array is found in the script text, cut into objects at each `},`, and
    each object's fields are picked out with regular expressions. */
module GeneratePlaceholders {
  import opened Wrappers
  import opened Text
  import opened SiteData

  const ArrayOpen: string := "const deeds = ["
  const ArrayClose: string := "];"
  const ObjectEnd: string := "},"
  /** What is appended to each description. */
  const PendingNote: string := "\n\n(Full content will be available once the PDF is processed.)"

  // ---------------------------------------------------------------------
  // The deeds array: const deeds = \[(.*?)\]; with re.DOTALL
  // ---------------------------------------------------------------------

  /** The text between the first `const deeds = [` and the first `];`
      after it, or nothing when either is missing. A later
      `const deeds = [` cannot help: its tail is part of the first one's. */
  function ArrayBody(content: string): Option<string>
  {
    var p := Find(content, ArrayOpen);
    if p.None? then None
    else
      FindSpec(content, ArrayOpen);
      var b := p.value + |ArrayOpen|;
      var q := FindFrom(content, ArrayClose, b);
      if q.None? then None
      else
        FindFromSpec(content, ArrayClose, b);
        Some(content[b..q.value])
  }

  /** The array is found exactly when `const deeds = [` occurs and `];`
      occurs after its first occurrence; the body then starts right after
      the first `const deeds = [` and stops at the first `];` after it. */
  lemma ArrayBodySpec(content: string) returns (p: nat)
    ensures ArrayBody(content).Some? <==>
      Contains(content, ArrayOpen) && FindFrom(content, ArrayClose, Find(content, ArrayOpen).value + |ArrayOpen|).Some?
    ensures ArrayBody(content).Some? ==>
      var body, b := ArrayBody(content).value, p + |ArrayOpen|;
      && OccursAt(content, ArrayOpen, p)
      && (forall j :: 0 <= j < p ==> !OccursAt(content, ArrayOpen, j))
      && b + |body| <= |content| && content[b..b + |body|] == body
      && OccursAt(content, ArrayClose, b + |body|)
      && (forall j :: b <= j < b + |body| ==> !OccursAt(content, ArrayClose, j))
  {
    FindSpec(content, ArrayOpen);
    var f := Find(content, ArrayOpen);
    if f.Some? {
      p := f.value;
      FindFromSpec(content, ArrayClose, p + |ArrayOpen|);
    } else {
      p := 0;
    }
  }

  /** A script that is just the array declaration gives its body back,
      when the body itself holds no `];`. */
  lemma ArrayBodyOfWritten(body: string)
    requires !Contains(body, ArrayClose)
    ensures ArrayBody(ArrayOpen + body + ArrayClose) == Some(body)
  {
    var content := ArrayOpen + body + ArrayClose;
    var b := |ArrayOpen|;
    var x := body + ArrayClose;
    assert content == ArrayOpen + x;
    assert OccursAt(content, ArrayOpen, 0);
    FindSpec(content, ArrayOpen);
    forall j | b <= j < b + |body| ensures !OccursAt(content, ArrayClose, j) {
      CloseNotInBody(body, j - b);
      assert content[j..j + 2] == x[j - b..j - b + 2];
    }
    assert OccursAt(content, ArrayClose, b + |body|);
    FindFromSpec(content, ArrayClose, b);
    assert content[b..b + |body|] == body;
  }

  /** In `body + "];"`, where `body` holds no `];`, no `];` starts
      inside `body`. */
  lemma CloseNotInBody(body: string, j: nat)
    requires !Contains(body, ArrayClose) && j < |body|
    ensures !OccursAt(body + ArrayClose, ArrayClose, j)
  {
    var x := body + ArrayClose;
    ContainsIff(body, ArrayClose);
    if j + 2 <= |body| {
      assert x[j..j + 2] == body[j..j + 2];
      assert !OccursAt(body, ArrayClose, j);
    } else {
      assert x[j + 1] == ']';
    }
  }

  // ---------------------------------------------------------------------
  // The id: id:\s*(\d+)
  // ---------------------------------------------------------------------

  /** `\s*(\d+)` at the start of `s`: whitespace, then the whole run of
      digits after it, read as a number. */
  function NumberValue(s: string): Option<nat>
  {
    var w := SpaceRun(s);
    var digits := s[w..];
    var d := DigitRun(digits);
    if d == 0 then None else Some(DigitsValue(digits[..d]))
  }

  /** The regular expression's reading of `\s*(\d+)` at the start of `s`:
      `w` whitespace characters, then the digits `ds`, which no further
      digit follows. */
  predicate NumberMatch(s: string, w: nat, ds: string) {
    && w + |ds| <= |s| && AllSpace(s[..w])
    && ds != [] && AllDigits(ds) && s[w..w + |ds|] == ds
    && (w + |ds| == |s| || !IsDigit(s[w + |ds|]))
  }

  /** What `NumberValue` reads the pattern matches there, after the whole
      whitespace run, and the number is the value of the digits `ds` the
      pattern captures. */
  lemma NumberValueFound(s: string, n: nat) returns (ds: string)
    requires NumberValue(s) == Some(n)
    ensures NumberMatch(s, SpaceRun(s), ds) && n == DigitsValue(ds)
  {
    var w := SpaceRun(s);
    var digits := s[w..];
    var d := DigitRun(digits);
    ds := digits[..d];
    assert s[w..w + d] == ds;
    if w + d < |s| {
      assert digits[d] == s[w + d];
    }
  }

  /** Where the pattern matches, `NumberValue` reads the value of its
      digits (the whole whitespace run is the only one a digit can
      follow). */
  lemma NumberValueOfMatch(s: string, w: nat, ds: string)
    requires NumberMatch(s, w, ds)
    ensures NumberValue(s) == Some(DigitsValue(ds))
  {
    assert s == s[..w] + s[w..];
    SpaceRunOfSpaces(s[..w], s[w..]);
    var digits := s[w..];
    assert digits == ds + s[w + |ds|..];
    DigitRunOfDigits(ds, s[w + |ds|..]);
    assert digits[..|ds|] == ds;
  }

  /** The pattern `id:\s*(\d+)` tried at index `p`. */
  function IdAt(obj: string, p: nat): Option<nat>
  {
    if !OccursAt(obj, "id:", p) then None else NumberValue(obj[p + 3..])
  }

  /** `re.search(r'id:\s*(\d+)', obj)`, read as a number. */
  function SearchId(obj: string): Option<nat>
  {
    FirstSome(seq(|obj|, p requires 0 <= p < |obj| => IdAt(obj, p)), 0)
  }

  /** The search gives the match at the leftmost index where there is one,
      and nothing when there is none. */
  lemma SearchIdSpec(obj: string) returns (p: nat)
    ensures SearchId(obj).Some? ==>
      p < |obj| && SearchId(obj) == IdAt(obj, p) && forall q :: 0 <= q < p ==> IdAt(obj, q).None?
    ensures SearchId(obj).None? ==> forall q :: IdAt(obj, q).None?
  {
    var ms := seq(|obj|, q requires 0 <= q < |obj| => IdAt(obj, q));
    p := FirstSomeSpec(ms, 0);
    if SearchId(obj).Some? {
      forall q | 0 <= q < p ensures IdAt(obj, q).None? {
        assert ms[q] == IdAt(obj, q);
      }
    } else {
      forall q: nat ensures IdAt(obj, q).None? {
        if q < |obj| {
          assert ms[q] == IdAt(obj, q);
        }
      }
    }
  }

  /** A match with none before it is the one the search gives. */
  lemma SearchIdAt(obj: string, p: nat)
    requires IdAt(obj, p).Some? && forall q :: 0 <= q < p ==> IdAt(obj, q).None?
    ensures SearchId(obj) == IdAt(obj, p)
  {
    var r := SearchIdSpec(obj);
  }

  // ---------------------------------------------------------------------
  // The title and the description: key:\s*"(.*?)"
  // ---------------------------------------------------------------------

  /** Where a lazy `(.*?)"` stops: the first `"`, or, when `.` does not
      match line breaks, the first line break if that comes earlier (and
      then there is no match). */
  function QuoteEnd(s: string, dotall: bool): (j: nat)
    ensures j <= |s|
    ensures forall k :: 0 <= k < j ==> s[k] != '"' && (dotall || s[k] != '\n')
    ensures j < |s| ==> s[j] == '"' || (!dotall && s[j] == '\n')
  {
    if s == [] || s[0] == '"' || (!dotall && s[0] == '\n') then 0 else 1 + QuoteEnd(s[1..], dotall)
  }

  /** No character at which a lazy `(.*?)"` would stop: no `"`, and no
      line break without `re.DOTALL`. */
  predicate NoStop(v: string, dotall: bool) {
    forall k :: 0 <= k < |v| ==> v[k] != '"' && (dotall || v[k] != '\n')
  }

  /** `(.*?)"` at the start of `rest`: the text up to the first `"`. */
  function Closing(rest: string, dotall: bool): Option<string>
  {
    var j := QuoteEnd(rest, dotall);
    if j < |rest| && rest[j] == '"' then Some(rest[..j]) else None
  }

  /** `Closing` captures `v` exactly when `rest` is `v`, a `"` and
      anything, and `v` has no stop character. */
  lemma ClosingSpec(rest: string, dotall: bool, v: string)
    ensures Closing(rest, dotall) == Some(v) <==>
      |v| < |rest| && rest[..|v|] == v && rest[|v|] == '"' && NoStop(v, dotall)
  {
    var j := QuoteEnd(rest, dotall);
    if |v| < |rest| && rest[..|v|] == v && rest[|v|] == '"' && NoStop(v, dotall) {
      assert forall k :: 0 <= k < |v| ==> rest[k] == v[k];
    }
  }

  /** `\s*"(.*?)"` at the start of `s`. */
  function QuotedValue(s: string, dotall: bool): Option<string>
  {
    var w := SpaceRun(s);
    if w == |s| || s[w] != '"' then None else Closing(s[w + 1..], dotall)
  }

  /** The regular expression's reading of `\s*"(.*?)"` at the start of
      `s`: `w` whitespace characters, a `"`, then `v` and a `"`, where `v`
      has no stop character. */
  predicate ValueMatch(s: string, dotall: bool, w: nat, v: string) {
    && w + |v| + 2 <= |s| && AllSpace(s[..w]) && s[w] == '"'
    && s[w + 1..w + 1 + |v|] == v && s[w + 1 + |v|] == '"' && NoStop(v, dotall)
  }

  /** What `QuotedValue` captures the pattern reads there, after the
      whole whitespace run. */
  lemma QuotedValueFound(s: string, dotall: bool, v: string)
    requires QuotedValue(s, dotall) == Some(v)
    ensures ValueMatch(s, dotall, SpaceRun(s), v)
  {
    var w := SpaceRun(s);
    var rest := s[w + 1..];
    ClosingSpec(rest, dotall, v);
    SliceOfSuffix(s, w + 1, |v|);
  }

  /** The first `n` characters after position `i`. */
  lemma SliceOfSuffix(s: string, i: nat, n: nat)
    requires i + n <= |s|
    ensures s[i..][..n] == s[i..i + n]
  {
  }

  /** Where the pattern reads `v`, `QuotedValue` captures it (the whole
      whitespace run is the only one a `"` can follow). */
  lemma QuotedValueOfMatch(s: string, dotall: bool, w: nat, v: string)
    requires ValueMatch(s, dotall, w, v)
    ensures QuotedValue(s, dotall) == Some(v)
  {
    assert s == s[..w] + s[w..];
    SpaceRunOfSpaces(s[..w], s[w..]);
    var rest := s[w + 1..];
    assert rest[..|v|] == v;
    ClosingSpec(rest, dotall, v);
  }

  /** The pattern `key:\s*"(.*?)"` tried at index `p`, with `re.DOTALL`
      when `dotall` holds. */
  function QuotedAt(obj: string, key: string, dotall: bool, p: nat): Option<string>
  {
    if !OccursAt(obj, key + ":", p) then None else QuotedValue(obj[p + |key| + 1..], dotall)
  }

  /** A value found holds no `"`, and no line break without `re.DOTALL`. */
  lemma QuotedAtValue(obj: string, key: string, dotall: bool, p: nat)
    ensures var r := QuotedAt(obj, key, dotall, p);
      r.Some? ==> '"' !in r.value && (!dotall ==> '\n' !in r.value)
  {
    var r := QuotedAt(obj, key, dotall, p);
    if r.Some? {
      QuotedValueFound(obj[p + |key| + 1..], dotall, r.value);
    }
  }

  /** `re.search(key + r':\s*"(.*?)"', obj)`, with `re.DOTALL` when
      `dotall` holds. */
  function SearchQuoted(obj: string, key: string, dotall: bool): Option<string>
  {
    FirstSome(seq(|obj|, p requires 0 <= p < |obj| => QuotedAt(obj, key, dotall, p)), 0)
  }

  /** The search gives the match at the leftmost index where there is one,
      and nothing when there is none. */
  lemma SearchQuotedSpec(obj: string, key: string, dotall: bool) returns (p: nat)
    ensures SearchQuoted(obj, key, dotall).Some? ==>
      p < |obj| && SearchQuoted(obj, key, dotall) == QuotedAt(obj, key, dotall, p)
      && forall q :: 0 <= q < p ==> QuotedAt(obj, key, dotall, q).None?
    ensures SearchQuoted(obj, key, dotall).None? ==> forall q :: QuotedAt(obj, key, dotall, q).None?
  {
    var ms := seq(|obj|, q requires 0 <= q < |obj| => QuotedAt(obj, key, dotall, q));
    p := FirstSomeSpec(ms, 0);
    if SearchQuoted(obj, key, dotall).Some? {
      forall q | 0 <= q < p ensures QuotedAt(obj, key, dotall, q).None? {
        assert ms[q] == QuotedAt(obj, key, dotall, q);
      }
    } else {
      forall q: nat ensures QuotedAt(obj, key, dotall, q).None? {
        if q < |obj| {
          assert ms[q] == QuotedAt(obj, key, dotall, q);
        }
      }
    }
  }

  /** A match at the first occurrence of the key is the one the search
      gives. */
  lemma SearchQuotedAt(obj: string, key: string, dotall: bool, p: nat)
    requires QuotedAt(obj, key, dotall, p).Some?
    requires forall q :: 0 <= q < p ==> !OccursAt(obj, key + ":", q)
    ensures SearchQuoted(obj, key, dotall) == QuotedAt(obj, key, dotall, p)
  {
    var r := SearchQuotedSpec(obj, key, dotall);
  }

  /** A value the search finds holds no `"`, and no line break without
      `re.DOTALL`. */
  lemma SearchQuotedValue(obj: string, key: string, dotall: bool)
    ensures var r := SearchQuoted(obj, key, dotall);
      r.Some? ==> '"' !in r.value && (!dotall ==> '\n' !in r.value)
  {
    var p := SearchQuotedSpec(obj, key, dotall);
    QuotedAtValue(obj, key, dotall, p);
  }

  // ---------------------------------------------------------------------
  // One object
  // ---------------------------------------------------------------------

  /** The deed of one stripped object: all three fields must be found; the
      content is the description followed by the pending note. */
  function PieceDeed(obj: string): Option<Deed>
  {
    var id := SearchId(obj);
    var title := SearchQuoted(obj, "title", false);
    var description := SearchQuoted(obj, "description", true);
    if id.Some? && title.Some? && description.Some? then
      Some(Deed(id.value, title.value, description.value + PendingNote))
    else None
  }

  /** How the website's script writes a deed's fields (up to the closing
      brace, which the split on `},` removes). */
  function ObjectText(n: nat, title: string, description: string): string
  {
    ObjectHead(n) + TitleField(title) + "\"" + DescriptionField(description)
  }

  /** The title field up to its closing quote. */
  function TitleField(title: string): string
  {
    "title: \"" + title
  }

  function DescriptionField(description: string): string
  {
    ", description: \"" + description + "\""
  }

  function ObjectHead(n: nat): string
  {
    "{id: " + DecimalString(n) + ", "
  }

  /** The characters of a written object's head: no `t` and one `d`,
      which a `:` follows. */
  lemma HeadChars(n: nat, rest: string, p: nat)
    requires p < |ObjectHead(n)|
    ensures var obj := ObjectHead(n) + rest;
      obj[p] != 't' && (obj[p] == 'd' ==> p == 2 && obj[3] == ':')
  {
    var ds := DecimalString(n);
    var obj := ObjectHead(n) + rest;
    assert obj == "{id: " + ds + ", " + rest;
    if p < 5 {
      assert obj[p] == "{id: "[p];
    } else if p < 5 + |ds| {
      assert obj[p] == ds[p - 5];
    } else {
      assert obj[p] == ", "[p - 5 - |ds|];
    }
  }

  /** Neither `title:` nor `description:` starts in a written object's
      head. */
  lemma HeadHasNoKey(n: nat, rest: string, p: nat)
    requires p < |ObjectHead(n)|
    ensures !OccursAt(ObjectHead(n) + rest, "title:", p)
    ensures !OccursAt(ObjectHead(n) + rest, "description:", p)
  {
    var obj := ObjectHead(n) + rest;
    HeadChars(n, rest, p);
    if p + 6 <= |obj| {
      assert obj[p..p + 6][0] == obj[p];
    }
    if p + 12 <= |obj| {
      assert obj[p..p + 12][0] == obj[p];
      if obj[p] == 'd' {
        assert obj[p..p + 12][1] == obj[3];
      }
    }
  }

  /** A key with no `"` that does not occur in `x` does not start inside
      `x + "\"" + y` before `y`. */
  lemma KeyNotAcrossQuote(x: string, y: string, key: string, p: nat)
    requires key != [] && '"' !in key && !Contains(x, key) && p <= |x|
    ensures !OccursAt(x + "\"" + y, key, p)
  {
    var s := x + "\"" + y;
    ContainsIff(x, key);
    if p + |key| <= |x| {
      assert s[p..p + |key|] == x[p..p + |key|];
      assert !OccursAt(x, key, p);
    } else {
      assert key[|x| - p] != '"';
      assert s[|x|] == '"';
    }
  }

  /** The id of a written object is read back. */
  lemma IdOfWritten(n: nat, rest: string)
    ensures SearchId(ObjectHead(n) + rest) == Some(n)
  {
    var ds := DecimalString(n);
    var obj := ObjectHead(n) + rest;
    IdKeyAt(n, rest);
    SpacedNumber(ds, ", " + rest);
    NumberValueOfMatch(obj[4..], 1, ds);
    DigitsValueOfDecimalString(n);
    SearchIdAt(obj, 1);
  }

  /** In a written object, `id:` starts at index 1 and not at 0, and the
      number follows it after one space. */
  lemma IdKeyAt(n: nat, rest: string)
    ensures var obj := ObjectHead(n) + rest;
      && OccursAt(obj, "id:", 1) && !OccursAt(obj, "id:", 0)
      && obj[4..] == " " + DecimalString(n) + (", " + rest)
  {
    var obj := ObjectHead(n) + rest;
    assert obj == "{id: " + DecimalString(n) + (", " + rest);
    assert obj[0] == '{';
  }

  /** A space, digits and then a comma: the pattern reads the digits. */
  lemma SpacedNumber(ds: string, tail: string)
    requires ds != [] && AllDigits(ds) && tail != [] && tail[0] == ','
    ensures NumberMatch(" " + ds + tail, 1, ds)
  {
    var s := " " + ds + tail;
    assert s[1 + |ds|] == tail[0];
    assert s[1..1 + |ds|] == ds;
    assert s[..1] == " ";
  }

  /** `title:` does not start in a written object's head. */
  lemma TitleKeyFirst(n: nat, rest: string)
    ensures forall q :: 0 <= q < |ObjectHead(n)| ==> !OccursAt(ObjectHead(n) + rest, "title" + ":", q)
  {
    forall q | 0 <= q < |ObjectHead(n)| ensures !OccursAt(ObjectHead(n) + rest, "title:", q) {
      HeadHasNoKey(n, rest, q);
    }
    assert "title" + ":" == "title:";
  }

  /** The title after a head in which `title:` does not start is read
      back, when it holds no `"` and no line break. */
  lemma TitleOfWritten(head: string, title: string, rest: string)
    requires '"' !in title && '\n' !in title
    requires forall q :: 0 <= q < |head| ==> !OccursAt(head + (TitleField(title) + "\"" + rest), "title" + ":", q)
    ensures SearchQuoted(head + (TitleField(title) + "\"" + rest), "title", false) == Some(title)
  {
    var tail := TitleField(title) + "\"" + rest;
    var obj := head + tail;
    var t := |head|;
    var value := obj[t + 6..];
    assert OccursAt(obj, "title" + ":", t) by {
      assert tail[..6] == "title:" == "title" + ":";
      assert obj[t..t + 6] == tail[..6];
    }
    assert ValueMatch(value, false, 1, title) by {
      assert value == tail[6..] == " \"" + title + "\"" + rest;
    }
    QuotedValueOfMatch(value, false, 1, title);
    SearchQuotedAt(obj, "title", false, t);
  }

  /** `description:` does not occur in a written object before the
      description field, when the title holds none. */
  lemma NoDescriptionKeyBefore(n: nat, title: string)
    requires !Contains(title, "description:")
    ensures !Contains(ObjectHead(n) + TitleField(title), "description:")
  {
    var x := ObjectHead(n) + TitleField(title);
    var t := |ObjectHead(n)|;
    ContainsIff(title, "description:");
    assert x[t..t + 8] == "title: \"";
    forall i: int ensures !OccursAt(x, "description:", i) {
      if 0 <= i < t {
        HeadHasNoKey(n, x[t..], i);
        assert x == ObjectHead(n) + x[t..];
      } else if t <= i < t + 8 {
        TitleKeyNoDescription(x, t, i);
      } else if t + 8 <= i && i + 12 <= |x| {
        assert x[i..i + 12] == title[i - t - 8..i - t - 8 + 12];
        assert !OccursAt(title, "description:", i - t - 8);
      }
    }
    ContainsIff(x, "description:");
  }

  /** `description:` does not start inside a `title: "` at `t`. */
  lemma TitleKeyNoDescription(x: string, t: nat, i: nat)
    requires t <= i < t + 8 <= |x| && x[t..t + 8] == "title: \""
    ensures !OccursAt(x, "description:", i)
  {
    assert x[i] == x[t..t + 8][i - t];
    if i + 12 <= |x| {
      assert x[i..i + 12][0] == x[i];
    }
  }

  /** `description:` does not start before the end of `x + "\", "`,
      when `x` holds none. */
  lemma DescriptionKeyFirst(x: string, y: string)
    requires !Contains(x, "description:") && |y| >= 2 && y[..2] == ", "
    ensures forall q :: 0 <= q < |x| + 3 ==> !OccursAt(x + "\"" + y, "description" + ":", q)
  {
    var obj := x + "\"" + y;
    forall q | 0 <= q < |x| + 3 ensures !OccursAt(obj, "description:", q) {
      if q <= |x| {
        KeyNotAcrossQuote(x, y, "description:", q);
      } else {
        assert obj[q] == y[q - |x| - 1];
        if q + 12 <= |obj| {
          assert obj[q..q + 12][0] == obj[q];
        }
      }
    }
    assert "description" + ":" == "description:";
  }

  /** The description after a text holding no `description:` and a
      closing quote is read back, when it holds no `"`. */
  lemma DescriptionOfWritten(x: string, description: string)
    requires !Contains(x, "description:") && '"' !in description
    ensures SearchQuoted(x + "\"" + DescriptionField(description), "description", true) == Some(description)
  {
    var y := DescriptionField(description);
    var obj := x + "\"" + y;
    var d := |x| + 3;
    DescriptionFieldAt(x, description);
    QuotedValueOfMatch(obj[d + 12..], true, 1, description);
    DescriptionFieldStart(description);
    DescriptionKeyFirst(x, y);
    SearchQuotedAt(obj, "description", true, d);
  }

  /** After `x` and a closing quote, the description field's key starts
      three characters on, and its quoted value follows one space later. */
  lemma DescriptionFieldAt(x: string, description: string)
    requires '"' !in description
    ensures var obj, d := x + "\"" + DescriptionField(description), |x| + 3;
      && OccursAt(obj, "description" + ":", d)
      && ValueMatch(obj[d + 12..], true, 1, description)
  {
    var obj, d := x + "\"" + DescriptionField(description), |x| + 3;
    assert obj[d..d + 12] == "description:" == "description" + ":";
    assert obj[d + 12..] == " \"" + description + "\"";
  }

  /** The description field starts with `, `. */
  lemma DescriptionFieldStart(description: string)
    ensures var y := DescriptionField(description); |y| >= 2 && y[..2] == ", "
  {
    var y := DescriptionField(description);
    assert y[..2] == ", ";
  }

  /** Every field of a written object is read back: its id, its title and
      its description, followed by the pending note. The title holds no
      `"`, no line break and no `description:`, and the description no
      `"`. */
  lemma PieceDeedOfWritten(n: nat, title: string, description: string)
    requires '"' !in title && '\n' !in title && !Contains(title, "description:")
    requires '"' !in description
    ensures PieceDeed(ObjectText(n, title, description)) == Some(Deed(n, title, description + PendingNote))
  {
    var head, field, after := ObjectHead(n), TitleField(title), DescriptionField(description);
    AppendAssoc(head, field, "\"");
    AppendAssoc(head, field + "\"", after);
    IdOfWritten(n, field + "\"" + after);
    TitleKeyFirst(n, field + "\"" + after);
    TitleOfWritten(head, title, after);
    NoDescriptionKeyBefore(n, title);
    DescriptionOfWritten(head + field, description);
  }

  // ---------------------------------------------------------------------
  // parse_data_js
  // ---------------------------------------------------------------------

  /** The found values of `ms`, in order. */
  function Somes<T>(ms: seq<Option<T>>): seq<T>
  {
    if ms == [] then []
    else Somes(ms[..|ms| - 1]) + if ms[|ms| - 1].Some? then [ms[|ms| - 1].value] else []
  }

  /** Value `k` is the one found at `idx[k]`. */
  ghost predicate FoundAt<T>(ms: seq<Option<T>>, r: seq<T>, idx: seq<nat>) {
    && |idx| == |r|
    && (forall k :: 0 <= k < |idx| ==> idx[k] < |ms| && ms[idx[k]] == Some(r[k]))
    && (forall k, l :: 0 <= k < l < |idx| ==> idx[k] < idx[l])
  }

  /** Each value comes from its own index, in index order, and every index
      with a value gives one; so there are never more values than
      indices. */
  lemma {:induction false} SomesOrigins<T>(ms: seq<Option<T>>) returns (idx: seq<nat>)
    ensures FoundAt(ms, Somes(ms), idx)
    ensures forall i :: 0 <= i < |ms| && ms[i].Some? ==> i in idx
    ensures |Somes(ms)| <= |ms|
  {
    if ms != [] {
      var idx0 := SomesOrigins(ms[..|ms| - 1]);
      if ms[|ms| - 1].Some? {
        idx := idx0 + [|ms| - 1];
        SomesOriginsSome(ms, idx0);
      } else {
        idx := idx0;
        SomesOriginsNone(ms, idx0);
      }
    } else {
      idx := [];
    }
  }

  /** A last entry with a value adds that value, from the last index. */
  lemma SomesOriginsSome<T>(ms: seq<Option<T>>, idx0: seq<nat>)
    requires ms != [] && ms[|ms| - 1].Some?
    requires var init := ms[..|ms| - 1];
      FoundAt(init, Somes(init), idx0) && forall i :: 0 <= i < |init| && init[i].Some? ==> i in idx0
    ensures FoundAt(ms, Somes(ms), idx0 + [|ms| - 1])
    ensures forall i :: 0 <= i < |ms| && ms[i].Some? ==> i in idx0 + [|ms| - 1]
  {
    var init := ms[..|ms| - 1];
    assert Somes(ms) == Somes(init) + [ms[|ms| - 1].value];
    forall k | 0 <= k < |idx0| ensures ms[idx0[k]] == init[idx0[k]] { }
    forall i | 0 <= i < |ms| - 1 ensures ms[i] == init[i] { }
  }

  /** A last entry without a value adds nothing. */
  lemma SomesOriginsNone<T>(ms: seq<Option<T>>, idx0: seq<nat>)
    requires ms != [] && ms[|ms| - 1].None?
    requires var init := ms[..|ms| - 1];
      FoundAt(init, Somes(init), idx0) && forall i :: 0 <= i < |init| && init[i].Some? ==> i in idx0
    ensures FoundAt(ms, Somes(ms), idx0)
    ensures forall i :: 0 <= i < |ms| && ms[i].Some? ==> i in idx0
  {
    var init := ms[..|ms| - 1];
    assert Somes(ms) == Somes(init);
    FoundAtLonger(init, ms, Somes(init), idx0);
    forall i | 0 <= i < |ms| && ms[i].Some? ensures i in idx0 {
      assert init[i] == ms[i];
    }
  }

  /** Values found in a prefix are found at the same indices in the
      whole. */
  lemma FoundAtLonger<T>(init: seq<Option<T>>, ms: seq<Option<T>>, r: seq<T>, idx: seq<nat>)
    requires init <= ms && FoundAt(init, r, idx)
    ensures FoundAt(ms, r, idx)
  {
    forall k | 0 <= k < |idx| ensures idx[k] < |ms| && ms[idx[k]] == Some(r[k]) {
      assert init[idx[k]] == Some(r[k]);
    }
  }

  /** What each piece of the array body gives: it is stripped, and gives
      a deed only when all three fields are found. */
  function Outcomes(pieces: seq<string>): (r: seq<Option<Deed>>)
    ensures |r| == |pieces|
  {
    seq(|pieces|, i requires 0 <= i < |pieces| => PieceDeed(Strip(pieces[i])))
  }

  /** What `parse_data_js` returns for the script text. */
  function ParseDataJs(content: string): seq<Deed>
  {
    var body := ArrayBody(content);
    if body.None? then [] else Somes(Outcomes(Split(body.value, ObjectEnd)))
  }

  /** The entries found in the first `i + 1` outcomes: those in the
      first `i`, and then entry `i` when it is found. */
  lemma SomesPrefixStep<T>(ms: seq<Option<T>>, i: nat)
    requires i < |ms|
    ensures Somes(ms[..i + 1]) == Somes(ms[..i]) + if ms[i].Some? then [ms[i].value] else []
  {
    assert ms[..i + 1][..i] == ms[..i];
  }

  /** `parse_data_js`, after the file read. */
  method ParseDataJsLoop(content: string) returns (deeds: seq<Deed>)
    ensures deeds == ParseDataJs(content)
  {
    var body := ArrayBody(content);
    if body.None? {
      return [];
    }
    var objects := Split(body.value, ObjectEnd);
    ghost var outcomes := Outcomes(objects);
    deeds := [];
    for i := 0 to |objects|
      invariant deeds == Somes(outcomes[..i])
    {
      SomesPrefixStep(outcomes, i);
      assert outcomes[i] == PieceDeed(Strip(objects[i]));
      var obj := Strip(objects[i]);
      if obj == [] {
        assert PieceDeed(obj) == None;
        continue;
      }
      var id := SearchId(obj);
      var title := SearchQuoted(obj, "title", false);
      var description := SearchQuoted(obj, "description", true);
      if id.Some? && title.Some? && description.Some? {
        deeds := deeds + [Deed(id.value, title.value, description.value + PendingNote)];
      }
    }
    assert outcomes[..|objects|] == outcomes;
  }

  /** A script without the deeds array gives no placeholders. Otherwise
      placeholder `k` is what piece `idx[k]` of the array body gives, in
      piece order, every piece whose three fields are found gives one, so
      there are at most as many placeholders as pieces; and the pieces
      joined back with `},` are the array body. */
  lemma ParseDataJsSpec(content: string) returns (idx: seq<nat>)
    ensures ArrayBody(content).None? ==> ParseDataJs(content) == []
    ensures ArrayBody(content).Some? ==>
      var pieces := Split(ArrayBody(content).value, ObjectEnd);
      && FoundAt(Outcomes(pieces), ParseDataJs(content), idx)
      && (forall i :: 0 <= i < |pieces| && PieceDeed(Strip(pieces[i])).Some? ==> i in idx)
      && |ParseDataJs(content)| <= |pieces|
      && Join(ObjectEnd, pieces) == ArrayBody(content).value
  {
    idx := [];
    if ArrayBody(content).Some? {
      var pieces := Split(ArrayBody(content).value, ObjectEnd);
      idx := SomesOrigins(Outcomes(pieces));
      JoinSplit(ArrayBody(content).value, ObjectEnd);
    }
  }

  /** What every placeholder holds: a title with no `"` and no line
      break, and content made of a description with no `"` followed by
      the pending note. */
  lemma DeedFields(content: string, k: nat)
    requires k < |ParseDataJs(content)|
    ensures var d := ParseDataJs(content)[k];
      && '"' !in d.title && '\n' !in d.title
      && |d.content| >= |PendingNote| && d.content[|d.content| - |PendingNote|..] == PendingNote
      && '"' !in d.content[..|d.content| - |PendingNote|]
  {
    var idx := ParseDataJsSpec(content);
    var pieces := Split(ArrayBody(content).value, ObjectEnd);
    var obj := Strip(pieces[idx[k]]);
    var d := ParseDataJs(content)[k];
    assert Outcomes(pieces)[idx[k]] == PieceDeed(obj) == Some(d);
    SearchQuotedValue(obj, "title", false);
    SearchQuotedValue(obj, "description", true);
    var desc := SearchQuoted(obj, "description", true).value;
    assert d.content[..|d.content| - |PendingNote|] == desc;
  }
}

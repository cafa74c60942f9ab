/** The string primitives the scripts lean on, with Python's meaning:
    `str.isspace` (which is also what `\s` matches), `str.strip`, slicing
    `s[:n]`, the `in` operator on strings, `str.split(sep)`, `sep.join(...)`,
    `str.replace`, `int(digits)` and an ASCII-only `str.lower`. */
module Text {
  import opened Wrappers

  // ---------------------------------------------------------------------
  // Characters
  // ---------------------------------------------------------------------

  /** The characters for which Python's `str.isspace()` holds; the regular
      expression class `\s` on `str` patterns matches exactly these. */
  predicate IsSpace(c: char) {
    c == ' ' || ('\t' <= c <= '\r') || ('\U{1C}' <= c <= '\U{1F}')
    || c == '\U{85}' || c == '\U{A0}' || c == '\U{1680}'
    || ('\U{2000}' <= c <= '\U{200A}') || c == '\U{2028}' || c == '\U{2029}'
    || c == '\U{202F}' || c == '\U{205F}' || c == '\U{3000}'
  }

  predicate IsDigit(c: char) {
    '0' <= c <= '9'
  }

  predicate AllSpace(s: string) {
    forall i :: 0 <= i < |s| ==> IsSpace(s[i])
  }

  predicate AllDigits(s: string) {
    forall i :: 0 <= i < |s| ==> IsDigit(s[i])
  }

  /** `c.lower()` restricted to ASCII letters. */
  function LowerChar(c: char): (r: char)
    ensures 'A' <= c <= 'Z' ==> r as int == c as int + 32
    ensures !('A' <= c <= 'Z') ==> r == c
  {
    if 'A' <= c <= 'Z' then (c as int + 32) as char else c
  }

  /** `s.lower()`, ASCII letters only: same length, character by character. */
  function Lower(s: string): (r: string)
    ensures |r| == |s|
    ensures forall i :: 0 <= i < |s| ==> r[i] == LowerChar(s[i])
  {
    seq(|s|, i requires 0 <= i < |s| => LowerChar(s[i]))
  }

  // ---------------------------------------------------------------------
  // Numbers
  // ---------------------------------------------------------------------

  /** `int(s)` for a string of ASCII decimal digits. */
  function DigitsValue(s: string): (n: nat)
    requires AllDigits(s)
    ensures |s| == 1 ==> n == s[0] as int - '0' as int
  {
    if s == [] then 0
    else DigitsValue(s[..|s| - 1]) * 10 + (s[|s| - 1] as int - '0' as int)
  }

  /** `str(n)`: the shortest decimal spelling of `n`. */
  function DecimalString(n: nat): (s: string)
    ensures |s| >= 1 && AllDigits(s)
    decreases n
  {
    if n < 10 then [(n + '0' as int) as char]
    else DecimalString(n / 10) + [(n % 10 + '0' as int) as char]
  }

  /** `int(str(n)) == n`. */
  lemma {:induction false} DigitsValueOfDecimalString(n: nat)
    ensures DigitsValue(DecimalString(n)) == n
    decreases n
  {
    var s := DecimalString(n);
    if n >= 10 {
      DigitsValueOfDecimalString(n / 10);
      assert s[..|s| - 1] == DecimalString(n / 10);
    }
  }

  /** The longest prefix of `s` made of ASCII digits (what a greedy `\d+`
      or `\d*` consumes). */
  function DigitRun(s: string): (r: nat)
    ensures r <= |s| && AllDigits(s[..r])
    ensures r < |s| ==> !IsDigit(s[r])
  {
    if s != [] && IsDigit(s[0]) then 1 + DigitRun(s[1..]) else 0
  }

  /** The length of the longest whitespace prefix of `s` (a greedy `\s*`). */
  function SpaceRun(s: string): (r: nat)
    ensures r <= |s| && AllSpace(s[..r])
    ensures r < |s| ==> !IsSpace(s[r])
  {
    if s != [] && IsSpace(s[0]) then 1 + SpaceRun(s[1..]) else 0
  }

  /** A whitespace run that reaches the end ends in whitespace. */
  lemma SpaceRunToEnd(s: string)
    requires s != []
    ensures SpaceRun(s) == |s| ==> IsSpace(s[|s| - 1])
  {
    if SpaceRun(s) == |s| {
      assert s[..|s|][|s| - 1] == s[|s| - 1];
    }
  }

  /** A run of digits followed by a non-digit is the whole digit run. */
  lemma {:induction false} DigitRunOfDigits(a: string, b: string)
    requires AllDigits(a) && (b == [] || !IsDigit(b[0]))
    ensures DigitRun(a + b) == |a|
  {
    if a != [] {
      assert (a + b)[1..] == a[1..] + b;
      DigitRunOfDigits(a[1..], b);
    } else {
      assert a + b == b;
    }
  }

  /** A run of whitespace followed by something else is the whole
      whitespace run. */
  lemma {:induction false} SpaceRunOfSpaces(a: string, b: string)
    requires AllSpace(a) && (b == [] || !IsSpace(b[0]))
    ensures SpaceRun(a + b) == |a|
  {
    if a != [] {
      assert (a + b)[1..] == a[1..] + b;
      SpaceRunOfSpaces(a[1..], b);
    } else {
      assert a + b == b;
    }
  }

  // ---------------------------------------------------------------------
  // strip and slicing
  // ---------------------------------------------------------------------

  function StripLeft(s: string): (r: string)
    ensures |r| <= |s|
  {
    if s != [] && IsSpace(s[0]) then StripLeft(s[1..]) else s
  }

  function StripRight(s: string): (r: string)
    ensures |r| <= |s|
  {
    if s != [] && IsSpace(s[|s| - 1]) then StripRight(s[..|s| - 1]) else s
  }

  /** `s.strip()`: `s` without its leading and trailing whitespace (see
      `StripSpec`). */
  function Strip(s: string): (r: string)
    ensures |r| <= |s|
  {
    StripRight(StripLeft(s))
  }

  lemma {:induction false} StripLeftSpec(s: string)
    ensures var r := StripLeft(s);
      r == s[|s| - |r|..] && AllSpace(s[..|s| - |r|]) && (r != [] ==> !IsSpace(r[0]))
  {
    if s != [] && IsSpace(s[0]) {
      StripLeftSpec(s[1..]);
      var r := StripLeft(s);
      assert s[..|s| - |r|] == [s[0]] + s[1..][..|s| - 1 - |r|];
    }
  }

  lemma {:induction false} StripRightSpec(s: string)
    ensures var r := StripRight(s);
      r == s[..|r|] && AllSpace(s[|r|..]) && (r != [] ==> !IsSpace(r[|r| - 1]))
  {
    if s != [] && IsSpace(s[|s| - 1]) {
      StripRightSpec(s[..|s| - 1]);
      var r := StripRight(s);
      assert s[|r|..] == s[..|s| - 1][|r|..] + [s[|s| - 1]];
    }
  }

  /** What `strip` promises: the result is `s[i..j]` for some `i <= j`,
      everything cut off is whitespace, and the result neither starts nor
      ends with whitespace (so it is empty exactly when `s` is all
      whitespace). */
  lemma StripSpec(s: string)
    ensures var r := Strip(s);
      && (r != [] ==> !IsSpace(r[0]) && !IsSpace(r[|r| - 1]))
      && (r == [] <==> AllSpace(s))
      && exists i :: 0 <= i <= |s| - |r| && r == s[i..i + |r|] && AllSpace(s[..i]) && AllSpace(s[i + |r|..])
  {
    var i := StripSlice(s);
    var r := Strip(s);
    if r == [] {
      assert s == s[..i] + s[i..];
    } else {
      assert r[0] == s[i];
    }
  }

  /** The witness of `StripSpec`: where the stripped text starts in `s`. */
  lemma StripSlice(s: string) returns (i: nat)
    ensures var r := Strip(s);
      && i + |r| <= |s| && r == s[i..i + |r|] && AllSpace(s[..i]) && AllSpace(s[i + |r|..])
      && (r != [] ==> !IsSpace(r[0]) && !IsSpace(r[|r| - 1]))
  {
    StripLeftSpec(s);
    var l := StripLeft(s);
    StripRightSpec(l);
    var r := StripRight(l);
    i := |s| - |l|;
    assert r == s[i..i + |r|];
    assert s[i + |r|..] == l[|r|..];
    if r != [] {
      assert r[0] == l[0];
    }
  }

  /** A string with no whitespace at either end is its own strip. */
  lemma StripOfStripped(s: string)
    requires s == [] || (!IsSpace(s[0]) && !IsSpace(s[|s| - 1]))
    ensures Strip(s) == s
  {
  }

  /** Python's slice `s[a:b]` for non-negative bounds: empty when `a >= b`,
      bounds past the end cut to the length. */
  function Slice(s: string, a: nat, b: nat): (r: string)
    ensures a <= b <= |s| ==> r == s[a..b]
    ensures |r| <= |s|
  {
    if a >= b || a >= |s| then "" else s[a..if b <= |s| then b else |s|]
  }

  /** The concatenation of a list of lists (`"".join(parts)` for strings). */
  function Flatten<T>(parts: seq<seq<T>>): seq<T>
  {
    if parts == [] then [] else parts[0] + Flatten(parts[1..])
  }

  lemma {:induction false} FlattenAppend<T>(a: seq<seq<T>>, b: seq<seq<T>>)
    ensures Flatten(a + b) == Flatten(a) + Flatten(b)
  {
    if a != [] {
      assert (a + b)[1..] == a[1..] + b;
      FlattenAppend(a[1..], b);
    } else {
      assert a + b == b;
    }
  }

  /** The concatenation of `f` of each element, built by appending at the
      end, as a loop with `+=` does. */
  function ConcatMap<T>(xs: seq<T>, f: T -> string): string
  {
    if xs == [] then "" else ConcatMap(xs[..|xs| - 1], f) + f(xs[|xs| - 1])
  }

  /** The concatenation starts with `f` of the first element. */
  lemma {:induction false} ConcatMapFront<T>(xs: seq<T>, f: T -> string)
    requires xs != []
    ensures ConcatMap(xs, f) == f(xs[0]) + ConcatMap(xs[1..], f)
  {
    if |xs| > 1 {
      var init, rest := xs[..|xs| - 1], xs[1..];
      ConcatMapFront(init, f);
      assert init[1..] == rest[..|rest| - 1] && init[0] == xs[0];
      var a, b, c := f(xs[0]), ConcatMap(init[1..], f), f(xs[|xs| - 1]);
      assert ConcatMap(rest, f) == b + c;
      assert ConcatMap(xs, f) == (a + b) + c;
      AppendAssoc(a, b, c);
    } else {
      assert xs[1..] == [] && xs[..0] == [];
    }
  }

  /** `s[:n]`. */
  function Take(s: string, n: nat): (r: string)
    ensures |r| == if n < |s| then n else |s|
    ensures r == s[..|r|]
  {
    if n < |s| then s[..n] else s
  }

  // ---------------------------------------------------------------------
  // Searching
  // ---------------------------------------------------------------------

  predicate StartsWith(s: string, prefix: string) {
    |prefix| <= |s| && s[..|prefix|] == prefix
  }

  /** `needle` occurs in `hay` starting at index `i`. */
  predicate OccursAt(hay: string, needle: string, i: int) {
    0 <= i && i + |needle| <= |hay| && hay[i..i + |needle|] == needle
  }

  /** The first index at or after `from` where `needle` occurs. */
  function FindFrom(hay: string, needle: string, from: nat): Option<nat>
    decreases |hay| - from
  {
    if from + |needle| > |hay| then None
    else if hay[from..from + |needle|] == needle then Some(from)
    else FindFrom(hay, needle, from + 1)
  }

  lemma {:induction false} FindFromSpec(hay: string, needle: string, from: nat)
    ensures var r := FindFrom(hay, needle, from);
      && (r.Some? ==> from <= r.value && OccursAt(hay, needle, r.value))
      && (r.Some? ==> forall j :: from <= j < r.value ==> !OccursAt(hay, needle, j))
      && (r.None? ==> forall j :: from <= j ==> !OccursAt(hay, needle, j))
    decreases |hay| - from
  {
    if from + |needle| <= |hay| && hay[from..from + |needle|] != needle {
      FindFromSpec(hay, needle, from + 1);
    }
  }

  /** `hay.find(needle)` (with `None` for -1): the leftmost occurrence. */
  function Find(hay: string, needle: string): Option<nat>
  {
    FindFrom(hay, needle, 0)
  }

  lemma FindSpec(hay: string, needle: string)
    ensures var r := Find(hay, needle);
      && (r.Some? ==> OccursAt(hay, needle, r.value))
      && (r.Some? ==> forall j :: 0 <= j < r.value ==> !OccursAt(hay, needle, j))
      && (r.None? ==> forall j :: !OccursAt(hay, needle, j))
  {
    FindFromSpec(hay, needle, 0);
  }

  /** Python's `needle in hay`. */
  predicate Contains(hay: string, needle: string) {
    Find(hay, needle).Some?
  }

  lemma ContainsIff(hay: string, needle: string)
    ensures Contains(hay, needle) <==> exists i :: OccursAt(hay, needle, i)
  {
    FindSpec(hay, needle);
  }

  /** The text before the first occurrence of a non-empty needle does
      not hold the needle. */
  lemma FindPrefixFree(hay: string, needle: string)
    requires needle != [] && Find(hay, needle).Some?
    ensures var j := Find(hay, needle).value; j <= |hay| && !Contains(hay[..j], needle)
  {
    FindSpec(hay, needle);
    var j := Find(hay, needle).value;
    var inner := hay[..j];
    ContainsIff(inner, needle);
    forall k | 0 <= k && k + |needle| <= |inner| ensures !OccursAt(inner, needle, k) {
      assert inner[k..k + |needle|] == hay[k..k + |needle|];
      assert !OccursAt(hay, needle, k);
    }
  }

  /** After text that never holds the needle's first character, the
      first occurrence of the needle is the one placed there. */
  lemma FindPastFree(t: string, needle: string, rest: string)
    requires needle != [] && forall i :: 0 <= i < |t| ==> t[i] != needle[0]
    ensures Find(t + needle + rest, needle) == Some(|t|)
  {
    var hay := t + needle + rest;
    FindSpec(hay, needle);
    assert hay[|t|..|t| + |needle|] == needle;
    assert OccursAt(hay, needle, |t|);
    forall j | 0 <= j < |t| ensures !OccursAt(hay, needle, j) {
      assert hay[j] == t[j];
    }
  }

  /** The empty string is in every string (`"" in s` is `True`). */
  lemma ContainsEmpty(hay: string)
    ensures Contains(hay, "")
  {
    assert OccursAt(hay, "", 0);
    ContainsIff(hay, "");
  }

  // ---------------------------------------------------------------------
  // split, join, replace
  // ---------------------------------------------------------------------

  /** `sep.join(parts)`. */
  function Join(sep: string, parts: seq<string>): string
  {
    if |parts| == 0 then ""
    else if |parts| == 1 then parts[0]
    else parts[0] + sep + Join(sep, parts[1..])
  }

  /** `s.split(sep)` for a non-empty separator: the pieces between the
      leftmost non-overlapping occurrences of `sep`. */
  function Split(s: string, sep: string): (r: seq<string>)
    requires sep != []
    ensures |r| >= 1
    decreases |s|
  {
    if |s| < |sep| then [s]
    else if s[..|sep|] == sep then [""] + Split(s[|sep|..], sep)
    else
      var rest := Split(s[1..], sep);
      [[s[0]] + rest[0]] + rest[1..]
  }

  /** Joining the pieces of a split with the separator gives the string
      back: nothing is lost or invented. */
  lemma {:induction false} JoinSplit(s: string, sep: string)
    requires sep != []
    ensures Join(sep, Split(s, sep)) == s
    decreases |s|
  {
    if |s| < |sep| {
    } else if s[..|sep|] == sep {
      JoinSplit(s[|sep|..], sep);
      var rest := Split(s[|sep|..], sep);
      assert Split(s, sep) == [""] + rest;
      assert ([""] + rest)[1..] == rest;
      assert s == s[..|sep|] + s[|sep|..];
    } else {
      JoinSplit(s[1..], sep);
      var rest := Split(s[1..], sep);
      var first := [s[0]] + rest[0];
      var r := [first] + rest[1..];
      assert Split(s, sep) == r;
      if |rest| == 1 {
        assert s == [s[0]] + s[1..];
      } else {
        assert r[1..] == rest[1..];
        assert Join(sep, rest) == rest[0] + sep + Join(sep, rest[1..]);
        assert s == [s[0]] + s[1..];
      }
    }
  }

  /** No piece of a split contains the separator. */
  lemma {:induction false} SplitPiecesAvoidSeparator(s: string, sep: string)
    requires sep != []
    ensures forall k :: 0 <= k < |Split(s, sep)| ==> !Contains(Split(s, sep)[k], sep)
    decreases |s|
  {
    var r := Split(s, sep);
    if |s| < |sep| {
      assert !OccursAt(s, sep, 0) by { NotOccursInShorter(s, sep); }
      NotOccursInShorter(s, sep);
    } else if s[..|sep|] == sep {
      SplitPiecesAvoidSeparator(s[|sep|..], sep);
      var rest := Split(s[|sep|..], sep);
      assert r == [""] + rest;
      forall k | 0 <= k < |r| ensures !Contains(r[k], sep) {
        if k == 0 {
          NotOccursInShorter("", sep);
        } else {
          assert r[k] == rest[k - 1];
        }
      }
    } else {
      SplitPiecesAvoidSeparator(s[1..], sep);
      var rest := Split(s[1..], sep);
      var first := [s[0]] + rest[0];
      assert r == [first] + rest[1..];
      forall k | 0 <= k < |r| ensures !Contains(r[k], sep) {
        if k == 0 {
          FirstPieceIsPrefix(s[1..], sep);
          ConsAvoidsSeparator(s, rest[0], sep);
        } else {
          assert r[k] == rest[k];
        }
      }
    }
  }

  /** Extending a separator-free prefix of `s[1..]` by `s[0]` keeps it
      separator-free when `s` does not start with the separator. */
  lemma ConsAvoidsSeparator(s: string, t: string, sep: string)
    requires sep != [] && |s| >= 1 && !StartsWith(s, sep)
    requires |t| < |s| && t == s[1..][..|t|] && !Contains(t, sep)
    ensures !Contains([s[0]] + t, sep)
  {
    var first := [s[0]] + t;
    assert first == s[..|first|];
    ContainsIff(t, sep);
    ContainsIff(first, sep);
    forall j ensures !OccursAt(first, sep, j) {
      if j == 0 && |sep| <= |first| {
        assert first[..|sep|] == s[..|sep|];
      } else if 0 < j && j + |sep| <= |first| {
        assert first[j..j + |sep|] == t[j - 1..j - 1 + |sep|];
        assert !OccursAt(t, sep, j - 1);
      }
    }
  }

  lemma NotOccursInShorter(s: string, sep: string)
    requires |s| < |sep|
    ensures !Contains(s, sep)
  {
    ContainsIff(s, sep);
  }

  /** The first piece of a split is a prefix of the string. */
  lemma {:induction false} FirstPieceIsPrefix(s: string, sep: string)
    requires sep != []
    ensures |Split(s, sep)[0]| <= |s| && Split(s, sep)[0] == s[..|Split(s, sep)[0]|]
    decreases |s|
  {
    if |s| >= |sep| && s[..|sep|] != sep {
      FirstPieceIsPrefix(s[1..], sep);
    }
  }

  /** `s.replace(c, rep)` for a one-character pattern. */
  function ReplaceChar(s: string, c: char, rep: string): string
  {
    if s == [] then []
    else (if s[0] == c then rep else [s[0]]) + ReplaceChar(s[1..], c, rep)
  }

  /** Without the character there is nothing to replace. */
  lemma {:induction false} ReplaceCharAbsent(s: string, c: char, rep: string)
    requires c !in s
    ensures ReplaceChar(s, c, rep) == s
  {
    if s != [] {
      ReplaceCharAbsent(s[1..], c, rep);
    }
  }

  /** After the replacement the character is left only where the
      replacement itself brings it. */
  lemma {:induction false} ReplaceCharChars(s: string, c: char, rep: string)
    ensures forall d :: d in ReplaceChar(s, c, rep) ==> (d in s && d != c) || d in rep
  {
    if s != [] {
      ReplaceCharChars(s[1..], c, rep);
    }
  }

  // ---------------------------------------------------------------------
  // Sequences
  // ---------------------------------------------------------------------

  lemma AppendAssoc(a: string, b: string, c: string)
    ensures (a + b) + c == a + (b + c)
  {
  }

  lemma Regroup4(a: string, b: string, c: string, d: string)
    ensures a + b + c + d == a + (b + c + d)
  {
  }

  lemma Regroup(a: string, b: string, c: string, d: string, e: string, f: string)
    ensures a + b + c + d + e + f == a + (b + c + d + (e + f))
  {
  }

  /** The indices of the elements of `xs` that `p` holds of, in order. */
  function Marked<T>(xs: seq<T>, p: T -> bool): seq<nat>
  {
    if xs == [] then []
    else Marked(xs[..|xs| - 1], p) + if p(xs[|xs| - 1]) then [|xs| - 1] else []
  }

  /** `Marked` lists every index whose element `p` holds of, only those,
      and in increasing order. */
  lemma {:induction false} MarkedSpec<T>(xs: seq<T>, p: T -> bool)
    ensures forall k :: 0 <= k < |Marked(xs, p)| ==> Marked(xs, p)[k] < |xs| && p(xs[Marked(xs, p)[k]])
    ensures forall k, l :: 0 <= k < l < |Marked(xs, p)| ==> Marked(xs, p)[k] < Marked(xs, p)[l]
    ensures forall i :: 0 <= i < |xs| && p(xs[i]) ==> i in Marked(xs, p)
  {
    if xs != [] {
      var init, n := xs[..|xs| - 1], |xs| - 1;
      MarkedSpec(init, p);
      var o := Marked(init, p);
      forall k | 0 <= k < |o| ensures p(xs[o[k]]) {
        assert xs[o[k]] == init[o[k]];
      }
      forall i | 0 <= i < n && p(xs[i]) ensures i in o {
        assert xs[i] == init[i];
      }
      if p(xs[n]) {
        IncreasingSnoc(o, n);
      }
    }
  }

  /** An increasing list of indices below `n` stays increasing with `n`
      appended. */
  lemma IncreasingSnoc(o: seq<nat>, n: nat)
    requires forall a, b :: 0 <= a < b < |o| ==> o[a] < o[b]
    requires forall a :: 0 <= a < |o| ==> o[a] < n
    ensures forall a, b :: 0 <= a < b < |o + [n]| ==> (o + [n])[a] < (o + [n])[b]
  {
    var o' := o + [n];
    forall a, b | 0 <= a < b < |o'| ensures o'[a] < o'[b] {
      assert o'[a] == o[a];
      if b < |o| {
        assert o'[b] == o[b];
      }
    }
  }

  /** No element of an increasing list of indices lies strictly between
      two neighbours, or after the last one when `next` is the end. */
  lemma NoIndexBetween(o: seq<nat>, k: nat, j: nat, next: nat)
    requires forall a, b :: 0 <= a < b < |o| ==> o[a] < o[b]
    requires k < |o| && o[k] < j < next && (k + 1 < |o| ==> next == o[k + 1])
    ensures j !in o
  {
    forall m | 0 <= m < |o| ensures o[m] != j {
      if m > k + 1 {
        assert o[k + 1] < o[m];
      }
    }
  }
}

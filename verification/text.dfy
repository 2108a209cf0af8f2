/**
 The parts of Python's string semantics that the restart check relies on:
 `str.isspace`, `str.strip()` with no argument, `str.split(sep)` with its
 last field, and the universal-newline translation that text-mode pipes and
 files apply when they are read.
 */
module Text {

  /**
   The characters Python's `str.isspace` accepts, listed one by one: the ASCII
   controls TAB, LF, VT, FF, CR, the separators FS, GS, RS, US, SPACE, and the
   Unicode whitespace NEL, NO-BREAK SPACE, OGHAM SPACE MARK, EN QUAD to HAIR
   SPACE, LINE and PARAGRAPH SEPARATOR, NARROW NO-BREAK SPACE, MEDIUM
   MATHEMATICAL SPACE and IDEOGRAPHIC SPACE.
   */
  const PythonWhitespace: set<char> := {
    '\t', '\n', '\U{0B}', '\U{0C}', '\r',
    '\U{1C}', '\U{1D}', '\U{1E}', '\U{1F}', ' ',
    '\U{85}', '\U{A0}', '\U{1680}',
    '\U{2000}', '\U{2001}', '\U{2002}', '\U{2003}', '\U{2004}', '\U{2005}',
    '\U{2006}', '\U{2007}', '\U{2008}', '\U{2009}', '\U{200A}',
    '\U{2028}', '\U{2029}', '\U{202F}', '\U{205F}', '\U{3000}'
  }

  /** `c.isspace()`: the characters `str.strip()` removes. */
  predicate IsSpace(c: char) {
    c in PythonWhitespace
  }

  /** The same characters as code-point ranges. */
  lemma IsSpaceByCodePoint(c: char)
    ensures IsSpace(c) <==>
      var n := c as int;
      || (0x09 <= n <= 0x0D)
      || (0x1C <= n <= 0x20)
      || n == 0x85
      || n == 0xA0
      || n == 0x1680
      || (0x2000 <= n <= 0x200A)
      || n == 0x2028
      || n == 0x2029
      || n == 0x202F
      || n == 0x205F
      || n == 0x3000
  {
  }

  /** Every character of `s` from index `lo` up to (not including) `hi` is whitespace. */
  predicate SpaceBetween(s: string, lo: int, hi: int) {
    0 <= lo <= hi <= |s| && forall k :: lo <= k < hi ==> IsSpace(s[k])
  }

  /** Neither end of `s` is whitespace. */
  predicate IsStripped(s: string) {
    s == [] || (!IsSpace(s[0]) && !IsSpace(s[|s| - 1]))
  }

  /** `r` is the slice of `s` starting at `i`, and only whitespace lies around it. */
  predicate StripsAt(s: string, r: string, i: int) {
    && 0 <= i <= |s| - |r|
    && s[i..i + |r|] == r
    && SpaceBetween(s, 0, i)
    && SpaceBetween(s, i + |r|, |s|)
    && IsStripped(r)
  }

  /** Reference meaning of `s.strip()`: a whitespace-free-ended slice surrounded by whitespace only. */
  ghost predicate StripsTo(s: string, r: string) {
    exists i :: 0 <= i <= |s| && StripsAt(s, r, i)
  }

  /** Two adjacent whitespace runs form one. */
  lemma SpaceBetweenJoin(s: string, lo: int, mid: int, hi: int)
    requires SpaceBetween(s, lo, mid) && SpaceBetween(s, mid, hi)
    ensures SpaceBetween(s, lo, hi)
  {
  }

  /** The left scan of `strip()`: the first index at or after `i` that is not whitespace, or `|s|`. */
  function SkipSpace(s: string, i: nat): (j: nat)
    requires i <= |s|
    ensures i <= j <= |s|
    ensures SpaceBetween(s, i, j)
    ensures j == |s| || !IsSpace(s[j])
    decreases |s| - i
  {
    if i == |s| || !IsSpace(s[i]) then i
    else
      var j := SkipSpace(s, i + 1);
      assert SpaceBetween(s, i, i + 1);
      SpaceBetweenJoin(s, i, i + 1, j);
      j
  }

  /**
   The right scan of `strip()`: moving down from `j`, but not below `lo`, the
   end of the text once trailing whitespace is dropped.
   */
  function SkipSpaceBack(s: string, lo: nat, j: nat): (k: nat)
    requires lo <= j <= |s|
    ensures lo <= k <= j
    ensures SpaceBetween(s, k, j)
    ensures k == lo || !IsSpace(s[k - 1])
    decreases j
  {
    if j == lo || !IsSpace(s[j - 1]) then j
    else
      var k := SkipSpaceBack(s, lo, j - 1);
      assert SpaceBetween(s, j - 1, j);
      SpaceBetweenJoin(s, k, j - 1, j);
      k
  }

  /** `s.strip()`: scan past leading whitespace, then back over trailing whitespace. */
  function Strip(s: string): (r: string)
    ensures StripsTo(s, r)
  {
    var i := SkipSpace(s, 0);
    var j := SkipSpaceBack(s, i, |s|);
    var r := s[i..j];
    assert r != [] ==> r[0] == s[i] && r[|r| - 1] == s[j - 1];
    assert StripsAt(s, r, i);
    r
  }

  /** The left scan stops exactly at the first non-whitespace character. */
  lemma {:induction false} SkipSpaceAt(s: string, lo: nat, i: nat)
    requires lo <= i <= |s| && SpaceBetween(s, lo, i)
    requires i == |s| || !IsSpace(s[i])
    ensures SkipSpace(s, lo) == i
    decreases i - lo
  {
    if lo < i {
      assert IsSpace(s[lo]);
      SkipSpaceAt(s, lo + 1, i);
    }
  }

  /** The right scan stops exactly after the last non-whitespace character. */
  lemma {:induction false} SkipSpaceBackAt(s: string, lo: nat, k: nat, j: nat)
    requires lo <= k <= j <= |s| && SpaceBetween(s, k, j)
    requires k == lo || !IsSpace(s[k - 1])
    ensures SkipSpaceBack(s, lo, j) == k
    decreases j - k
  {
    if k < j {
      assert IsSpace(s[j - 1]);
      SkipSpaceBackAt(s, lo, k, j - 1);
    }
  }

  /** Any string meeting the reference meaning of stripping is what `Strip` returns. */
  lemma StripsAtIsStrip(s: string, r: string, i: int)
    requires StripsAt(s, r, i)
    ensures r == Strip(s)
  {
    if r == [] {
      SpaceBetweenJoin(s, 0, i, |s|);
      SkipSpaceAt(s, 0, |s|);
      SkipSpaceBackAt(s, |s|, |s|, |s|);
    } else {
      var j := i + |r|;
      assert s[i] == s[i..j][0] && s[j - 1] == s[i..j][|r| - 1];
      SkipSpaceAt(s, 0, i);
      SkipSpaceBackAt(s, i, j, |s|);
    }
  }

  /** The reference meaning of stripping admits exactly one result, so `Strip` is it. */
  lemma StripsToIsUnique(s: string, r1: string, r2: string)
    requires StripsTo(s, r1) && StripsTo(s, r2)
    ensures r1 == r2
  {
    var i1 :| 0 <= i1 <= |s| && StripsAt(s, r1, i1);
    var i2 :| 0 <= i2 <= |s| && StripsAt(s, r2, i2);
    StripsAtIsStrip(s, r1, i1);
    StripsAtIsStrip(s, r2, i2);
  }

  /** Stripping a string that is already stripped gives it back. */
  lemma StripFixpoint(s: string)
    requires IsStripped(s)
    ensures Strip(s) == s
  {
    assert s[0..|s|] == s;
    assert StripsAt(s, s, 0);
    StripsAtIsStrip(s, s, 0);
  }

  /** `Strip` is idempotent, and its result is always stripped. */
  lemma StripIdempotent(s: string)
    ensures IsStripped(Strip(s))
    ensures Strip(Strip(s)) == Strip(s)
  {
    var i :| 0 <= i <= |s| && StripsAt(s, Strip(s), i);
    StripFixpoint(Strip(s));
  }

  /** Stripping only removes characters: nothing absent from `s` appears in its strip. */
  lemma StripAddsNothing(s: string, c: char)
    requires c !in s
    ensures c !in Strip(s)
  {
    var r := Strip(s);
    var i :| 0 <= i <= |s| && StripsAt(s, r, i);
    forall k | 0 <= k < |r|
      ensures r[k] != c
    {
      assert r[k] == s[i..i + |r|][k] == s[i + k];
    }
  }

  /** `sep.join(fields)` */
  function Join(fields: seq<string>, sep: char): string
    requires |fields| >= 1
  {
    if |fields| == 1 then fields[0] else fields[0] + [sep] + Join(fields[1..], sep)
  }

  /** Joining after a new separator-free first field. */
  lemma JoinConsField(sep: char, rest: seq<string>)
    requires |rest| >= 1
    ensures Join([[]] + rest, sep) == [sep] + Join(rest, sep)
  {
    assert ([[]] + rest)[1..] == rest;
  }

  /** Joining after extending the first field by one character. */
  lemma JoinConsChar(c: char, sep: char, rest: seq<string>)
    requires |rest| >= 1
    ensures Join([[c] + rest[0]] + rest[1..], sep) == [c] + Join(rest, sep)
  {
    var fields := [[c] + rest[0]] + rest[1..];
    assert fields[1..] == rest[1..];
    if |rest| > 1 {
      assert Join(fields, sep) == [c] + rest[0] + [sep] + Join(rest[1..], sep);
      assert [c] + rest[0] + [sep] + Join(rest[1..], sep) == [c] + (rest[0] + [sep] + Join(rest[1..], sep));
    }
  }

  /** `s.split(sep)` for a one-character separator: never empty, and joining the fields gives `s` back. */
  function Split(s: string, sep: char): (fields: seq<string>)
    ensures |fields| >= 1
    ensures forall k :: 0 <= k < |fields| ==> sep !in fields[k]
    ensures Join(fields, sep) == s
  {
    if s == [] then [[]]
    else
      var rest := Split(s[1..], sep);
      assert s == [s[0]] + s[1..];
      if s[0] == sep then
        JoinConsField(sep, rest);
        [[]] + rest
      else
        JoinConsChar(s[0], sep, rest);
        var fields := [[s[0]] + rest[0]] + rest[1..];
        assert forall k :: 1 <= k < |fields| ==> fields[k] == rest[k];
        fields
  }

  /** `s.split(sep)[-1]`: the text after the last separator. */
  function LastField(s: string, sep: char): (r: string)
    ensures r == AfterLast(s, sep)
  {
    var fields := Split(s, sep);
    var last := fields[|fields| - 1];
    LastFieldIsAfterLast(s, sep);
    assert last == AfterLast(s, sep);
    last
  }

  /** `r` is the text after the last `sep` in `s`, or all of `s` when there is none. */
  predicate IsAfterLast(s: string, sep: char, r: string) {
    && |r| <= |s|
    && r == s[|s| - |r|..]
    && sep !in r
    && (|r| == |s| || s[|s| - |r| - 1] == sep)
  }

  /** Independent definition of the last field, scanning from the end of `s`. */
  function AfterLast(s: string, sep: char): (r: string)
    ensures IsAfterLast(s, sep, r)
  {
    if s == [] || s[|s| - 1] == sep then []
    else
      var r := AfterLast(s[..|s| - 1], sep);
      assert s == s[..|s| - 1] + [s[|s| - 1]];
      r + [s[|s| - 1]]
  }

  lemma IsAfterLastIsUnique(s: string, sep: char, r1: string, r2: string)
    requires IsAfterLast(s, sep, r1) && IsAfterLast(s, sep, r2)
    ensures r1 == r2
  {
  }

  lemma {:induction false} JoinSnoc(fields: seq<string>, sep: char)
    requires |fields| >= 2
    ensures Join(fields, sep) == Join(fields[..|fields| - 1], sep) + [sep] + fields[|fields| - 1]
  {
    if |fields| > 2 {
      JoinSnoc(fields[1..], sep);
      assert fields[1..][..|fields| - 2] == fields[..|fields| - 1][1..];
    }
  }

  /** A separator-free tail that follows a separator is the text after the last separator. */
  lemma AfterSeparator(s: string, prefix: string, sep: char, last: string)
    requires s == prefix + [sep] + last && sep !in last
    ensures IsAfterLast(s, sep, last)
  {
    assert s[|s| - |last|..] == last;
    assert s[|s| - |last| - 1] == sep;
  }

  /** The last of any fields, once joined, is the text after the last separator. */
  lemma JoinedLastIsAfterLast(fields: seq<string>, sep: char)
    requires |fields| >= 1 && sep !in fields[|fields| - 1]
    ensures IsAfterLast(Join(fields, sep), sep, fields[|fields| - 1])
  {
    if |fields| >= 2 {
      JoinSnoc(fields, sep);
      AfterSeparator(Join(fields, sep), Join(fields[..|fields| - 1], sep), sep, fields[|fields| - 1]);
    }
  }

  /** The last field of Python's split is the text after the last separator. */
  lemma {:induction false} LastFieldIsAfterLast(s: string, sep: char)
    ensures Split(s, sep)[|Split(s, sep)| - 1] == AfterLast(s, sep)
  {
    var fields := Split(s, sep);
    JoinedLastIsAfterLast(fields, sep);
    IsAfterLastIsUnique(s, sep, fields[|fields| - 1], AfterLast(s, sep));
  }

  /**
   Universal-newline translation applied when text is read from a text-mode
   pipe or file: "\r\n" and a lone "\r" both become "\n".
   */
  function TranslateNewlines(s: string): (r: string)
    ensures '\r' !in r
    ensures '\r' !in s ==> r == s
    ensures |r| <= |s|
  {
    if s == [] then []
    else if s[0] == '\r' then
      if |s| >= 2 && s[1] == '\n' then "\n" + TranslateNewlines(s[2..])
      else "\n" + TranslateNewlines(s[1..])
    else
      assert s == [s[0]] + s[1..];
      [s[0]] + TranslateNewlines(s[1..])
  }

  /**
   `s.replace(target, replacement)`: every occurrence of `target`, found left
   to right without overlap, replaced by `replacement`.
   */
  function Replace(s: string, target: string, replacement: string): string
    requires |target| >= 1
  {
    if s == [] then []
    else if |target| <= |s| && s[..|target|] == target then replacement + Replace(s[|target|..], target, replacement)
    else [s[0]] + Replace(s[1..], target, replacement)
  }

  /** The translation is Python's `s.replace("\r\n", "\n").replace("\r", "\n")`. */
  lemma {:induction false} TranslateNewlinesIsReplace(s: string)
    ensures TranslateNewlines(s) == Replace(Replace(s, "\r\n", "\n"), "\r", "\n")
  {
    if s == [] {
    } else if s[0] == '\r' && |s| >= 2 && s[1] == '\n' {
      assert s[..2] == "\r\n";
      var rest := Replace(s[2..], "\r\n", "\n");
      assert Replace(s, "\r\n", "\n") == "\n" + rest;
      assert ("\n" + rest)[1..] == rest;
      TranslateNewlinesIsReplace(s[2..]);
    } else if s[0] == '\r' {
      var rest := Replace(s[1..], "\r\n", "\n");
      assert Replace(s, "\r\n", "\n") == "\r" + rest;
      assert ("\r" + rest)[..1] == "\r" && ("\r" + rest)[1..] == rest;
      TranslateNewlinesIsReplace(s[1..]);
    } else {
      var rest := Replace(s[1..], "\r\n", "\n");
      assert Replace(s, "\r\n", "\n") == [s[0]] + rest;
      assert ([s[0]] + rest)[..1] == [s[0]] && ([s[0]] + rest)[1..] == rest;
      TranslateNewlinesIsReplace(s[1..]);
    }
  }
}

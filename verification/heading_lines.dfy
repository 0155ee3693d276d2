/** The heading expressions of the offset-based parser: `volume_regex`,
    `chapter_regex` and the multi-line `chapter_regex_line`, and the scan
    `chapter_regex_line.finditer(content)` performs over a whole text.

    `chapter_regex_line` is `^\s*(?:A|B|C|D).*$` under `re.MULTILINE`.  Every
    alternative starts with a non-space character, so the leading `\s*`
    always stops at the first non-space character after the line start
    (skipping whole blank lines), and `.*$` extends the match to the end of
    the line the alternative ends on.  The model reads each line on its
    own: a line is a heading when its text without leading whitespace
    starts with one of the alternatives.  Python's `\s` and `[^\.]` also
    match a newline, so an alternative can continue onto the next line;
    such cross-line matches are not part of this model. */
module HeadingLines {
  import opened Text
  import opened Patterns

  /** The numeral class `[0-9〇一二两...仟]` shared by all three expressions
      (it has no 亿). */
  const Numerals: set<char> := {
    '0', '1', '2', '3', '4', '5', '6', '7', '8', '9',
    '〇', '一', '二', '两', '三', '四', '五', '六', '七', '八', '九', '十', '百', '千',
    '万', '零', '壹', '贰', '叁', '肆', '伍', '陸', '柒', '捌', '玖', '拾', '佰', '仟'}

  /** `volume_regex`: `第\s*([N]+)\s*卷(?!\S)`. */
  const VolumeTitle: Pattern := Pattern("第", false, AnyWs, Numerals, AnyWs, {'卷'}, true)

  /** `chapter_regex`: `第\s*([N]+)\s*[章回节集](?!\S)`. */
  const ChapterTitle: Pattern := Pattern("第", false, AnyWs, Numerals, AnyWs, {'章', '回', '节', '集'}, true)

  /** Alternative A of the line expression: `第\s*[N]+\s*[章回节集卷](?!\S)`. */
  const NumberedLine: Pattern := Pattern("第", false, AnyWs, Numerals, AnyWs, {'章', '回', '节', '集', '卷'}, true)

  /** Alternative B: `[Cc][Hh][Aa][Pp][Tt][Ee][Rr]\s+\d+(?!\S)`. */
  const EnglishLine: Pattern := Pattern("chapter", true, SomeWs, Digits, NoGap, {}, true)

  /** Alternative C, the literal 卷末感言 (an afterword). */
  const Afterword := "卷末感言"

  /** Which copy of the line expression runs: the one in `epub/config.py`
      and `txt_to_epub2.py` has the digit-start alternative D, the one in
      `txt_to_epub.py` does not. */
  datatype LineRegex = WithDigitStart | WithoutDigitStart

  /** Every keyword the three expressions read. */
  const LineKeywords: set<char> := {'章', '回', '节', '集', '卷'}

  lemma NumeralsAreNotSpace()
    ensures forall c :: c in Numerals ==> !IsSpace(c)
  {
    assert forall c :: c in Numerals ==> IsDigit(c) || c > '\U{3000}';
  }

  lemma KeywordsAreNotNumerals()
    ensures forall c :: c in LineKeywords ==> c !in Numerals
  {
    assert '章' !in Numerals && '回' !in Numerals && '节' !in Numerals;
    assert '集' !in Numerals && '卷' !in Numerals;
  }

  /** The numerals are neither whitespace nor keywords. */
  lemma NumeralsAreClean()
    ensures forall c :: c in Numerals ==> !IsSpace(c) && c !in LineKeywords
  {
    NumeralsAreNotSpace();
    KeywordsAreNotNumerals();
  }

  lemma KeywordsAreNotSpace()
    ensures forall c :: c in LineKeywords ==> !IsSpace(c)
  {
    assert forall c :: c in LineKeywords ==> c > '\U{3000}';
  }

  /** A pattern over the shared numerals whose keywords are line keywords
      is well formed. */
  lemma NumeralPatternWellFormed(p: Pattern)
    requires p.numeral == Numerals && p.keyword <= LineKeywords
    ensures WellFormed(p)
  {
    NumeralsAreClean();
    KeywordsAreNotSpace();
  }

  lemma TitlePatternsWellFormed()
    ensures WellFormed(VolumeTitle) && WellFormed(ChapterTitle)
    ensures WellFormed(NumberedLine) && WellFormed(EnglishLine)
  {
    NumeralPatternWellFormed(VolumeTitle);
    NumeralPatternWellFormed(ChapterTitle);
    NumeralPatternWellFormed(NumberedLine);
    assert forall c :: c in Digits ==> IsDigit(c);
  }

  /** Alternative D, `\d+\s*[\.、]?\s*[^\.]`, on a line read in isolation
      starting at a digit: a run of two or more digits, or one digit followed
      by anything but a dot, or one digit, a dot and anything but a dot. */
  predicate DigitStart(u: string) {
    var n := RunEnd(u, 0, Digits);
    && n >= 1
    && (|| n >= 2
        || (n < |u| && u[n] != '.')
        || (n + 1 < |u| && u[n] == '.' && u[n + 1] != '.'))
  }

  /** A reading of alternative D: `m` digits, whitespace up to `a`, an
      optional `.` or `、` up to `b`, whitespace up to `c`, and a non-dot
      at `c`. */
  ghost predicate DigitStartReading(u: string, m: int, a: int, b: int, c: int) {
    && 1 <= m <= a <= b <= c < |u|
    && (forall k :: 0 <= k < m ==> IsDigit(u[k]))
    && (forall k :: m <= k < a ==> IsSpace(u[k]))
    && (b == a || (b == a + 1 && (u[a] == '.' || u[a] == '、')))
    && (forall k :: b <= k < c ==> IsSpace(u[k]))
    && u[c] != '.'
  }

  /** The closed form of alternative D is the regular expression: some way
      of backtracking through it succeeds exactly when `DigitStart` holds. */
  lemma DigitStartIsRegexReading(u: string)
    ensures DigitStart(u) <==> exists m, a, b, c :: DigitStartReading(u, m, a, b, c)
  {
    var n := RunEnd(u, 0, Digits);
    if DigitStart(u) {
      if n >= 2 || u[n] != '.' {
        assert DigitStartReading(u, 1, 1, 1, 1);
      } else {
        assert DigitStartReading(u, 1, 1, 2, 2);
      }
    }
    if m, a, b, c :| DigitStartReading(u, m, a, b, c) {
      assert u[0] in Digits;
      if n == 1 && u[1] == '.' {
        assert a == 1;
        assert b == 2;
        if c > 2 {
          assert IsSpace(u[2]);
        }
      }
    }
  }

  /** `chapter_regex_line` on the text of a line after its leading
      whitespace. */
  predicate IsHeadingText(v: LineRegex, u: string) {
    || MatchAt(NumberedLine, u, 0).Some?
    || MatchAt(EnglishLine, u, 0).Some?
    || StartsWith(u, Afterword)
    || (v == WithDigitStart && u != [] && IsDigit(u[0]) && DigitStart(u))
  }

  /** A line, read in isolation, that the line expression takes as a
      heading. */
  predicate IsHeadingLine(v: LineRegex, line: string) {
    IsHeadingText(v, TrimStart(line))
  }

  /** No alternative matches the empty string, so a blank line is never a
      heading. */
  lemma BlankIsNoHeading(v: LineRegex, line: string)
    requires IsBlank(line)
    ensures !IsHeadingLine(v, line)
  {
    StripShape(line);
    assert TrimStart(line) == [];
  }

  /** The end of the line holding position `i`: the next '\n' or the end of
      the text. */
  function LineEnd(s: string, i: nat): (e: nat)
    requires i <= |s|
    ensures i <= e <= |s|
    ensures e < |s| ==> s[e] == '\n'
    decreases |s| - i
  {
    if i == |s| || s[i] == '\n' then i else LineEnd(s, i + 1)
  }

  /** A line holds no '\n'. */
  lemma {:induction false} LineEndSpan(s: string, i: nat)
    requires i <= |s|
    ensures forall k :: i <= k < LineEnd(s, i) ==> s[k] != '\n'
    decreases |s| - i
  {
    if i < |s| && s[i] != '\n' {
      LineEndSpan(s, i + 1);
    }
  }

  /** Where `^` matches under `re.MULTILINE`. */
  predicate LineStart(s: string, p: nat) {
    p == 0 || (0 < p <= |s| && s[p - 1] == '\n')
  }

  /** The line starting at `p`, without its '\n'. */
  function LineAt(s: string, p: nat): string
    requires p <= |s|
  {
    s[p..LineEnd(s, p)]
  }

  /** One match of the line expression: `match.start()` and `match.end()`. */
  datatype Marker = Marker(start: nat, end: nat)

  /** The match is the run of blank lines from `m.start` followed by one
      line whose text after its leading whitespace satisfies `heading`; that
      line ends the match. */
  ghost predicate MatchesHeading(heading: string -> bool, s: string, m: Marker) {
    && LineStart(s, m.start)
    && m.start < m.end <= |s|
    && var q := SkipSpaces(s, m.start);
    && q < m.end == LineEnd(s, q)
    && heading(s[q..m.end])
  }

  /** Matches lie inside `[lo, hi]`, each non-empty. */
  predicate Within(ms: seq<Marker>, lo: nat, hi: nat) {
    forall i :: 0 <= i < |ms| ==> lo <= ms[i].start < ms[i].end <= hi
  }

  /** Matches come in text order and do not overlap: each ends before the
      next one starts. */
  predicate Ascending(ms: seq<Marker>) {
    forall i :: 0 <= i < |ms| - 1 ==> ms[i].end < ms[i + 1].start
  }

  /** `finditer` of `^\s*(?:alternatives).*$` from a line start `p`, where
      `heading` says whether the alternatives match at the start of a
      string: `^` is tried at each line start not inside an earlier match.
      After a match the next try is at the line after it; after a miss, at
      the line after `p`. */
  function Scan(heading: string -> bool, s: string, p: nat): seq<Marker>
    requires p <= |s|
    decreases |s| - p
  {
    var q := SkipSpaces(s, p);
    if q == |s| then []
    else
      var e := LineEnd(s, q);
      if heading(s[q..e]) then
        if e < |s| then [Marker(p, e)] + Scan(heading, s, e + 1) else [Marker(p, e)]
      else
        var n := LineEnd(s, p);
        if n < |s| then Scan(heading, s, n + 1) else []
  }

  /** The scan after a heading line that is not the last line. */
  lemma ScanHitStep(heading: string -> bool, s: string, p: nat)
    requires p <= |s| && SkipSpaces(s, p) < |s|
    requires heading(s[SkipSpaces(s, p)..LineEnd(s, SkipSpaces(s, p))])
    requires LineEnd(s, SkipSpaces(s, p)) < |s|
    ensures Scan(heading, s, p)
         == [Marker(p, LineEnd(s, SkipSpaces(s, p)))] + Scan(heading, s, LineEnd(s, SkipSpaces(s, p)) + 1)
  {
  }

  /** The scan after a line that is no heading and not the last line. */
  lemma ScanMissStep(heading: string -> bool, s: string, p: nat)
    requires p <= |s| && SkipSpaces(s, p) < |s|
    requires !heading(s[SkipSpaces(s, p)..LineEnd(s, SkipSpaces(s, p))])
    requires LineEnd(s, p) < |s|
    ensures Scan(heading, s, p) == Scan(heading, s, LineEnd(s, p) + 1)
  {
  }

  lemma WithinCons(m: Marker, t: seq<Marker>, lo: nat, hi: nat)
    requires lo <= m.start < m.end <= hi
    requires Within(t, m.end + 1, hi)
    ensures Within([m] + t, lo, hi)
  {
    var r := [m] + t;
    forall i | 0 <= i < |r| ensures lo <= r[i].start < r[i].end <= hi {
      if i > 0 {
        assert r[i] == t[i - 1];
      }
    }
  }

  lemma AscendingCons(m: Marker, t: seq<Marker>)
    requires Ascending(t)
    requires t != [] ==> m.end < t[0].start
    ensures Ascending([m] + t)
  {
    var r := [m] + t;
    forall i | 0 <= i < |r| - 1 ensures r[i].end < r[i + 1].start {
      assert r[i + 1] == t[i];
      if i > 0 {
        assert r[i] == t[i - 1];
      }
    }
  }

  /** Matches lie after the line start the scan begins at. */
  lemma {:induction false} ScanBounds(heading: string -> bool, s: string, p: nat)
    requires p <= |s|
    ensures Within(Scan(heading, s, p), p, |s|)
    decreases |s| - p
  {
    var q := SkipSpaces(s, p);
    if q < |s| {
      var e := LineEnd(s, q);
      assert q < e by {
        SkipSpacesSpan(s, p);
      }
      if heading(s[q..e]) {
        if e < |s| {
          ScanBounds(heading, s, e + 1);
          BoundsHit(heading, s, p);
        } else {
          assert Scan(heading, s, p) == [Marker(p, e)];
        }
      } else {
        var n := LineEnd(s, p);
        if n < |s| {
          ScanBounds(heading, s, n + 1);
          BoundsMiss(heading, s, p);
        }
      }
    }
  }

  lemma BoundsMiss(heading: string -> bool, s: string, p: nat)
    requires p <= |s| && SkipSpaces(s, p) < |s| && LineEnd(s, p) < |s|
    requires !heading(s[SkipSpaces(s, p)..LineEnd(s, SkipSpaces(s, p))])
    requires Within(Scan(heading, s, LineEnd(s, p) + 1), LineEnd(s, p) + 1, |s|)
    ensures Within(Scan(heading, s, p), p, |s|)
  {
    ScanMissStep(heading, s, p);
    var t := Scan(heading, s, LineEnd(s, p) + 1);
    assert forall i :: 0 <= i < |t| ==> p <= t[i].start;
  }

  lemma BoundsHit(heading: string -> bool, s: string, p: nat)
    requires p <= |s| && SkipSpaces(s, p) < LineEnd(s, SkipSpaces(s, p)) < |s|
    requires heading(s[SkipSpaces(s, p)..LineEnd(s, SkipSpaces(s, p))])
    requires Within(Scan(heading, s, LineEnd(s, SkipSpaces(s, p)) + 1), LineEnd(s, SkipSpaces(s, p)) + 1, |s|)
    ensures Within(Scan(heading, s, p), p, |s|)
  {
    var e := LineEnd(s, SkipSpaces(s, p));
    WithinCons(Marker(p, e), Scan(heading, s, e + 1), p, |s|);
    ScanHitStep(heading, s, p);
  }

  /** Matches come in text order and do not overlap. */
  lemma {:induction false} ScanOrdered(heading: string -> bool, s: string, p: nat)
    requires p <= |s|
    ensures Ascending(Scan(heading, s, p))
    decreases |s| - p
  {
    var q := SkipSpaces(s, p);
    if q < |s| {
      var e := LineEnd(s, q);
      if heading(s[q..e]) {
        if e < |s| {
          ScanOrdered(heading, s, e + 1);
          ScanBounds(heading, s, e + 1);
          OrderedHit(heading, s, p);
        } else {
          assert Scan(heading, s, p) == [Marker(p, e)];
        }
      } else {
        var n := LineEnd(s, p);
        if n < |s| {
          ScanOrdered(heading, s, n + 1);
          ScanMissStep(heading, s, p);
        }
      }
    }
  }

  lemma OrderedHit(heading: string -> bool, s: string, p: nat)
    requires p <= |s| && SkipSpaces(s, p) < |s| && LineEnd(s, SkipSpaces(s, p)) < |s|
    requires heading(s[SkipSpaces(s, p)..LineEnd(s, SkipSpaces(s, p))])
    requires Ascending(Scan(heading, s, LineEnd(s, SkipSpaces(s, p)) + 1))
    requires Within(Scan(heading, s, LineEnd(s, SkipSpaces(s, p)) + 1), LineEnd(s, SkipSpaces(s, p)) + 1, |s|)
    ensures Ascending(Scan(heading, s, p))
  {
    var e := LineEnd(s, SkipSpaces(s, p));
    ScanHitStep(heading, s, p);
    AscendingCons(Marker(p, e), Scan(heading, s, e + 1));
  }

  /** Every match is a run of blank lines and one heading line. */
  ghost predicate AllMatch(heading: string -> bool, s: string, ms: seq<Marker>) {
    forall i :: 0 <= i < |ms| ==> MatchesHeading(heading, s, ms[i])
  }

  lemma AllMatchCons(heading: string -> bool, s: string, m: Marker, t: seq<Marker>)
    requires MatchesHeading(heading, s, m)
    requires AllMatch(heading, s, t)
    ensures AllMatch(heading, s, [m] + t)
  {
    var r := [m] + t;
    forall i | 0 < i < |r| ensures MatchesHeading(heading, s, r[i]) {
      assert r[i] == t[i - 1];
    }
  }

  /** Every match is a run of blank lines and one heading line. */
  lemma {:induction false} ScanSound(heading: string -> bool, s: string, p: nat)
    requires p <= |s| && LineStart(s, p)
    ensures AllMatch(heading, s, Scan(heading, s, p))
    decreases |s| - p
  {
    var q := SkipSpaces(s, p);
    if q < |s| {
      var e := LineEnd(s, q);
      if heading(s[q..e]) {
        if e < |s| {
          ScanSound(heading, s, e + 1);
        }
        SoundHit(heading, s, p);
      } else {
        var n := LineEnd(s, p);
        if n < |s| {
          ScanSound(heading, s, n + 1);
          ScanMissStep(heading, s, p);
        }
      }
    }
  }

  lemma SoundHit(heading: string -> bool, s: string, p: nat)
    requires p <= |s| && LineStart(s, p) && SkipSpaces(s, p) < |s|
    requires heading(s[SkipSpaces(s, p)..LineEnd(s, SkipSpaces(s, p))])
    requires LineEnd(s, SkipSpaces(s, p)) < |s| ==>
      AllMatch(heading, s, Scan(heading, s, LineEnd(s, SkipSpaces(s, p)) + 1))
    ensures AllMatch(heading, s, Scan(heading, s, p))
  {
    var q := SkipSpaces(s, p);
    var e := LineEnd(s, q);
    var m := Marker(p, e);
    SkipSpacesSpan(s, p);
    assert MatchesHeading(heading, s, m);
    if e < |s| {
      ScanHitStep(heading, s, p);
      AllMatchCons(heading, s, m, Scan(heading, s, e + 1));
    } else {
      assert Scan(heading, s, p) == [m];
    }
  }

  /** `chapter_regex_line.finditer(s)`. */
  function Markers(v: LineRegex, s: string): seq<Marker> {
    Scan(u => IsHeadingText(v, u), s, 0)
  }

  /** Dropping leading whitespace from a slice starts it at the first
      non-space character, or empties it. */
  lemma {:induction false} TrimStartSlice(s: string, i: nat, e: nat)
    requires i <= e <= |s|
    ensures var q := SkipSpaces(s, i);
      TrimStart(s[i..e]) == if q <= e then s[q..e] else []
    decreases e - i
  {
    if i < e {
      if IsSpace(s[i]) {
        assert s[i..e][1..] == s[i + 1..e];
        TrimStartSlice(s, i + 1, e);
      }
    }
  }

  /** Skipping whitespace from inside a run of whitespace ends where the
      whole run ends. */
  lemma {:induction false} SkipSpacesFrom(s: string, p: nat, k: nat)
    requires p <= |s| && p <= k <= SkipSpaces(s, p)
    ensures SkipSpaces(s, k) == SkipSpaces(s, p)
    decreases k - p
  {
    if p < k {
      SkipSpacesFrom(s, p + 1, k);
    }
  }

  /** A line ends no later than the first '\n' at or after its start. */
  lemma {:induction false} LineEndBefore(s: string, i: nat, j: nat)
    requires i <= j < |s| && s[j] == '\n'
    ensures LineEnd(s, i) <= j
    decreases j - i
  {
    if i < j && s[i] != '\n' {
      LineEndBefore(s, i + 1, j);
    }
  }

  /** From inside a line, the line ends where it ends from its start. */
  lemma {:induction false} LineEndFrom(s: string, ls: nat, q: nat)
    requires ls <= |s| && ls <= q <= LineEnd(s, ls)
    ensures LineEnd(s, q) == LineEnd(s, ls)
    decreases q - ls
  {
    if ls < q {
      LineEndFrom(s, ls + 1, q);
    }
  }

  /** The line at `ls` holds a non-space character and its text from
      there satisfies `heading`. */
  ghost predicate HeadingAt(heading: string -> bool, s: string, ls: nat)
    requires ls <= |s|
  {
    SkipSpaces(s, ls) < LineEnd(s, ls) && heading(s[SkipSpaces(s, ls)..LineEnd(s, ls)])
  }

  /** A heading line whose blank-line run starts where the scan tries next
      ends the scan's first match. */
  lemma ScanHitsLine(heading: string -> bool, s: string, p: nat, ls: nat)
    requires p <= |s| && p <= ls <= SkipSpaces(s, p)
    requires HeadingAt(heading, s, ls)
    ensures EndsSome(Scan(heading, s, p), LineEnd(s, ls))
  {
    var q := SkipSpaces(s, p);
    SkipSpacesFrom(s, p, ls);
    LineEndFrom(s, ls, q);
    assert Scan(heading, s, p)[0].end == LineEnd(s, ls);
  }

  /** Some match of `ms` ends at `e`. */
  ghost predicate EndsSome(ms: seq<Marker>, e: nat) {
    exists i :: 0 <= i < |ms| && ms[i].end == e
  }

  lemma EndsSomeCons(m: Marker, t: seq<Marker>, e: nat)
    requires EndsSome(t, e)
    ensures EndsSome([m] + t, e)
  {
    var i :| 0 <= i < |t| && t[i].end == e;
    assert ([m] + t)[i + 1] == t[i];
  }

  /** The scan from `p` reaches every heading line at or after `p`. */
  lemma {:induction false} ScanReaches(heading: string -> bool, s: string, p: nat, ls: nat)
    requires p <= ls <= |s| && LineStart(s, ls)
    requires HeadingAt(heading, s, ls)
    ensures EndsSome(Scan(heading, s, p), LineEnd(s, ls))
    decreases |s| - p
  {
    var q := SkipSpaces(s, p);
    if ls <= q {
      ScanHitsLine(heading, s, p, ls);
    } else {
      assert q < |s| && s[ls - 1] == '\n';
      var e := LineEnd(s, q);
      if heading(s[q..e]) {
        LineEndBefore(s, q, ls - 1);
        ScanReaches(heading, s, e + 1, ls);
        ReachesHit(heading, s, p, LineEnd(s, ls));
      } else {
        LineEndBefore(s, p, ls - 1);
        ScanReaches(heading, s, LineEnd(s, p) + 1, ls);
        ScanMissStep(heading, s, p);
      }
    }
  }

  lemma ReachesHit(heading: string -> bool, s: string, p: nat, end: nat)
    requires p <= |s| && SkipSpaces(s, p) < |s| && LineEnd(s, SkipSpaces(s, p)) < |s|
    requires heading(s[SkipSpaces(s, p)..LineEnd(s, SkipSpaces(s, p))])
    requires EndsSome(Scan(heading, s, LineEnd(s, SkipSpaces(s, p)) + 1), end)
    ensures EndsSome(Scan(heading, s, p), end)
  {
    var e := LineEnd(s, SkipSpaces(s, p));
    ScanHitStep(heading, s, p);
    EndsSomeCons(Marker(p, e), Scan(heading, s, e + 1), end);
  }

  /** The scan misses no heading line: every line at or after `p` whose
      text after its leading whitespace satisfies `heading` ends some
      match. */
  lemma ScanComplete(heading: string -> bool, s: string, p: nat, ls: nat)
    requires p <= ls <= |s| && LineStart(s, ls)
    requires !heading([])
    requires heading(TrimStart(LineAt(s, ls)))
    ensures EndsSome(Scan(heading, s, p), LineEnd(s, ls))
  {
    var e := LineEnd(s, ls);
    var q := SkipSpaces(s, ls);
    TrimStartSlice(s, ls, e);
    assert q < e;
    ScanReaches(heading, s, p, ls);
  }

  /** `match.group(0).strip()`: the title of a match is its heading line,
      stripped; the blank lines the match starts with do not show. */
  lemma MatchTitle(heading: string -> bool, s: string, m: Marker)
    requires MatchesHeading(heading, s, m)
    ensures Strip(s[m.start..m.end]) == Strip(s[SkipSpaces(s, m.start)..m.end])
  {
    var q := SkipSpaces(s, m.start);
    TrimStartSlice(s, m.start, m.end);
    assert TrimStart(s[q..m.end]) == s[q..m.end];
  }

  /** Under the one-line reading, a title is one line. */
  lemma TitleIsOneLine(heading: string -> bool, s: string, m: Marker)
    requires MatchesHeading(heading, s, m)
    ensures '\n' !in Strip(s[m.start..m.end])
  {
    var q := SkipSpaces(s, m.start);
    MatchTitle(heading, s, m);
    LineHasNoBreak(s, q);
    StripKeepsChars(s[q..m.end]);
  }

  lemma LineHasNoBreak(s: string, q: nat)
    requires q <= |s|
    ensures '\n' !in s[q..LineEnd(s, q)]
  {
    LineEndSpan(s, q);
    var line := s[q..LineEnd(s, q)];
    assert forall k :: 0 <= k < |line| ==> line[k] == s[q + k];
  }
}

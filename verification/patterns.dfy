/** The shape shared by every numbered-heading regular expression in the
    engine:

        lead  gap  numeral+  [ gap  keyword ]  [ (?!\S) ]

    for example `第\s*\d+\s*章(?!\S)`, `Chapter\s+[IVX]+(?!\S)` or
    `\d+\s*[\.、]`.  `MatchAt` is the deterministic left-to-right scan;
    `SpecAt` is what the regular expression means (some split of the input
    into those parts).  Because a numeral run can never be followed by more
    numeral characters where a gap, keyword or guard is expected,
    backtracking never finds another split, and the two agree. */
module Patterns {
  import opened Text
  import opened Wrappers

  /** Whitespace between two parts: none, `\s*` or `\s+`. */
  datatype Gap = NoGap | AnyWs | SomeWs

  /** `foldCase` compares `lead` (written in lower case) ASCII
      case-insensitively; an empty `keyword` set means there is no keyword
      part; `guarded` adds the `(?!\S)` look-ahead after the last part. */
  datatype Pattern = Pattern(
    lead: string, foldCase: bool, gap1: Gap, numeral: set<char>,
    gap2: Gap, keyword: set<char>, guarded: bool)

  /** Where a match puts its numeral run (the captured group) and where it
      ends. */
  datatype Hit = Hit(runStart: nat, runEnd: nat, end: nat)

  /** Numerals and keywords are never whitespace, and no keyword character
      is a numeral. */
  ghost predicate WellFormed(p: Pattern) {
    && (forall c :: c in p.numeral ==> !IsSpace(c))
    && (forall c :: c in p.keyword ==> !IsSpace(c) && c !in p.numeral)
  }

  /** First index at or after `i` that is not whitespace. */
  function SkipSpaces(s: string, i: nat): (j: nat)
    requires i <= |s|
    ensures i <= j <= |s|
    decreases |s| - i
  {
    if i < |s| && IsSpace(s[i]) then SkipSpaces(s, i + 1) else i
  }

  /** `SkipSpaces` passes over whitespace only and stops at the first
      character that is not. */
  lemma {:induction false} SkipSpacesSpan(s: string, i: nat)
    requires i <= |s|
    ensures var j := SkipSpaces(s, i);
      && (forall k :: i <= k < j ==> IsSpace(s[k]))
      && (j < |s| ==> !IsSpace(s[j]))
    decreases |s| - i
  {
    if i < |s| && IsSpace(s[i]) {
      SkipSpacesSpan(s, i + 1);
    }
  }

  /** First index at or after `i` whose character is not in `cls`. */
  function RunEnd(s: string, i: nat, cls: set<char>): (j: nat)
    requires i <= |s|
    ensures i <= j <= |s|
    ensures forall k :: i <= k < j ==> s[k] in cls
    ensures j < |s| ==> s[j] !in cls
    decreases |s| - i
  {
    if i < |s| && s[i] in cls then RunEnd(s, i + 1, cls) else i
  }

  predicate LeadAt(p: Pattern, s: string, at: nat) {
    && at + |p.lead| <= |s|
    && (if p.foldCase then Lower(s[at..at + |p.lead|]) == p.lead
        else s[at..at + |p.lead|] == p.lead)
  }

  function GapEnd(s: string, i: nat, g: Gap): (j: nat)
    requires i <= |s|
    ensures i <= j <= |s|
    ensures forall k :: i <= k < j ==> IsSpace(s[k])
    ensures g != NoGap && j < |s| ==> !IsSpace(s[j])
  {
    if g == NoGap then i else SkipSpacesSpan(s, i); SkipSpaces(s, i)
  }

  /** `s[from..to]` is a legal filling of gap `g`. */
  ghost predicate GapSpan(s: string, from: int, to: int, g: Gap) {
    && 0 <= from <= to <= |s|
    && (forall k :: from <= k < to ==> IsSpace(s[k]))
    && (g == NoGap ==> from == to)
    && (g == SomeWs ==> from < to)
  }

  /** The regular expression's reading: the input splits at `at` into the
      pattern's parts with the numeral run at `h.runStart..h.runEnd` and
      the match ending at `h.end`. */
  ghost predicate SpecAt(p: Pattern, s: string, at: nat, h: Hit) {
    && LeadAt(p, s, at)
    && GapSpan(s, at + |p.lead|, h.runStart, p.gap1)
    && h.runStart < h.runEnd <= |s|
    && (forall k :: h.runStart <= k < h.runEnd ==> s[k] in p.numeral)
    && (if p.keyword == {} then h.end == h.runEnd
        else
          && h.runEnd < h.end <= |s|
          && GapSpan(s, h.runEnd, h.end - 1, p.gap2)
          && s[h.end - 1] in p.keyword)
    && (p.guarded ==> h.end == |s| || IsSpace(s[h.end]))
  }

  /** The greedy scan `re.match` performs when anchored at `at`. */
  function MatchAt(p: Pattern, s: string, at: nat): Option<Hit>
    requires at <= |s|
  {
    if !LeadAt(p, s, at) then None
    else
      var i := GapEnd(s, at + |p.lead|, p.gap1);
      var j := RunEnd(s, i, p.numeral);
      if (p.gap1 == SomeWs && i == at + |p.lead|) || j == i then None
      else if p.keyword == {} then
        if p.guarded && j < |s| && !IsSpace(s[j]) then None else Some(Hit(i, j, j))
      else
        var k := GapEnd(s, j, p.gap2);
        if k == |s| || s[k] !in p.keyword || (p.gap2 == SomeWs && k == j) then None
        else if p.guarded && k + 1 < |s| && !IsSpace(s[k + 1]) then None
        else Some(Hit(i, j, k + 1))
  }

  /** Every hit of the scan is a reading of the regular expression. */
  lemma MatchAtSound(p: Pattern, s: string, at: nat)
    requires at <= |s|
    requires MatchAt(p, s, at).Some?
    ensures SpecAt(p, s, at, MatchAt(p, s, at).value)
  {
  }

  /** Whenever the regular expression can match, the scan finds a hit. */
  lemma MatchAtComplete(p: Pattern, s: string, at: nat, h: Hit)
    requires WellFormed(p)
    requires at <= |s|
    requires SpecAt(p, s, at, h)
    ensures MatchAt(p, s, at).Some?
    ensures p.guarded || p.keyword != {} ==> MatchAt(p, s, at) == Some(h)
  {
    var i := GapEnd(s, at + |p.lead|, p.gap1);
    assert i == h.runStart by {
      if p.gap1 != NoGap {
        assert !IsSpace(s[h.runStart]);
      }
    }
    var j := RunEnd(s, i, p.numeral);
    assert h.runEnd <= j;
    if p.keyword != {} {
      assert j == h.runEnd by {
        if h.runEnd < |s| {
          if h.runEnd < h.end - 1 {
            assert IsSpace(s[h.runEnd]);
          }
        }
      }
      var k := GapEnd(s, j, p.gap2);
      assert k == h.end - 1 by {
        if p.gap2 != NoGap {
          assert !IsSpace(s[h.end - 1]);
        }
      }
    } else if p.guarded {
      assert j == h.runEnd by {
        if h.runEnd < |s| {
          assert IsSpace(s[h.runEnd]);
        }
      }
    }
  }

  /** `re.search`: the leftmost position at or after `from` where the
      pattern matches, if any. */
  function FirstMatch(p: Pattern, s: string, from: nat): (r: Option<nat>)
    requires from <= |s|
    ensures r.None? ==> forall at :: from <= at <= |s| ==> MatchAt(p, s, at).None?
    ensures r.Some? ==> from <= r.value <= |s| && MatchAt(p, s, r.value).Some?
    ensures r.Some? ==> forall a :: from <= a < r.value ==> MatchAt(p, s, a).None?
    decreases |s| - from
  {
    if MatchAt(p, s, from).Some? then Some(from)
    else if from == |s| then None
    else FirstMatch(p, s, from + 1)
  }

  /** The hit `re.search` returns. */
  function Search(p: Pattern, s: string): Option<Hit> {
    match FirstMatch(p, s, 0)
    case None => None
    case Some(at) => MatchAt(p, s, at)
  }

  /** `re.search(p, s).group(1)`: the numeral run the leftmost match
      captures, or None when the pattern occurs nowhere in `s`. */
  function Group1(p: Pattern, s: string): (r: Option<string>)
    ensures r.None? <==> Search(p, s).None?
    ensures r.Some? ==> |r.value| > 0 && (forall k :: 0 <= k < |r.value| ==> r.value[k] in p.numeral)
  {
    match FirstMatch(p, s, 0)
    case None => None
    case Some(at) =>
      MatchAtSound(p, s, at);
      var h := MatchAt(p, s, at).value;
      Some(s[h.runStart..h.runEnd])
  }
}

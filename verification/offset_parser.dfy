/** The offset-based parser (`TextParser.parse_chapters`) in its two
    generations.  Both find every heading match of the line expression in
    the whole text, cut the text at the matches, put the text before the
    first match into a 前言 chapter, give every chapter a `(volume,
    chapter)` key, keep the first non-empty chapter of every title and,
    when asked, sort stably by key.

    The current generation (`epub/text_parser.py`, copied into
    `txt_to_epub2.py`) drops a match that starts within 50 characters of
    the previous kept one and skips empty chapters before numbering them.
    The earlier one (`txt_to_epub.py`) keeps every match, numbers every
    chapter and lets a volume header reset the carried volume even to 0. */
module OffsetParser {
  import opened Text
  import opened Wrappers
  import opened Ordering
  import opened HeadingLines
  import opened SortKeys

  /** One entry of the chapter list: `{'title', 'content', 'sort_key'}`. */
  datatype Chapter = Chapter(title: string, body: string, key: SortKey)

  /** The title of the single chapter of a text without headings. */
  const BodyTitle := "正文"

  /** The title of the text before the first heading. */
  const PrologueTitle := "前言"

  /** A match starting at most this many characters after the end of the
      last kept one is dropped. */
  const Proximity := 50

  /** `enable_sorting` (`epub/config.py`, `txt_to_epub2.py`) and
      `ENABLE_SORTING` (`txt_to_epub.py`). */
  const EnableSorting := false

  /** The chapter returned for a text without headings. */
  function WholeText(body: string): Chapter {
    Chapter(BodyTitle, body, SortKey(0, Num(1)))
  }

  // ---------------------------------------------------------------------
  // `_deduplicate_markers`

  /** Marker positions `idx` are strictly increasing. */
  predicate Increasing(idx: seq<nat>) {
    forall a, b :: 0 <= a < b < |idx| ==> idx[a] < idx[b]
  }

  /** The positions of the kept matches among the first `n`: the first
      match, and then every match that starts more than `Proximity`
      characters after the end of the last kept one. */
  function KeptUpTo(ms: seq<Marker>, n: nat): (idx: seq<nat>)
    requires n <= |ms|
    ensures |idx| <= n
    ensures forall k :: 0 <= k < |idx| ==> idx[k] < n
    ensures n > 0 ==> |idx| > 0 && idx[0] == 0
    ensures forall a, b :: 0 <= a && b == a + 1 < |idx| ==> ms[idx[b]].start - ms[idx[a]].end > Proximity
    decreases n
  {
    if n == 0 then []
    else
      var pre := KeptUpTo(ms, n - 1);
      if |pre| == 0 || ms[n - 1].start - ms[pre[|pre| - 1]].end > Proximity then pre + [n - 1] else pre
  }

  /** `_deduplicate_markers`: the kept matches, in order. */
  function KeepApart(ms: seq<Marker>): (r: seq<Marker>)
    ensures |r| <= |ms|
    ensures |ms| > 0 ==> |r| > 0 && r[0] == ms[0]
    ensures forall a, b :: 0 <= a && b == a + 1 < |r| ==> r[b].start - r[a].end > Proximity
  {
    var idx := KeptUpTo(ms, |ms|);
    seq(|idx|, k requires 0 <= k < |idx| => ms[idx[k]])
  }

  /** The kept matches keep their input order. */
  lemma {:induction false} KeptIncreasing(ms: seq<Marker>, n: nat)
    requires n <= |ms|
    ensures Increasing(KeptUpTo(ms, n))
    decreases n
  {
    if n > 0 {
      KeptIncreasing(ms, n - 1);
    }
  }

  /** Match `j` is dropped because kept match `idx[i]` is the last kept one
      before it and `j` starts within `Proximity` characters of its end. */
  ghost predicate DroppedAfter(ms: seq<Marker>, idx: seq<nat>, j: nat, i: nat)
    requires forall k :: 0 <= k < |idx| ==> idx[k] < |ms|
    requires j < |ms|
  {
    && i < |idx| && idx[i] < j
    && (i + 1 == |idx| || j < idx[i + 1])
    && ms[j].start - ms[idx[i]].end <= Proximity
  }

  /** Every dropped match comes after some kept one, before the next kept
      one, and starts within `Proximity` characters of the earlier one's
      end. */
  lemma {:induction false} KeptDropped(ms: seq<Marker>, n: nat)
    requires n <= |ms|
    ensures forall j :: 0 <= j < n && j !in KeptUpTo(ms, n) ==> exists i :: DroppedAfter(ms, KeptUpTo(ms, n), j, i)
    decreases n
  {
    if n > 0 {
      var pre := KeptUpTo(ms, n - 1);
      var idx := KeptUpTo(ms, n);
      KeptDropped(ms, n - 1);
      forall j | 0 <= j < n && j !in idx ensures exists i :: DroppedAfter(ms, idx, j, i) {
        if j == n - 1 {
          DroppedNew(ms, n);
        } else {
          assert j !in pre by {
            assert idx == pre || idx == pre + [n - 1];
          }
          var i: nat :| DroppedAfter(ms, pre, j, i);
          DroppedCarry(ms, n, j, i);
        }
      }
    }
  }

  /** The newest match, when dropped, is dropped after the last kept one. */
  lemma DroppedNew(ms: seq<Marker>, n: nat)
    requires 0 < n <= |ms| && n - 1 !in KeptUpTo(ms, n)
    ensures |KeptUpTo(ms, n - 1)| > 0
    ensures DroppedAfter(ms, KeptUpTo(ms, n), n - 1, |KeptUpTo(ms, n - 1)| - 1)
  {
    var pre := KeptUpTo(ms, n - 1);
    if |pre| == 0 || ms[n - 1].start - ms[pre[|pre| - 1]].end > Proximity {
      assert false;
    }
  }

  /** A match dropped among the first `n - 1` stays dropped after the same
      kept match when match `n - 1` is considered. */
  lemma DroppedCarry(ms: seq<Marker>, n: nat, j: nat, i: nat)
    requires 0 < n <= |ms| && j < n - 1
    requires DroppedAfter(ms, KeptUpTo(ms, n - 1), j, i)
    ensures DroppedAfter(ms, KeptUpTo(ms, n), j, i)
  {
    var pre := KeptUpTo(ms, n - 1);
    var idx := KeptUpTo(ms, n);
    assert idx == pre || idx == pre + [n - 1];
    assert idx[i] == pre[i];
    if i + 1 < |pre| {
      assert idx[i + 1] == pre[i + 1];
    }
  }

  /** Where the body of kept match `i` ends: the start of the next kept
      match, or the end of the text. */
  function BodyEnd(ms: seq<Marker>, i: nat, n: nat): nat
    requires i < |ms|
  {
    if i + 1 < |ms| then ms[i + 1].start else n
  }

  /** In an ascending list, an earlier match ends before a later one
      starts. */
  lemma {:induction false} AscendingApart(ms: seq<Marker>, a: nat, b: nat, n: nat)
    requires Ascending(ms) && Within(ms, 0, n) && a < b < |ms|
    ensures ms[a].end < ms[b].start
    decreases b - a
  {
    if a + 1 < b {
      AscendingApart(ms, a + 1, b, n);
    }
  }

  /** A dropped heading is not lost: with matches in text order, its whole
      text lies between the end of the kept match before it and the start
      of the next kept match (or the end of the text), so it becomes part
      of the earlier chapter's body. */
  lemma DroppedHeadingInBody(ms: seq<Marker>, n: nat, j: nat)
    requires Ascending(ms) && Within(ms, 0, n)
    requires j < |ms| && j !in KeptUpTo(ms, |ms|)
    ensures exists i :: (0 <= i < |KeepApart(ms)|
      && KeepApart(ms)[i].end < ms[j].start && ms[j].end <= BodyEnd(KeepApart(ms), i, n))
  {
    var idx := KeptUpTo(ms, |ms|);
    var kept := KeepApart(ms);
    KeptDropped(ms, |ms|);
    var i: nat :| DroppedAfter(ms, idx, j, i);
    AscendingApart(ms, idx[i], j, n);
    if i + 1 < |idx| {
      AscendingApart(ms, j, idx[i + 1], n);
    }
    assert kept[i].end < ms[j].start && ms[j].end <= BodyEnd(kept, i, n);
  }

  // ---------------------------------------------------------------------
  // `_build_chapter_list`

  /** The text of one kept match and the text up to the next one, both
      stripped. */
  datatype Piece = Piece(title: string, body: string)

  /** `match.group(0).strip()`. */
  function TitleOf(content: string, m: Marker): string {
    Strip(PySlice(content, m.start, m.end))
  }

  /** The stripped text between kept match `i` and the next one. */
  function BodyOf(content: string, ms: seq<Marker>, i: nat): string
    requires i < |ms|
  {
    Strip(PySlice(content, ms[i].end, BodyEnd(ms, i, |content|)))
  }

  /** The title and body cut out at every kept match. */
  function Pieces(content: string, ms: seq<Marker>): (r: seq<Piece>)
    ensures |r| == |ms|
  {
    seq(|ms|, j requires 0 <= j < |ms| => Piece(TitleOf(content, ms[j]), BodyOf(content, ms, j)))
  }

  /** The 前言 chapter, when the text before the first match is not
      blank. */
  function Prologue(content: string, ms: seq<Marker>): (r: seq<Chapter>)
    requires |ms| > 0
    ensures |r| <= 1
    ensures |r| == 1 <==> !IsBlank(PySlice(content, 0, ms[0].start))
    ensures |r| == 1 ==> r[0] == Chapter(PrologueTitle, Strip(PySlice(content, 0, ms[0].start)), SortKey(0, Num(0)))
  {
    var p := Strip(PySlice(content, 0, ms[0].start));
    StripEmptyIffBlank(PySlice(content, 0, ms[0].start));
    if p != "" then [Chapter(PrologueTitle, p, SortKey(0, Num(0)))] else []
  }

  /** The volume carried into chapter `k` of the current generation: the
      last positive volume among the chapters before it, else `init`. */
  function Carried(cs: seq<Chapter>, k: nat, init: int): int
    requires k <= |cs|
    decreases k
  {
    if k == 0 then init
    else if cs[k - 1].key.volume > 0 then cs[k - 1].key.volume
    else Carried(cs, k - 1, init)
  }

  /** Chapters from piece `i` on, with `current` the carried volume: an
      empty body is skipped before it is numbered, and only a positive
      volume changes the carried one. */
  function Numbered(read: (string, int) -> SortKey, ps: seq<Piece>, i: nat, current: int): (r: seq<Chapter>)
    requires i <= |ps|
    ensures |r| <= |ps| - i
    ensures forall k :: 0 <= k < |r| ==> r[k].body != ""
    decreases |ps| - i
  {
    if i == |ps| then []
    else if ps[i].body == "" then Numbered(read, ps, i + 1, current)
    else
      var key := read(ps[i].title, current);
      var next := if key.volume > 0 then key.volume else current;
      [Chapter(ps[i].title, ps[i].body, key)] + Numbered(read, ps, i + 1, next)
  }

  /** Exactly the pieces with a non-empty body become chapters, in order. */
  lemma {:induction false} NumberedPieces(read: (string, int) -> SortKey, ps: seq<Piece>, i: nat, current: int) returns (idx: seq<nat>)
    requires i <= |ps|
    ensures var r := Numbered(read, ps, i, current);
      && |idx| == |r| && Increasing(idx)
      && (forall k :: 0 <= k < |idx| ==>
            i <= idx[k] < |ps| && r[k].title == ps[idx[k]].title && r[k].body == ps[idx[k]].body)
      && (forall j :: i <= j < |ps| && ps[j].body != "" ==> j in idx)
    decreases |ps| - i
  {
    if i == |ps| {
      idx := [];
    } else if ps[i].body == "" {
      assert Numbered(read, ps, i, current) == Numbered(read, ps, i + 1, current);
      idx := NumberedPieces(read, ps, i + 1, current);
    } else {
      var key := read(ps[i].title, current);
      var next := if key.volume > 0 then key.volume else current;
      var rest := NumberedPieces(read, ps, i + 1, next);
      idx := [i] + rest;
      var r := Numbered(read, ps, i, current);
      assert r == [Chapter(ps[i].title, ps[i].body, key)] + Numbered(read, ps, i + 1, next);
    }
  }

  lemma {:induction false} CarriedCons(c: Chapter, cs: seq<Chapter>, k: nat, init: int)
    requires 0 < k <= |cs| + 1
    ensures Carried([c] + cs, k, init)
         == Carried(cs, k - 1, if c.key.volume > 0 then c.key.volume else init)
    decreases k
  {
    if k > 1 {
      assert ([c] + cs)[k - 1] == cs[k - 2];
      CarriedCons(c, cs, k - 1, init);
    }
  }

  /** Every chapter's key is its title read with the volume carried into
      it. */
  ghost predicate KeysCarried(r: seq<Chapter>, read: (string, int) -> SortKey, current: int) {
    forall k :: 0 <= k < |r| ==> r[k].key == read(r[k].title, Carried(r, k, current))
  }

  /** Every chapter's key is its title read with the volume carried from
      the chapters before it: the last positive volume, else the initial
      one. */
  lemma {:induction false} NumberedKeys(read: (string, int) -> SortKey, ps: seq<Piece>, i: nat, current: int)
    requires i <= |ps|
    ensures KeysCarried(Numbered(read, ps, i, current), read, current)
    decreases |ps| - i
  {
    if i < |ps| {
      if ps[i].body == "" {
        assert Numbered(read, ps, i, current) == Numbered(read, ps, i + 1, current);
        NumberedKeys(read, ps, i + 1, current);
      } else {
        var key := read(ps[i].title, current);
        var next := if key.volume > 0 then key.volume else current;
        var c := Chapter(ps[i].title, ps[i].body, key);
        var rest := Numbered(read, ps, i + 1, next);
        NumberedKeys(read, ps, i + 1, next);
        var r := [c] + rest;
        assert Numbered(read, ps, i, current) == r;
        forall k | 0 <= k < |r| ensures r[k].key == read(r[k].title, Carried(r, k, current)) {
          if k > 0 {
            CarriedCons(c, rest, k, current);
            assert r[k] == rest[k - 1];
          }
        }
      }
    }
  }

  /** `_build_chapter_list` before its final step. */
  function ChapterList(conv: Converter, content: string, ms: seq<Marker>): seq<Chapter>
    requires |ms| > 0
  {
    Prologue(content, ms) + Numbered(Reading(conv), Pieces(content, ms), 0, 0)
  }

  // ---------------------------------------------------------------------
  // `_finalize_chapters`

  /** Some chapter of `cs` has title `t`. */
  predicate HasTitle(cs: seq<Chapter>, t: string) {
    exists k :: 0 <= k < |cs| && cs[k].title == t
  }

  function DifferentTitles(c: Chapter, d: Chapter): bool {
    c.title != d.title
  }

  /** No title occurs twice. */
  ghost predicate DistinctTitles(cs: seq<Chapter>) {
    Pairwise(cs, DifferentTitles)
  }

  /** Chapter `i` is the first one of its title with a non-blank body. */
  ghost predicate FirstKept(cs: seq<Chapter>, i: int)
    requires 0 <= i < |cs|
  {
    !IsBlank(cs[i].body) && forall k :: 0 <= k < i && cs[k].title == cs[i].title ==> IsBlank(cs[k].body)
  }

  /** The title-keyed dictionary pass: a chapter is kept when its body is
      not blank and no earlier chapter with its title was kept. */
  function Dedup(cs: seq<Chapter>): (r: seq<Chapter>)
    ensures |r| <= |cs|
    ensures DistinctTitles(r)
    ensures forall k :: 0 <= k < |r| ==> !IsBlank(r[k].body)
    decreases |cs|
  {
    if |cs| == 0 then []
    else
      var front := cs[..|cs| - 1];
      var kept := Dedup(front);
      var c := cs[|cs| - 1];
      assert forall i :: 0 <= i < |front| ==> front[i] == cs[i];
      if !HasTitle(kept, c.title) && !IsBlank(c.body) then
        assert forall k :: 0 <= k < |kept| ==> DifferentTitles(kept[k], c);
        kept + [c]
      else kept
  }

  lemma HasTitleAppend(cs: seq<Chapter>, c: Chapter, t: string)
    ensures HasTitle(cs + [c], t) <==> HasTitle(cs, t) || c.title == t
  {
    if HasTitle(cs, t) {
      var k :| 0 <= k < |cs| && cs[k].title == t;
      assert (cs + [c])[k] == cs[k];
    }
    assert (cs + [c])[|cs|] == c;
  }

  /** Some chapter among the first `n` of `cs` has title `t` and a
      non-blank body. */
  ghost predicate LiveTitle(cs: seq<Chapter>, n: int, t: string)
    requires n <= |cs|
  {
    exists i :: 0 <= i < n && cs[i].title == t && !IsBlank(cs[i].body)
  }

  lemma LiveTitleFront(cs: seq<Chapter>, t: string)
    requires |cs| > 0
    ensures LiveTitle(cs, |cs|, t) <==>
      (LiveTitle(cs[..|cs| - 1], |cs| - 1, t) || (cs[|cs| - 1].title == t && !IsBlank(cs[|cs| - 1].body)))
  {
    var n := |cs| - 1;
    if LiveTitle(cs, |cs|, t) {
      var i :| 0 <= i < |cs| && cs[i].title == t && !IsBlank(cs[i].body);
      if i < n {
        assert cs[..n][i] == cs[i];
      }
    }
    if LiveTitle(cs[..n], n, t) {
      var i :| 0 <= i < n && cs[..n][i].title == t && !IsBlank(cs[..n][i].body);
      assert cs[i] == cs[..n][i];
    }
  }

  /** A title survives exactly when some chapter with it has a non-blank
      body. */
  lemma {:induction false} DedupTitles(cs: seq<Chapter>, t: string)
    ensures HasTitle(Dedup(cs), t) <==> LiveTitle(cs, |cs|, t)
    decreases |cs|
  {
    if |cs| > 0 {
      var n := |cs| - 1;
      var front := cs[..n];
      var kept := Dedup(front);
      var c := cs[n];
      DedupTitles(front, t);
      LiveTitleFront(cs, t);
      if !HasTitle(kept, c.title) && !IsBlank(c.body) {
        assert Dedup(cs) == kept + [c];
        HasTitleAppend(kept, c, t);
      } else {
        assert Dedup(cs) == kept;
      }
    }
  }

  /** Whether a chapter is the first live one of its title depends only
      on the chapters before it. */
  lemma FirstKeptFront(cs: seq<Chapter>, i: nat)
    requires i < |cs| - 1
    ensures FirstKept(cs[..|cs| - 1], i) == FirstKept(cs, i)
  {
    assert forall k :: 0 <= k <= i ==> cs[..|cs| - 1][k] == cs[k];
  }

  /** The last chapter is the first live one of its title exactly when it
      is live and no earlier chapter with its title is. */
  lemma FirstKeptLast(cs: seq<Chapter>)
    requires |cs| > 0
    ensures FirstKept(cs, |cs| - 1) <==>
      (!IsBlank(cs[|cs| - 1].body) && !LiveTitle(cs[..|cs| - 1], |cs| - 1, cs[|cs| - 1].title))
  {
    var n := |cs| - 1;
    assert forall k :: 0 <= k < n ==> cs[..n][k] == cs[k];
  }

  /** The kept chapters come in input order, and each is the first live
      chapter of its title. */
  lemma {:induction false} DedupIndices(cs: seq<Chapter>) returns (idx: seq<nat>)
    ensures |idx| == |Dedup(cs)| && Increasing(idx)
    ensures forall k :: 0 <= k < |idx| ==> idx[k] < |cs| && Dedup(cs)[k] == cs[idx[k]] && FirstKept(cs, idx[k])
    decreases |cs|
  {
    if |cs| == 0 {
      return [];
    }
    var n := |cs| - 1;
    var front := cs[..n];
    var pre := DedupIndices(front);
    IndicesCarry(cs, front, pre);
    var c := cs[n];
    var keep := !HasTitle(Dedup(front), c.title) && !IsBlank(c.body);
    DedupStep(cs, front);
    if keep {
      idx := pre + [n];
      forall k | 0 <= k < |idx| ensures idx[k] < |cs| && Dedup(cs)[k] == cs[idx[k]] && FirstKept(cs, idx[k]) {
        if k < |pre| {
          assert idx[k] == pre[k] && Dedup(cs)[k] == Dedup(front)[k];
        }
      }
      forall a, b | 0 <= a < b < |idx| ensures idx[a] < idx[b] {
        assert idx[a] == pre[a];
      }
    } else {
      idx := pre;
    }
  }

  /** The positions found for all but the last chapter stay valid for the
      whole list. */
  lemma IndicesCarry(cs: seq<Chapter>, front: seq<Chapter>, pre: seq<nat>)
    requires |cs| > 0 && front == cs[..|cs| - 1]
    requires |pre| == |Dedup(front)|
    requires forall k :: 0 <= k < |pre| ==> pre[k] < |front| && Dedup(front)[k] == front[pre[k]] && FirstKept(front, pre[k])
    ensures forall k :: 0 <= k < |pre| ==> pre[k] < |cs| - 1 && Dedup(front)[k] == cs[pre[k]] && FirstKept(cs, pre[k])
  {
    forall k | 0 <= k < |pre| ensures Dedup(front)[k] == cs[pre[k]] && FirstKept(cs, pre[k]) {
      FirstKeptFront(cs, pre[k]);
      assert front[pre[k]] == cs[pre[k]];
    }
  }

  /** The pass keeps the last chapter, appending it, exactly when no kept
      chapter has its title and its body is not blank; it is then the first
      live chapter of its title. */
  lemma DedupStep(cs: seq<Chapter>, front: seq<Chapter>)
    requires |cs| > 0 && front == cs[..|cs| - 1]
    ensures var c := cs[|cs| - 1];
      var keep := !HasTitle(Dedup(front), c.title) && !IsBlank(c.body);
      && Dedup(cs) == (if keep then Dedup(front) + [c] else Dedup(front))
      && (keep ==> FirstKept(cs, |cs| - 1))
  {
    var c := cs[|cs| - 1];
    if !HasTitle(Dedup(front), c.title) && !IsBlank(c.body) {
      DedupTitles(front, c.title);
      FirstKeptLast(cs);
    }
  }

  /** The first live chapter of every title is kept. */
  lemma {:induction false} DedupComplete(cs: seq<Chapter>, i: nat)
    requires i < |cs| && FirstKept(cs, i)
    ensures cs[i] in Dedup(cs)
    decreases |cs|
  {
    var n := |cs| - 1;
    var front := cs[..n];
    var kept := Dedup(front);
    var c := cs[n];
    var keep := !HasTitle(kept, c.title) && !IsBlank(c.body);
    assert Dedup(cs) == if keep then kept + [c] else kept;
    if i < n {
      assert cs[i] in kept by {
        FirstKeptFront(cs, i);
        DedupComplete(front, i);
        assert front[i] == cs[i];
      }
    } else {
      assert keep by {
        DedupTitles(front, c.title);
        FirstKeptLast(cs);
      }
    }
  }

  /** Keys are read off chapters for sorting. */
  function KeyOf(c: Chapter): SortKey {
    c.key
  }

  /** `_finalize_chapters`: deduplicate, then sort stably by key when
      sorting is on; otherwise keep encounter order. */
  function Finalize(cs: seq<Chapter>, sorting: bool): (r: seq<Chapter>)
    ensures !sorting ==> r == Dedup(cs)
    ensures sorting ==> multiset(r) == multiset(Dedup(cs)) && SortedBy(r, KeyOf, KeyLess)
    ensures sorting ==> forall k :: KeyFilter(r, KeyOf, k) == KeyFilter(Dedup(cs), KeyOf, k)
    ensures DistinctTitles(r)
    ensures forall k :: 0 <= k < |r| ==> !IsBlank(r[k].body)
  {
    var d := Dedup(cs);
    if sorting then
      KeyLessIsStrictTotalOrder();
      var s := SortBy(d, KeyOf, KeyLess);
      SortSpec(d, KeyOf, KeyLess);
      SortKeepsPairwise(d, KeyOf, KeyLess, DifferentTitles);
      forall k | 0 <= k < |s| ensures !IsBlank(s[k].body) {
        assert s[k] in multiset(d);
      }
      s
    else d
  }

  // ---------------------------------------------------------------------
  // `parse_chapters`, current generation

  /** The kept heading matches of the current generation. */
  function KeptMarkers(content: string): seq<Marker> {
    KeepApart(Markers(WithDigitStart, content))
  }

  /** `TextParser.parse_chapters(content, force_sort)` of
      `epub/text_parser.py` and `txt_to_epub2.py`. */
  function ParseChapters(conv: Converter, content: string, forceSort: bool): (r: seq<Chapter>)
    ensures IsBlank(content) ==> r == [WholeText(content)]
    ensures !IsBlank(content) && |KeptMarkers(content)| == 0 ==> r == [WholeText(Strip(content))]
    ensures !IsBlank(content) && |KeptMarkers(content)| > 0 ==>
      && DistinctTitles(r)
      && (forall k :: 0 <= k < |r| ==> !IsBlank(r[k].body))
      && ((EnableSorting || forceSort) ==> SortedBy(r, KeyOf, KeyLess))
      && (!(EnableSorting || forceSort) ==> r == Dedup(ChapterList(conv, content, KeptMarkers(content))))
  {
    if IsBlank(content) then [WholeText(content)]
    else
      var ms := KeptMarkers(content);
      if |ms| == 0 then [WholeText(Strip(content))]
      else
        Finalize(ChapterList(conv, content, ms), EnableSorting || forceSort)
  }

  /** A live first chapter stays first. */
  lemma {:induction false} DedupKeepsHead(cs: seq<Chapter>)
    requires |cs| > 0 && !IsBlank(cs[0].body)
    ensures |Dedup(cs)| > 0 && Dedup(cs)[0] == cs[0]
    decreases |cs|
  {
    var n := |cs| - 1;
    var front := cs[..n];
    var kept := Dedup(front);
    var c := cs[n];
    var keep := !HasTitle(kept, c.title) && !IsBlank(c.body);
    assert Dedup(cs) == if keep then kept + [c] else kept;
    if n > 0 {
      DedupKeepsHead(front);
    }
  }

  /** With sorting off the 前言 chapter, when there is one, comes first
      and carries key (0, 0). */
  lemma PrologueFirst(conv: Converter, content: string)
    requires !IsBlank(content) && |KeptMarkers(content)| > 0
    requires !IsBlank(PySlice(content, 0, KeptMarkers(content)[0].start))
    ensures var r := ParseChapters(conv, content, false);
      |r| > 0 && r[0] == Chapter(PrologueTitle, Strip(PySlice(content, 0, KeptMarkers(content)[0].start)), SortKey(0, Num(0)))
  {
    var ms := KeptMarkers(content);
    var head := PySlice(content, 0, ms[0].start);
    var pro := Prologue(content, ms);
    var cs := ChapterList(conv, content, ms);
    assert cs[0] == pro[0];
    StripEmptyIffBlank(head);
    StripIdempotent(head);
    StripEmptyIffBlank(Strip(head));
    DedupKeepsHead(cs);
  }

  /** Deduplicating and sorting lose no title: a title is in the result
      exactly when some chapter with it has a non-blank body. */
  lemma FinalizeTitles(cs: seq<Chapter>, sorting: bool, t: string)
    ensures HasTitle(Finalize(cs, sorting), t) <==> LiveTitle(cs, |cs|, t)
  {
    DedupTitles(cs, t);
    if sorting {
      HasTitlePermuted(Dedup(cs), Finalize(cs, sorting), t);
    }
  }

  /** Rearranging chapters does not change which titles occur. */
  lemma HasTitlePermuted(a: seq<Chapter>, b: seq<Chapter>, t: string)
    requires multiset(a) == multiset(b)
    ensures HasTitle(a, t) <==> HasTitle(b, t)
  {
    if HasTitle(a, t) {
      var k :| 0 <= k < |a| && a[k].title == t;
      assert a[k] in multiset(b);
      var m :| 0 <= m < |b| && b[m] == a[k];
    }
    if HasTitle(b, t) {
      var k :| 0 <= k < |b| && b[k].title == t;
      assert b[k] in multiset(a);
      var m :| 0 <= m < |a| && a[m] == b[k];
    }
  }


  // ---------------------------------------------------------------------
  // `parse_chapters`, earlier generation (`txt_to_epub.py`)

  /** The volume carried into chapter `k` of the earlier generation: the
      previous chapter's volume, whatever its sign, else `init`. */
  function LegacyCarried(cs: seq<Chapter>, k: nat, init: int): int
    requires k <= |cs|
  {
    if k == 0 then init else cs[k - 1].key.volume
  }

  ghost predicate LegacyKeysCarried(r: seq<Chapter>, read: (string, int) -> SortKey, current: int) {
    forall k :: 0 <= k < |r| ==> r[k].key == read(r[k].title, LegacyCarried(r, k, current))
  }

  /** Chapters from piece `i` on in the earlier generation: every piece
      gives a chapter, empty or not, and a convertible volume header always
      replaces the carried volume. */
  function LegacyNumbered(read: (string, int) -> SortKey, ps: seq<Piece>, i: nat, current: int): (r: seq<Chapter>)
    requires i <= |ps|
    ensures |r| == |ps| - i
    ensures forall k :: 0 <= k < |r| ==> r[k].title == ps[i + k].title && r[k].body == ps[i + k].body
    decreases |ps| - i
  {
    if i == |ps| then []
    else
      var key := read(ps[i].title, current);
      [Chapter(ps[i].title, ps[i].body, key)] + LegacyNumbered(read, ps, i + 1, key.volume)
  }

  /** Every chapter's key is its title read with the previous chapter's
      volume; a bare volume header with an empty body still moves the
      carried volume. */
  lemma {:induction false} LegacyKeys(read: (string, int) -> SortKey, ps: seq<Piece>, i: nat, current: int)
    requires i <= |ps|
    ensures LegacyKeysCarried(LegacyNumbered(read, ps, i, current), read, current)
    decreases |ps| - i
  {
    if i < |ps| {
      var key := read(ps[i].title, current);
      LegacyKeys(read, ps, i + 1, key.volume);
      var rest := LegacyNumbered(read, ps, i + 1, key.volume);
      var r := [Chapter(ps[i].title, ps[i].body, key)] + rest;
      assert LegacyNumbered(read, ps, i, current) == r;
      forall k | 0 < k < |r| ensures r[k].key == read(r[k].title, LegacyCarried(r, k, current)) {
        assert r[k] == rest[k - 1];
        if k > 1 {
          assert r[k - 1] == rest[k - 2];
        }
      }
    }
  }

  /** `_build_chapter_list` of the earlier generation before its final
      step. */
  function LegacyChapterList(conv: Converter, content: string, ms: seq<Marker>): seq<Chapter>
    requires |ms| > 0
  {
    Prologue(content, ms) + LegacyNumbered(Reading(conv), Pieces(content, ms), 0, 0)
  }

  /** `TextParser.parse_chapters(content, force_sort)` of
      `txt_to_epub.py`: every match is kept, and a text without matches
      gives one 正文 chapter, or none when it is blank. */
  function LegacyParseChapters(conv: Converter, content: string, forceSort: bool): (r: seq<Chapter>)
    ensures |Markers(WithoutDigitStart, content)| == 0 ==>
      r == if IsBlank(content) then [] else [WholeText(Strip(content))]
    ensures |Markers(WithoutDigitStart, content)| > 0 ==>
      && DistinctTitles(r)
      && (forall k :: 0 <= k < |r| ==> !IsBlank(r[k].body))
      && ((EnableSorting || forceSort) ==> SortedBy(r, KeyOf, KeyLess))
      && (!(EnableSorting || forceSort) ==>
            r == Dedup(LegacyChapterList(conv, content, Markers(WithoutDigitStart, content))))
  {
    var ms := Markers(WithoutDigitStart, content);
    if |ms| == 0 then
      StripEmptyIffBlank(content);
      if Strip(content) != "" then [WholeText(Strip(content))] else []
    else
      Finalize(LegacyChapterList(conv, content, ms), EnableSorting || forceSort)
  }
}

/** The `(volume, chapter)` sort key of the offset-based parser, Python's
    tuple order on it, and how a title is read into one
    (`_parse_chapter_numbers`). */
module SortKeys {
  import opened Wrappers
  import opened Patterns
  import opened HeadingLines
  import opened Ordering

  /** The chapter part of a key: a number, or `float('inf')` for a title
      that does not carry one. */
  datatype ChapterNo = Num(n: int) | Inf

  datatype SortKey = SortKey(volume: int, chapter: ChapterNo)

  /** `cn2an.cn2an(s, "smart")`: a numeral string to an integer, or None
      where the library raises.  Its disambiguation rules are not part of
      this model; every operation takes it as a parameter. */
  type Converter = string -> Option<int>

  /** Python's `<` between two chapter parts: numbers by value, and
      infinity above every number. */
  predicate ChapterLess(a: ChapterNo, b: ChapterNo) {
    match a
    case Inf => false
    case Num(x) => b.Inf? || x < b.n
  }

  /** Python's `<` between two `(volume, chapter)` tuples. */
  predicate KeyLess(a: SortKey, b: SortKey) {
    a.volume < b.volume || (a.volume == b.volume && ChapterLess(a.chapter, b.chapter))
  }

  /** The key order is a strict total order, so sorting by it is well
      defined. */
  lemma KeyLessIsStrictTotalOrder()
    ensures StrictTotalOrder(KeyLess)
  {
    forall a: SortKey, b: SortKey | a != b ensures KeyLess(a, b) || KeyLess(b, a) {
      if a.volume == b.volume {
        assert a.chapter != b.chapter;
      }
    }
  }

  /** Within one volume the header (chapter part 0) comes before every
      positively numbered chapter, and every numbered chapter comes before
      the unnumbered ones. */
  lemma VolumeOrder(v: int, c: int)
    ensures c > 0 ==> KeyLess(SortKey(v, Num(0)), SortKey(v, Num(c)))
    ensures KeyLess(SortKey(v, Num(c)), SortKey(v, Inf))
    ensures !KeyLess(SortKey(v, Inf), SortKey(v, Num(c)))
    ensures forall w :: v < w ==> KeyLess(SortKey(v, Inf), SortKey(w, Num(c)))
  {
  }

  /** The number a pattern's captured numeral converts to, or None when the
      pattern does not occur in the title or the conversion raises. */
  function Converted(conv: Converter, p: Pattern, title: string): Option<int> {
    match Group1(p, title)
    case None => None
    case Some(g) => conv(g)
  }

  /** `_parse_chapter_numbers(title, current_volume)`: the volume comes
      from a convertible `第…卷` and otherwise stays `current`; the chapter
      part comes from a convertible `第…[章回节集]`, else is 0 for a
      volume header, else infinity. */
  function ParseNumbers(conv: Converter, title: string, current: int): (r: SortKey)
    ensures r.volume == Converted(conv, VolumeTitle, title).GetOr(current)
    ensures r.chapter.Inf? <==>
      Converted(conv, VolumeTitle, title).None? && Converted(conv, ChapterTitle, title).None?
    ensures Converted(conv, ChapterTitle, title).Some? ==>
      r.chapter == Num(Converted(conv, ChapterTitle, title).value)
    ensures Converted(conv, VolumeTitle, title).Some? && Converted(conv, ChapterTitle, title).None? ==>
      r.chapter == Num(0)
  {
    var vol := Converted(conv, VolumeTitle, title);
    var chap := Converted(conv, ChapterTitle, title);
    var v := if vol.Some? then vol.value else current;
    var c := if vol.Some? then Num(0) else Inf;
    SortKey(v, if chap.Some? then Num(chap.value) else c)
  }

  /** `_parse_chapter_numbers` as a value, for the operations that number
      a list of titles. */
  function Reading(conv: Converter): (read: (string, int) -> SortKey)
    ensures forall t, v :: read(t, v) == ParseNumbers(conv, t, v)
  {
    (t, v) => ParseNumbers(conv, t, v)
  }

  /** A title that neither pattern converts keeps the carried volume and
      sorts after every numbered chapter of that volume. */
  lemma UnnumberedSortsLast(conv: Converter, title: string, current: int, c: int)
    requires Converted(conv, VolumeTitle, title).None? && Converted(conv, ChapterTitle, title).None?
    ensures ParseNumbers(conv, title, current) == SortKey(current, Inf)
    ensures KeyLess(SortKey(current, Num(c)), ParseNumbers(conv, title, current))
  {
  }

  /** Which number a title's key carries does not depend on the carried
      volume, only its volume part does, and only when the title names no
      convertible volume. */
  lemma CarriedVolumeOnlyFillsIn(conv: Converter, title: string, a: int, b: int)
    ensures ParseNumbers(conv, title, a).chapter == ParseNumbers(conv, title, b).chapter
    ensures Converted(conv, VolumeTitle, title).Some? ==>
      ParseNumbers(conv, title, a) == ParseNumbers(conv, title, b)
  {
  }
}

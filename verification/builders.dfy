/** The two `create_chapter_items` of the book builders, which take the
    merged chapter strings (title line, newline, body) and turn each into
    one page of the book, in input order. */
module Builders {
  import opened Text
  import opened Numerals

  // ---------------------------------------------------------------------
  // Splitting a chapter string
  // ---------------------------------------------------------------------

  /** `lines[0]` of `chapter.split('\n')`: the text before the first
      newline.  `split` never returns an empty list, so the numbered
      fallback title is never used. */
  function Title(chapter: string): (t: string)
    ensures '\n' !in t
    ensures t == chapter[..IndexOf(chapter, '\n')]
  {
    SplitHead(chapter, '\n');
    Split(chapter, '\n')[0]
  }

  /** The body lines of the paragraph builder: every line after the
      title, or a single empty line when there is none. */
  function BodyLines(chapter: string): (lines: seq<string>)
    ensures |lines| >= 1
    ensures forall k :: 0 <= k < |lines| ==> '\n' !in lines[k]
  {
    var parts := Split(chapter, '\n');
    if |parts| > 1 then parts[1..] else [""]
  }

  /** The body text of the line-break builder: the lines after the title
      joined again, or "" when there is none. */
  function BodyText(chapter: string): string {
    var parts := Split(chapter, '\n');
    if |parts| > 1 then Join(parts[1..], "\n") else ""
  }

  /** The title and the body text are the two sides of the first newline:
      nothing of the chapter is lost. */
  lemma TitleBodySplit(chapter: string)
    ensures IndexOf(chapter, '\n') < |chapter| ==> chapter == Title(chapter) + "\n" + BodyText(chapter)
    ensures IndexOf(chapter, '\n') == |chapter| ==> Title(chapter) == chapter && BodyText(chapter) == ""
  {
    if IndexOf(chapter, '\n') < |chapter| {
      SplitAtNewline(chapter);
    } else {
      SplitWithoutNewline(chapter);
    }
  }

  lemma SplitAtNewline(chapter: string)
    requires IndexOf(chapter, '\n') < |chapter|
    ensures chapter == Title(chapter) + "\n" + BodyText(chapter)
  {
    var i := IndexOf(chapter, '\n');
    SplitTail(chapter, '\n');
    assert "\n" == ['\n'];
    assert BodyText(chapter) == chapter[i + 1..];
    assert chapter == chapter[..i] + "\n" + chapter[i + 1..];
  }

  lemma SplitWithoutNewline(chapter: string)
    requires IndexOf(chapter, '\n') == |chapter|
    ensures Title(chapter) == chapter && BodyText(chapter) == ""
  {
    SplitTail(chapter, '\n');
    assert chapter[..|chapter|] == chapter;
  }

  /** The body lines joined again are the body text. */
  lemma BodyLinesJoin(chapter: string)
    ensures Join(BodyLines(chapter), "\n") == BodyText(chapter)
  {
    if |Split(chapter, '\n')| <= 1 {
      assert Join([""], "\n") == "";
    }
  }

  // ---------------------------------------------------------------------
  // Pages, spine and table of contents
  // ---------------------------------------------------------------------

  /** An HTML page of the book: title, file name and content. */
  datatype Item = Item(title: string, file: string, content: string)

  /** A table-of-contents entry: target file, label and identifier. */
  datatype Link = Link(href: string, title: string, uid: string)

  /** What a builder adds to the book: the reading order and, for the
      paragraph builder, the table of contents. */
  datatype Book = Book(spine: seq<Item>, toc: seq<Link>)

  /** `f'chapter_{i + 1}.xhtml'`, without zero padding. */
  function ChapterFile(number: nat): string {
    "chapter_" + Decimal(number) + ".xhtml"
  }

  /** `f'chap_{i + 1}'`. */
  function ChapterUid(number: nat): string {
    "chap_" + Decimal(number)
  }

  /** Different chapter numbers give different files. */
  lemma ChapterFileInjective(a: nat, b: nat)
    requires a != b
    ensures ChapterFile(a) != ChapterFile(b)
  {
    var fa, fb := ChapterFile(a), ChapterFile(b);
    if fa == fb {
      assert fa[8..|fa| - 6] == Decimal(a);
      assert fb[8..|fb| - 6] == Decimal(b);
      DecimalInjective(a, b);
    }
  }

  /** Different chapter numbers give different identifiers. */
  lemma ChapterUidInjective(a: nat, b: nat)
    requires a != b
    ensures ChapterUid(a) != ChapterUid(b)
  {
    var ua, ub := ChapterUid(a), ChapterUid(b);
    if ua == ub {
      assert ua[5..] == Decimal(a);
      assert ub[5..] == Decimal(b);
      DecimalInjective(a, b);
    }
  }

  // ---------------------------------------------------------------------
  // The paragraph builder
  // ---------------------------------------------------------------------

  /** What an empty line becomes, so that it still takes up space. */
  const EmptyPara := "<p>&nbsp;</p>"

  /** One body line as a paragraph. */
  function LinePara(line: string): string {
    if line != "" then "<p>" + line + "</p>" else EmptyPara
  }

  /** The paragraphs of a chapter, one per body line: a single-line
      chapter gets one, any other as many as it has lines after the
      title. */
  function Paragraphs(chapter: string): (ps: seq<string>)
    ensures |ps| == if |Split(chapter, '\n')| > 1 then |Split(chapter, '\n')| - 1 else 1
    ensures forall k :: 0 <= k < |ps| ==> ps[k] == LinePara(BodyLines(chapter)[k])
  {
    var lines := BodyLines(chapter);
    seq(|lines|, k requires 0 <= k < |lines| => LinePara(lines[k]))
  }

  /** Each paragraph gives back its line: the text between the tags.  The
      placeholder stands for an empty line and for a line that is the
      placeholder's own text. */
  lemma LineParaRecovers(line: string)
    ensures line != "" ==> LinePara(line)[3..|LinePara(line)| - 4] == line
    ensures LinePara(line) == EmptyPara <==> line == "" || line == "&nbsp;"
  {
    if line != "" {
      var p := LinePara(line);
      assert p[3..|p| - 4] == line;
      if p == EmptyPara {
        assert line == EmptyPara[3..|EmptyPara| - 4];
        assert EmptyPara[3..|EmptyPara| - 4] == "&nbsp;";
      }
      if line == "&nbsp;" {
        assert p == "<p>" + "&nbsp;" + "</p>";
      }
    }
  }

  /** The page of the `i`-th chapter (from 0) of the paragraph builder. */
  function ParagraphItem(chapter: string, i: nat): Item {
    Item(Title(chapter), ChapterFile(i + 1),
      "<h1>" + Title(chapter) + "</h1>" + Join(Paragraphs(chapter), "\n"))
  }

  /** `create_chapter_items` of the paragraph builder: the pages in input
      order, each also entered in the table of contents under its title. */
  function ParagraphBook(chapters: seq<string>): (b: Book)
    ensures |b.spine| == |chapters| && |b.toc| == |chapters|
    ensures forall i :: 0 <= i < |chapters| ==>
      && b.spine[i] == ParagraphItem(chapters[i], i)
      && b.toc[i] == Link(b.spine[i].file, b.spine[i].title, ChapterUid(i + 1))
  {
    var spine := seq(|chapters|, i requires 0 <= i < |chapters| => ParagraphItem(chapters[i], i));
    var toc := seq(|chapters|, i requires 0 <= i < |chapters| =>
      Link(ChapterFile(i + 1), Title(chapters[i]), ChapterUid(i + 1)));
    Book(spine, toc)
  }

  /** Every page and every table-of-contents entry of a book is its own:
      no two share a file or an identifier. */
  lemma ParagraphBookDistinct(chapters: seq<string>)
    ensures var b := ParagraphBook(chapters);
      && (forall i, j :: 0 <= i < j < |b.spine| ==> b.spine[i].file != b.spine[j].file)
      && (forall i, j :: 0 <= i < j < |b.toc| ==> b.toc[i].uid != b.toc[j].uid)
  {
    var b := ParagraphBook(chapters);
    forall i, j | 0 <= i < j < |chapters| ensures b.spine[i].file != b.spine[j].file {
      assert b.spine[i].file == ChapterFile(i + 1) && b.spine[j].file == ChapterFile(j + 1);
      ChapterFileInjective(i + 1, j + 1);
    }
    forall i, j | 0 <= i < j < |chapters| ensures b.toc[i].uid != b.toc[j].uid {
      assert b.toc[i].uid == ChapterUid(i + 1) && b.toc[j].uid == ChapterUid(j + 1);
      ChapterUidInjective(i + 1, j + 1);
    }
  }

  // ---------------------------------------------------------------------
  // The line-break builder
  // ---------------------------------------------------------------------

  /** What each newline of the body becomes. */
  const LineBreak := "<br><br>"

  /** `chapter_content.replace('\n', '<br><br>') if chapter_content else ''`. */
  function Breaks(body: string): string {
    if body != "" then ReplaceAll(body, "\n", LineBreak) else ""
  }

  /** The page of the `i`-th chapter (from 0) of the line-break builder. */
  function BreakItem(chapter: string, i: nat): Item {
    Item(Title(chapter), ChapterFile(i + 1),
      "<h1>" + Title(chapter) + "</h1><p>" + Breaks(BodyText(chapter)) + "</p>")
  }

  /** `create_chapter_items` of the line-break builder: the pages in input
      order, with no table of contents. */
  function BreakBook(chapters: seq<string>): (b: Book)
    ensures |b.spine| == |chapters| && |b.toc| == 0
    ensures forall i :: 0 <= i < |chapters| ==> b.spine[i] == BreakItem(chapters[i], i)
  {
    Book(seq(|chapters|, i requires 0 <= i < |chapters| => BreakItem(chapters[i], i)), [])
  }

  /** The split after the first separator is the split of what follows
      it. */
  lemma SplitRest(s: string, c: char)
    requires IndexOf(s, c) < |s|
    ensures Split(s, c)[1..] == Split(s[IndexOf(s, c) + 1..], c)
  {
  }

  /** Replacing the newlines of the body is joining the body lines with the
      break: the two builders put the same lines on the page, one as
      paragraphs and the other between breaks. */
  lemma BreaksJoinLines(chapter: string)
    ensures Breaks(BodyText(chapter)) == Join(BodyLines(chapter), LineBreak)
  {
    var parts := Split(chapter, '\n');
    var i := IndexOf(chapter, '\n');
    SplitTail(chapter, '\n');
    if |parts| > 1 {
      var rest := chapter[i + 1..];
      assert BodyText(chapter) == rest;
      SplitRest(chapter, '\n');
      ReplaceCharIsJoin(rest, '\n', LineBreak);
      assert "\n" == ['\n'];
      if rest == "" {
        assert Split(rest, '\n') == [""];
        assert Join([""], LineBreak) == "";
      }
    } else {
      assert Join([""], LineBreak) == "";
    }
  }
}

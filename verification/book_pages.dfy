/** The pages of the ebook: one per chapter, or a single fallback page
    when the parser found none. */
module BookPages {
  import opened Text
  import opened Pages

  /** A chapter as the generator receives it: a title and its content. */
  datatype ChapterData = ChapterData(title: string, content: string)

  /** One page of the book: its title, its file and its paragraph
      markup. */
  datatype Page = Page(title: string, file: string, body: string)

  /** The title of the fallback page. */
  const FallbackTitle := "正文"

  /** `_create_chapter(chapter, index)`. */
  function ChapterPage(c: ChapterData, index: nat): (p: Page)
    ensures |c.title| <= TitleLimit ==> p.title == c.title
    ensures |c.title| > TitleLimit ==> p.title == c.title[..TitleLimit]
    ensures p.file == PageFile(index)
    ensures p.body == CleanContent(c.content)
  {
    Page(PageTitle(c.title), PageFile(index), CleanContent(c.content))
  }

  /** `_add_fallback_chapter`: the whole text on one page in the first
      file. */
  function FallbackPage(fullContent: string): Page {
    Page(FallbackTitle, PageFile(1), CleanContent(fullContent))
  }

  /** `_add_chapters_to_epub`: with no chapters, the fallback page alone;
      otherwise one page per chapter, numbered from 1 in input order, each
      titled with at most the first hundred characters of the chapter's
      title. */
  function BookPages(chapters: seq<ChapterData>, fullContent: string): (r: seq<Page>)
    ensures |chapters| == 0 ==> r == [FallbackPage(fullContent)]
    ensures |chapters| > 0 ==> |r| == |chapters|
    ensures |chapters| > 0 ==> forall i :: 0 <= i < |r| ==>
      && r[i].file == PageFile(i + 1)
      && r[i].title == (if |chapters[i].title| <= TitleLimit then chapters[i].title
                        else chapters[i].title[..TitleLimit])
      && r[i].body == CleanContent(chapters[i].content)
  {
    if |chapters| == 0 then [FallbackPage(fullContent)]
    else seq(|chapters|, i requires 0 <= i < |chapters| => ChapterPage(chapters[i], i + 1))
  }

  /** When no kept line of the chapter holds `<`, the page body is the
      markup `_clean_content` as written produces. */
  lemma ChapterPageAsWritten(c: ChapterData, index: nat)
    requires NoTagInKept(c.content)
    ensures ChapterPage(c, index).body == CleanContentAsWritten(c.content)
  {
    CleanContentAgrees(c.content);
  }

  /** No two pages of a book share a file. */
  lemma PageFilesDistinct(chapters: seq<ChapterData>, fullContent: string)
    ensures var r := BookPages(chapters, fullContent);
      forall i, j :: 0 <= i < j < |r| ==> r[i].file != r[j].file
  {
    var r := BookPages(chapters, fullContent);
    forall i, j | 0 <= i < j < |r| ensures r[i].file != r[j].file {
      PageFileInjective(i + 1, j + 1);
    }
  }
}

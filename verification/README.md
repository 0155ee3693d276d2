# Chapter segmentation of qinglong-txt-to-epub, in Dafny

qinglong-txt-to-epub turns plain-text novels into EPUB books. This project
models the part that decides what the chapters are, and proves properties of
that model:

- **The line-oriented parser**, in both generations. This is
  `is_chapter_title`, `add_chapter_marker_to_line` and
  `parse_chapters_from_file` in `src/chapter_parser.py` (current) and
  `epub/src/chapter_parser.py` (legacy).
  - The fifteen numbered-heading regular expressions are one generic
    pattern shape, `lead gap numeral+ [gap keyword] [(?!\S)]`.
  - Each is matched by a greedy scan. The scan is proved equal to the
    regular expression's meaning.
  - The line loop is a fold over classified lines. It closes a chapter at a
    heading, and at two blank lines in a row when double-blank splitting is
    on.
- **The offset-based `TextParser`**, in both generations: `epub/text_parser.py`
  (copied into `txt_to_epub2.py`) and the earlier `txt_to_epub.py`.
  - The multi-line `chapter_regex_line.finditer` is a scan over line starts.
  - After it come the 50-character proximity filter, the 前言 prologue and
    the cut into title and body.
  - Each chapter gets a `(volume, chapter)` key through
    `_parse_chapter_numbers`, carrying the volume forward.
  - Then the title-keyed deduplication, and an optional stable sort.
- **The folder merge of `run_qinglong.py`**:
  - files are ordered by modification time;
  - a later chapter with the same title replaces the body but keeps its
    place;
  - the batch is tallied as processed, failed or skipped;
  - the notification gets its title.
- **The helpers**:
  - `natural_sort_key` and the merged-text order of `txt_to_epub2.py` and
    `txt_to_epub.py`;
  - `find_common_book_name` and `needs_update`;
  - `_clean_content`, page titles, page file names and the fallback page;
  - the cover type;
  - the two `create_chapter_items` of the book builders.

Python's sorts are stable insertion sorts here. Their three promises are
proved: permutation, order by key, and stability per key.

Each module follows one part of the program:

| file | module | models |
|---|---|---|
| `text.dfy` | Text | `str.strip`, `split`, `join`, `replace`, slicing |
| `patterns.dfy` | Patterns | the numbered-heading regular expressions |
| `classifier.dfy` | Classifier | `is_chapter_title`, `add_chapter_marker_to_line` |
| `line_segmenter.dfy` | LineSegmenter | `parse_chapters_from_file` |
| `heading_lines.dfy` | HeadingLines | `volume_regex`, `chapter_regex`, `chapter_regex_line.finditer` |
| `sort_keys.dfy` | SortKeys | `_parse_chapter_numbers` and the tuple order |
| `offset_parser.dfy` | OffsetParser | `TextParser.parse_chapters` in both generations |
| `ordering.dfy` | Ordering | `sorted(..., key=...)` |
| `natural_key.dfy` | NaturalKey | `natural_sort_key`, the merged-text order |
| `book_name.dfy` | BookName | `find_common_book_name` |
| `freshness.dfy` | Freshness | `needs_update` |
| `merge.dfy` | Merge | `get_source_mtime`, `merge_chapters_from_folder`, the batch loop and notification title |
| `pages.dfy`, `book_pages.dfy` | Pages, BookPages | `_clean_content`, `_create_chapter`, `_add_fallback_chapter`, the cover type |
| `builders.dfy` | Builders | both `create_chapter_items` |

`numerals.dfy`, `seqs.dfy` and `wrappers.dfy` are shared helpers. The
`ClassifierExamples` module works concrete lines through both classifier
generations.

Several facts come from outside the model and are taken as parameters:

- The numeral reader `cn2an.cn2an(s, "smart")` is a function
  `string -> Option<int>`. None stands for "raises".
- File contents arrive as decoded strings, or None where reading fails.
- Modification times are integers, or None where `getmtime` raises.

## Model

| member | source | states |
|---|---|---|
| Classifier.Classify | src/chapter_parser.py:8-73 | A line whose stripped text starts with `#` or `@` is always a heading. Any other line's title is its stripped text. The title never has surrounding whitespace. |
| Classifier.MarkerTitle | src/chapter_parser.py:17-19 | A marker line's title is what follows its whole leading run of `#`/`@`, stripped. |
| Classifier.ClassifyIsRegexReading | src/chapter_parser.py:21-73 | A line is a heading exactly when it carries a marker or one of the fifteen regular expressions of rules 2 to 5 matches at the start of its stripped text. |
| Classifier.RuleWellFormed | src/chapter_parser.py:22-66 | In every rule of both generations, the numeral class holds no whitespace and no keyword. So the greedy scan cannot miss a backtracking match. |
| Classifier.HeadingTokenStandsAlone | src/chapter_parser.py:22-66 | When the current classifier accepts an unmarked line, the matched heading token is followed by whitespace or the end of the line (the `(?!\S)` guard). |
| Classifier.ReadingCarriesOver | epub/src/chapter_parser.py:17-61 | A match of a current rule is a match of its legacy counterpart, provided the numerals used are ones the legacy class also has. |
| Classifier.CurrentIsNarrowerThanLegacy | src/chapter_parser.py:21-71 | On lines using only numerals the legacy class has, every line the current classifier takes as a heading, the legacy one takes too. |
| Classifier.AddMarker | src/chapter_parser.py:96-100 | The result starts with the marker. An already-marked line is unchanged. Otherwise the marker is prepended to the whole line. |
| ClassifierExamples.ExampleDigitChapter | src/chapter_parser.py:23 | "第1章 黎明" is a heading for the current rules. |
| ClassifierExamples.ExampleEnglishChapter | src/chapter_parser.py:25 | "CHAPTER 7" is a heading, because the English rules ignore case. |
| ClassifierExamples.ExampleRunOnHeading | src/chapter_parser.py:23 | "第1章课" is matched by the legacy `第\s*\d+\s*章` and rejected by its guarded successor. |
| ClassifierExamples.ExampleRunOnRejected | src/chapter_parser.py:22-66 | "第1章节课" matches none of the fifteen current rules. |
| ClassifierExamples.ExampleLiang | src/chapter_parser.py:27 | "第两章" is a heading for the current classifier but not for the legacy one, whose numeral class lacks 两. |
| ClassifierExamples.ExampleNumberedItem | src/chapter_parser.py:64 | "1.2" is a legacy heading. The current `(?!\S)` guard rejects it. |
| ClassifierExamples.ExampleEnumeration | src/chapter_parser.py:65 | "一、标题" is a legacy heading. The current guard rejects it. |
| ClassifierExamples.ExampleGluedChapter | src/chapter_parser.py:25 | "Chapter10x" matches the legacy `Chapter\s*\d+` but not the guarded rule. |
| Patterns.MatchAtSound | src/chapter_parser.py:31-33 | Every match the scan reports is a match of the regular expression. |
| Patterns.MatchAtComplete | src/chapter_parser.py:31-33 | Whenever the regular expression can match, the scan finds a match. With a keyword or guard, it finds that same match. |
| Patterns.FirstMatch | epub/text_parser.py:111 | `re.search` finds the leftmost position where the pattern matches, and None only when it matches nowhere. |
| Patterns.Group1 | epub/text_parser.py:111-114 | The captured group is present exactly when the search succeeds. It is a non-empty run of the numeral class. |
| HeadingLines.TitlePatternsWellFormed | epub/config.py:46-54 | `volume_regex`, `chapter_regex` and the first two alternatives of `chapter_regex_line` are well formed over the shared numeral class. |
| HeadingLines.DigitStartIsRegexReading | epub/config.py:58 | The closed form of the digit-start alternative `\d+\s*[\.、]?\s*[^\.]` holds exactly when some backtracking split matches. |
| HeadingLines.BlankIsNoHeading | epub/config.py:49-62 | No alternative of the line expression matches a blank line. |
| HeadingLines.ScanBounds | epub/text_parser.py:43 | Every match of `finditer` is non-empty and lies inside the text. |
| HeadingLines.ScanOrdered | epub/text_parser.py:43-46 | Matches come in text order and do not overlap, so the sort by start position keeps them as they are. |
| HeadingLines.ScanSound | epub/config.py:49-62 | Under the one-line reading, every match is a run of blank lines followed by one line whose text, after its leading whitespace, is a heading. Python can carry a match onto the next line (see `HeadingLines.Scan` under Left out). |
| HeadingLines.ScanComplete | epub/config.py:49-62 | Every heading line at or after the starting point ends some match: the scan misses no heading. |
| HeadingLines.MatchTitle | epub/text_parser.py:83 | The stripped title of a match is its heading line, stripped. The blank lines the match begins with do not show. |
| HeadingLines.TitleIsOneLine | epub/text_parser.py:83 | Under the one-line reading, a title never holds a newline. Python's titles can (see `HeadingLines.Scan` under Left out). |
| LineSegmenter.FileLines | src/chapter_parser.py:125-126 | Iterating a file yields lines without newlines that join back into the text. A final newline ends the last line. An empty text yields no lines. |
| LineSegmenter.ReadLine | src/chapter_parser.py:127-135 | A line is blank, a heading or body text, and exactly one of them. A body line keeps its stripped text, which is non-empty. |
| LineSegmenter.HeadingEntry | epub/src/chapter_parser.py:111-126 | With marking on, a heading's entry starts with the marker. In the legacy generation with marking off, it is the stripped line itself. |
| LineSegmenter.TextIsKept | src/chapter_parser.py:126-174 | The non-empty lines of all chapters, in order, are exactly the non-empty entries of the input's non-blank lines. No text is dropped, repeated or reordered. |
| LineSegmenter.ChaptersNonEmpty | src/chapter_parser.py:143-171 | No chapter is ever closed empty. |
| LineSegmenter.OpenOnceStarted | src/chapter_parser.py:150-167 | Without double-blank splitting, a chapter is open exactly once some non-blank line has been read. |
| LineSegmenter.ClosedByTwoBlanks | src/chapter_parser.py:155-167 | With double-blank splitting on (the default), no chapter is open exactly when no line was read, the only line read is blank, or the last two lines read are blank. While a chapter is open, the blank counter is 1 exactly when the last line was blank. |
| LineSegmenter.OpenUnlessIdle | src/chapter_parser.py:129-167 | In either setting, no chapter is open exactly when the lines read leave the loop idle, as the two lemmas above state. |
| LineSegmenter.ChapterHeads | src/chapter_parser.py:129-167 | In either setting, a chapter begins exactly at each heading and at each body line read while no chapter is open: the first non-blank line, and with double-blank splitting every body line after two blank lines. The chapters' first lines are those lines' entries, in order, one chapter each. |
| LineSegmenter.NoDoubleBlankInsideChapter | src/chapter_parser.py:155-167 | With double-blank splitting on, and no heading whose entry is empty, no chapter holds two blank lines in a row. While a chapter is open, the blank counter says whether its last line is blank. A heading with an empty entry is the exception (see LineSegmenter.MarkerOnlyChapter). |
| LineSegmenter.MarkerOnlyLine | src/chapter_parser.py:14-19 | A line holding only `#` and `@` is a heading whose entry is empty when marking is off. |
| LineSegmenter.MarkerOnlyChapter | src/chapter_parser.py:129-167 | With double-blank splitting on and marking off, the file of a marker-only line and an empty line, such as "#\n\n" under the defaults, becomes one chapter of two empty lines in a row. The double-blank rule does not count the empty heading as text. |
| LineSegmenter.EntryNonEmpty | epub/src/chapter_parser.py:107-129 | Every non-blank line yields a non-empty entry in the legacy generation. The same holds in either generation when marking is on with a non-empty marker. |
| OffsetParser.KeepApart | epub/text_parser.py:51-63 | The first match is always kept. Every kept match after it starts more than 50 characters after the end of the kept match before it. |
| OffsetParser.KeptIncreasing | epub/text_parser.py:56-61 | The kept matches keep their input order. |
| OffsetParser.KeptDropped | epub/text_parser.py:57-61 | Every dropped match lies between two consecutive kept matches and starts within 50 characters of the earlier one's end. |
| OffsetParser.DroppedHeadingInBody | epub/text_parser.py:82-86 | The text of a dropped heading lies inside the body of the kept chapter before it, so it is not lost. |
| OffsetParser.Prologue | epub/text_parser.py:77-79 | A 前言 chapter with key (0, 0) exists exactly when the text before the first kept match is not blank. It holds that text, stripped. |
| OffsetParser.Numbered | epub/text_parser.py:82-101 | Chapters with an empty body are skipped, so every chapter produced has a non-empty body. |
| OffsetParser.NumberedPieces | epub/text_parser.py:82-90 | Exactly the pieces with a non-empty body become chapters, in order, keeping their title and body. |
| OffsetParser.NumberedKeys | epub/text_parser.py:93-95 | Each chapter's key is its title read with the carried volume: the last positive volume among earlier chapters, else the starting one. |
| OffsetParser.Dedup | epub/text_parser.py:132-138 | No title repeats, and no kept body is blank. |
| OffsetParser.DedupTitles | epub/text_parser.py:132-138 | A title survives exactly when some chapter with that title has a non-blank body. |
| OffsetParser.DedupIndices | epub/text_parser.py:132-138 | The kept chapters appear in input order, and each is the first chapter of its title with a non-blank body. |
| OffsetParser.DedupComplete | epub/text_parser.py:132-138 | The first chapter of every title that has a non-blank body is kept. |
| OffsetParser.Finalize | epub/text_parser.py:129-149 | Sorting off keeps the deduplicated order. Sorting on gives a stable sort of it by key: a permutation, ordered, and in input order within each key. |
| OffsetParser.FinalizeTitles | epub/text_parser.py:129-149 | Deduplicating and sorting lose no title that has a non-blank chapter. |
| OffsetParser.ParseChapters | epub/text_parser.py:27-37 | A blank text gives one 正文 chapter holding it unchanged. A text without kept matches gives one 正文 chapter holding it stripped. Otherwise titles are distinct, bodies non-blank, sorted when asked, and in deduplicated order when not. |
| OffsetParser.PrologueFirst | epub/text_parser.py:77-79 | With sorting off, a non-blank prologue comes first as 前言 with key (0, 0). |
| OffsetParser.LegacyNumbered | txt_to_epub.py:91-110 | Every match gives a chapter, empty or not, with its title and body in order. |
| OffsetParser.LegacyKeys | txt_to_epub.py:97-110 | Each key reads its title with the volume of the previous chapter, whatever its sign. A bare volume header still moves the carried volume. |
| OffsetParser.LegacyParseChapters | txt_to_epub.py:84-125 | Without matches: no chapter for a blank text, else one 正文 chapter. Otherwise titles are distinct, bodies non-blank, sorted when asked, and in deduplicated order when not. |
| SortKeys.ParseNumbers | epub/text_parser.py:106-127 | The volume comes from a convertible `第…卷`, else stays the carried one. The chapter part comes from a convertible `第…[章回节集]`, else is 0 for a volume header, else infinity. |
| SortKeys.KeyLessIsStrictTotalOrder | epub/text_parser.py:144 | Python's order on `(volume, chapter)` tuples, with infinity above every number, is a strict total order. |
| SortKeys.VolumeOrder | epub/text_parser.py:115 | Within a volume, the header (chapter 0) sorts before every positively numbered chapter, and numbered chapters before unnumbered ones. |
| SortKeys.UnnumberedSortsLast | epub/text_parser.py:108 | A title with no convertible number keeps the carried volume and sorts after every numbered chapter of it. |
| SortKeys.CarriedVolumeOnlyFillsIn | epub/text_parser.py:106-127 | The carried volume never affects the chapter part. It affects nothing when the title names a convertible volume. |
| Ordering.SortPermutes | run_qinglong.py:104 | Sorting keeps every element as often as it occurs. |
| Ordering.SortSorted | epub/text_parser.py:144 | Sorting orders the elements by key. |
| Ordering.SortStable | run_qinglong.py:104 | Elements with equal keys come out in input order. |
| Ordering.SortSpec | txt_to_epub2.py:620 | A sort by a strict total order is a permutation, ordered by key and stable. |
| Ordering.SortSortedIsIdentity | epub/text_parser.py:144 | Sorting an already ordered list changes nothing. |
| Ordering.SortKeepsPairwise | epub/text_parser.py:144 | Sorting preserves any symmetric relation that held between every two elements, such as distinct titles. |
| Ordering.LexIsStrictTotalOrder | utils.py:54-57 | Python's list comparison over a strict total order is a strict total order. |
| Text.StripShape | src/chapter_parser.py:14 | The stripped string is the slice after the leading whitespace. Only whitespace is removed on either side, and the result neither starts nor ends with whitespace. |
| Text.StripIdempotent | src/chapter_parser.py:127 | Stripping an already stripped line changes nothing. |
| Text.StripEmptyIffBlank | src/chapter_parser.py:127-129 | A stripped line is empty exactly when the line is whitespace only. |
| Text.Split | src/epub_builder.py:38 | `split('\n')` is never empty. No part holds the separator, and joining the parts gives the string back. |
| Text.ReplaceCharIsJoin | epub/src/epub_builder.py:31 | Replacing every newline by a string is joining the lines with that string. |
| Text.PySlice | epub/text_parser.py:77 | Python slicing clamps the end to the length, and gives "" for an empty or reversed range. |
| Numerals.DecimalRoundTrip | src/epub_builder.py:54 | Reading back `str(n)` gives `n`. |
| Numerals.DecimalInjective | src/epub_builder.py:54 | Different numbers are written differently. |
| Numerals.ZeroPadShape | epub/ebook_generator.py:119 | `{n:04d}` has width 4 unless the number is wider, and reads back as `n`. |
| Numerals.DecimalWidth | epub/ebook_generator.py:119 | Numbers below 10000 take at most four digits. |
| NaturalKey.SplitDigits | utils.py:56-57 | `re.split(r'(\d+)', s)` alternates digit-free texts and digit runs, and starts with the text before the first digit. |
| NaturalKey.SplitDigitsGlue | utils.py:57 | The split pieces put back together give the name. |
| NaturalKey.AlternatingPositions | utils.py:56-57 | Texts sit at even positions and digit runs at odd ones. There is an odd number of pieces, and no empty text strictly inside. |
| NaturalKey.Key | utils.py:54-57 | Texts and numbers alternate, starting and ending with a text. Every text is lower-case and digit-free. |
| NaturalKey.KeyIgnoresCase | utils.py:56 | The key does not depend on ASCII case. |
| NaturalKey.KeyLessIsStrictTotalOrder | txt_to_epub2.py:620 | Python's order on natural keys is a strict total order. |
| NaturalKey.NumberedNamesInOrder | txt_to_epub2.py:117-120 | Names that differ only in stem case and a trailing number sort by that number. |
| NaturalKey.Vol2BeforeVol10 | txt_to_epub2.py:117-120 | "vol2" sorts before "Vol10". |
| NaturalKey.ReadOrder | txt_to_epub2.py:620 | The files are a permutation, none before a file with a smaller key, and files with equal keys keep their order. |
| NaturalKey.ReadableIndices | txt_to_epub2.py:623-631 | The positions of the readable files, increasing, and no other positions. |
| NaturalKey.Readable | txt_to_epub2.py:623-631 | The texts kept are exactly the texts of the readable files, one per file, in file order. None is kept only when no file is readable. |
| NaturalKey.MergedText | txt_to_epub2.py:619-633 | Nothing readable gives no text. Otherwise the readable texts, in natural order, are joined with a blank line. |
| NaturalKey.LegacyMergedText | txt_to_epub.py:197-205 | Nothing readable gives the empty text. |
| NaturalKey.ReadOrderReadable | txt_to_epub2.py:623-631 | Sorting does not change whether some file is readable. |
| BookName.CommonPrefix | txt_to_epub2.py:184 | `os.path.commonprefix` starts every name, and no longer string does. |
| BookName.CommonPrefixMaximal | txt_to_epub2.py:184 | Cutting a maximal prefix of all but the last name down to what it shares with the last name gives a maximal prefix of all names. |
| BookName.Cleaned | txt_to_epub2.py:185 | The cleaned prefix is a piece of the prefix and neither starts nor ends with whitespace. |
| BookName.FindBookName | txt_to_epub2.py:179-193 | No names, or a cleaned prefix under two characters, gives the folder name. Otherwise the cleaned prefix is returned, and it occurs in every name. |
| Freshness.NeedsUpdate | utils.py:143-170 | A missing or unreadable output needs rebuilding. Otherwise a rebuild is needed exactly when some source is newer than the output or its time cannot be read. Missing sources are ignored. |
| Merge.SourceMtime | run_qinglong.py:60-83 | A single file gives its own time. An empty folder, or one with any unreadable time, gives 0. Otherwise the result is the largest file time, or 0 when all are below 0. |
| Merge.Latest | run_qinglong.py:74-79 | The running maximum from 0 bounds every time and is 0 or one of them. |
| Merge.OrderSources | run_qinglong.py:97-105 | Files whose time cannot be read are dropped. The rest are ordered oldest first, and files with equal times keep their listing order. |
| Merge.Extract | run_qinglong.py:124-127 | The title is the text before the first newline and the body the text after it. With no newline, the whole string is the title and the body is "". |
| Merge.ExtractRender | run_qinglong.py:125-140 | Reassembling a title and body and taking them apart again gives them back. |
| Merge.MergeAll | run_qinglong.py:109-132 | The order lists every title once. The map holds exactly the titles seen, each with the body of its last occurrence. |
| Merge.MergePrefix | run_qinglong.py:129-130 | The order only ever grows at the end. |
| Merge.FirstAppearanceOrder | run_qinglong.py:129-130 | Titles are listed in order of first appearance. |
| Merge.FirstIndex | run_qinglong.py:109-130 | A title's first index is the position of its first entry, or the number of entries when it has none. |
| Merge.OrderByFirstIndex | run_qinglong.py:109-130 | The merged order is sorted by first index: one title comes before another exactly when its first entry does. |
| Merge.LastBodyIsLast | run_qinglong.py:132 | A title's body comes from an entry with that title and body that no later entry of that title follows. |
| Merge.AssembleMerged | run_qinglong.py:137-143 | The reassembled list has one chapter per distinct title, ordered by where each title first appears. Each carries the last body of its title. |
| Merge.MergeFolder | run_qinglong.py:85-143 | An empty folder gives no chapters. Otherwise the files, oldest first, merge into one chapter per distinct title, ordered by where each title first appears across the files, each with its last body. |
| Merge.Decide | run_qinglong.py:241-304 | A task is skipped exactly when its source time is 0 or an existing EPUB is at least as new. Otherwise it counts as processed if it builds, else as failed. |
| Merge.CountsAddUp | run_qinglong.py:297-318 | Processed, failed and skipped add up to the number of tasks. |
| Merge.CountZero | run_qinglong.py:360-367 | A count is 0 exactly when no task has that outcome. |
| Merge.RunTasks | run_qinglong.py:231-319 | The loop's counters are the numbers of tasks with each outcome, and they sum to the total. |
| Merge.NotificationTitle | run_qinglong.py:374-383 | The title starts with 小说转换. Any processed book gives 转换成功. Otherwise any failure gives 转换失败. |
| Merge.RunTitle | run_qinglong.py:374-383 | For a summary the loop produced, the generic 执行完毕 never appears. 全部跳过 appears exactly when every one of some tasks was skipped, 未找到文件 exactly when there were none, and 转换成功 exactly when some book was processed. |
| Pages.KeptLines | epub/ebook_generator.py:183-189 | Kept lines are at least two characters long, and there are no more of them than input lines. |
| Pages.KeptLinesFrom | epub/ebook_generator.py:183-189 | Every kept line is some input line stripped. Every input line whose stripped form has two or more characters is kept. |
| Pages.KeptLinesAppend | epub/ebook_generator.py:183-189 | No lines keep nothing, and one more line adds its stripped form at the end exactly when that has two or more characters. So the kept lines are the long-enough stripped lines, in order, each as often as it occurs. |
| Pages.KeptOneLine | epub/ebook_generator.py:183-189 | One line is kept exactly when its stripped form has two or more characters, and it is kept stripped. |
| Pages.KeptLinesConcat | epub/ebook_generator.py:183-189 | The filter works line by line: the lines kept from two runs put together are those kept from the first followed by those kept from the second. |
| Pages.Group | epub/ebook_generator.py:186-199 | The intended paragraphs hold exactly the kept lines, in order. Each starts with the first or a long line, and continues with short lines only. |
| Pages.CleanContent | epub/ebook_generator.py:177-201 | Empty content gives 内容为空. Content with no kept line gives 无有效内容. Otherwise the result is the intended paragraphs, one per output line. |
| Pages.CleanContentAsWritten | epub/ebook_generator.py:177-201 | The as-written version gives the same two notices. |
| Pages.FormatAsWritten | epub/ebook_generator.py:186-199 | The as-written loop produces paragraphs exactly when some line is kept. |
| Pages.AsWrittenAgrees | epub/ebook_generator.py:192-197 | When no kept line contains `<`, the as-written loop builds exactly the intended paragraphs. |
| Pages.CleanContentAgrees | epub/ebook_generator.py:177-201 | When no kept line contains `<`, `_clean_content` as written returns the intended markup. |
| Pages.ClosingTagInLine | epub/ebook_generator.py:195-197 | A short line after a line ending in `</p>` is inserted twice by the as-written loop. The intended paragraph holds it once. |
| Pages.IntendedTwo | epub/ebook_generator.py:192-197 | A short second line joins the first line's paragraph. |
| Pages.PageTitle | epub/ebook_generator.py:116 | A page title is a prefix of the chapter title, cut to at most 100 characters. |
| Pages.PageFileInjective | epub/ebook_generator.py:119 | Different chapter numbers give different file names. The first ten thousand all have 18 characters. |
| Pages.CoverTypeOf | epub/ebook_generator.py:79-87 | `<svg` data is SVG. Otherwise a `\x89PNG` start is PNG. Anything else is JPEG. |
| Pages.CoverExamples | epub/ebook_generator.py:79-87 | A PNG signature types as PNG, a JPEG start-of-image marker as JPEG, an SVG tag as SVG, and a truncated `<sv` as JPEG. |
| BookPages.ChapterPage | epub/ebook_generator.py:113-142 | A page's title is the chapter title when that has at most 100 characters, and exactly its first 100 characters otherwise (`title[:100]`). The page has the zero-padded file for its index, and the cleaned content. |
| BookPages.BookPages | epub/ebook_generator.py:97-111 | No chapters gives the single fallback page. Otherwise there is one page per chapter, numbered from 1 in input order, each titled with exactly `title[:100]` of its chapter and holding its cleaned content. |
| BookPages.ChapterPageAsWritten | epub/ebook_generator.py:113-142 | When no kept line of the chapter contains `<`, the page body is what the source's `_clean_content` loop produces. |
| BookPages.PageFilesDistinct | epub/ebook_generator.py:104-119 | No two pages of a book share a file. |
| Builders.Title | src/epub_builder.py:38-39 | The title is the text before the first newline. |
| Builders.BodyLines | src/epub_builder.py:42 | There is at least one body line, and none holds a newline. |
| Builders.TitleBodySplit | epub/src/epub_builder.py:24-28 | Title, newline and body text give the chapter back. Without a newline, the chapter is the title and the body is "". |
| Builders.BodyLinesJoin | src/epub_builder.py:42 | The body lines joined with newlines are the body text of the other builder. |
| Builders.ChapterFileInjective | src/epub_builder.py:54 | Different chapter numbers give different file names. |
| Builders.ChapterUidInjective | src/epub_builder.py:59 | Different chapter numbers give different identifiers. |
| Builders.Paragraphs | src/epub_builder.py:45-52 | There is one paragraph per body line, and a single-line chapter gets one. |
| Builders.LineParaRecovers | src/epub_builder.py:47-50 | A paragraph gives back its line between the tags. The placeholder stands exactly for an empty line or a literal `&nbsp;`. |
| Builders.ParagraphBook | src/epub_builder.py:31-61 | Pages are in input order. Each is entered in the table of contents under its own file and title. |
| Builders.ParagraphBookDistinct | src/epub_builder.py:54-59 | No two pages share a file, and no two TOC entries share an identifier. |
| Builders.BreakBook | epub/src/epub_builder.py:20-36 | There is one page per chapter, in input order, with no table of contents. |
| Builders.BreaksJoinLines | epub/src/epub_builder.py:28-31 | Replacing the body's newlines with `<br><br>` is joining the body lines with it. Both builders show the same lines. |

## Left out

- File reading and encoding detection (`chardet`, the encoding fall-backs of `read_file_with_fallback`): file contents are decoded strings, or None where reading raises.
- `\d`, `str.lower()` and `re.IGNORECASE` are modelled on ASCII only. Python also treats other Unicode digits and letters this way, such as the full-width digits of `第１章`. That is not modelled.
- HeadingLines.Scan: decides each line on its own, but Python's `\s` and `[^\.]` also match a newline, so a match of `chapter_regex_line` (and of `CHAPTER_REGEX_LINE` in `txt_to_epub.py`) can run onto the next line. The cross-line matches are not modelled:
  - in `第\s*[N]+\s*[章回节集卷]`, the whitespace after 第 or after the numerals can hold line breaks: `"第一\n章 x"` is one Python match titled `"第一\n章 x"`, and the model finds none;
  - in `[Cc][Hh][Aa][Pp][Tt][Ee][Rr]\s+\d+`, the whitespace can hold line breaks: `"Chapter\n12"` is one Python match;
  - in the digit-start alternative, which `txt_to_epub.py` does not have, the whitespace after the digits, or the `[^\.]` itself, can be a newline. Every line of digits (with optional `.`, `、` and whitespace) that has a next line takes that line into its match. Python reads `"1\n正文"` as one heading titled `"1\n正文"`, and the model does not take the line `"1"` as a heading. Python reads `"12\n正文"` as one heading, and the model takes only `"12"`;
  - so where such a match exists, the model can miss a Python heading, cut its title at the first line, or report a heading on a line that Python's match has already taken in.
- `cn2an.cn2an(s, "smart")` is a parameter. Its own conversion rules are not part of this model.
- Modification times are integers rather than floats.
- `run_qinglong.py` imports `parse_chapters_from_content` from `chapter_parser`, which `chapter_parser.py` as modelled here does not define. The merge segments each file with the current line-oriented parser instead.
- Logging, the notification sending (`send`, Bark), the network and everything `ebooklib` does with the pages (zip writing, navigation, CSS) are left out.
- The HTML page template around a page's title and paragraphs is left out. Pages carry title, file and paragraph markup only.
- `_create_chapter` returning None on an exception is left out. None of the string operations it performs can raise on strings.
- The dead fallback title `第{i+1}章` of both builders is not modelled. `split` never returns an empty list, so it cannot be reached.
- The bracket pattern in `TextParser.__init__` is not modelled. It is never used to find headings.
- `main_entry`'s directory listing and task scan are left out, and so are `find_matching_cover`, `load_metadata` and the notification body text. The loop takes the tasks as a list.
- `needs_update` raising while a source exists is modelled as an unreadable source time. Its exception handler makes the answer true.
- NaturalKey.PartLess: a text and a number are given an order so that the relation is total. Python would raise `TypeError`, but every key alternates texts and numbers, so that comparison never happens.
- NaturalKey.LegacyMergedText: states only the empty case. Its other case is the readable texts in natural order joined with one newline, and NaturalKey.MergedText states that order.
- Merge.NotificationTitle: states only the first two branches for every summary. Merge.RunTitle states the rest for the summaries the loop produces.
- Pages.CleanContentAsWritten: states only the two notices. Pages.AsWrittenAgrees relates its paragraphs to the intended ones when no kept line contains `<`.
- Pages.FormatAsWritten: states only when paragraphs exist. Its contents are related to the intended grouping by Pages.AsWrittenAgrees and Pages.ClosingTagInLine.
- OffsetParser.ParseChapters: with sorting on, states order, distinct titles and non-blank bodies. That the result is a stable sort of the deduplicated list is stated by OffsetParser.Finalize.
- OffsetParser.LegacyParseChapters: with sorting on, the same as OffsetParser.ParseChapters.
- LineSegmenter.Segment: its contract only says a read failure gives no chapters. What the chapters are is stated, in both settings, by LineSegmenter.TextIsKept and LineSegmenter.ChapterHeads, and with double-blank splitting also by LineSegmenter.NoDoubleBlankInsideChapter.
- BookPages.ChapterPage: the body is the intended `Pages.CleanContent`, while `_create_chapter` runs the loop as written. The two differ when a kept line holds `</p>`: content `"a</p>\nzz"` gives `<p>a</p>zz</p>` here and `<p>azz</p>zz</p>` in the source. BookPages.ChapterPageAsWritten proves they agree whenever no kept line contains `<`.
- BookPages.BookPages: the same substitution for every page and for the fallback page of `_add_fallback_chapter`. Pages.CleanContentAgrees states when the two bodies agree.

## Findings

| source | as written | input that shows it | evidently intended | confidence | as-written member | corrected member |
|---|---|---|---|---|---|---|
| epub/ebook_generator.py:192-197 | A short line joins the previous paragraph through `replace('</p>', para + '</p>')`, which inserts it before every `</p>` in that paragraph. | The kept lines `a</p>` and `zz` (content `"a</p>\nzz"`) give the paragraph `<p>a</p></p>` and then `<p>azz</p>zz</p>`, with `zz` twice. | Insert the short line once, before the paragraph's closing tag: `<p>a</p>zz</p>`. | not executed; the text of a novel rarely holds a literal `</p>` | Pages.ClosingTagInLine | Pages.CleanContent |

The same loop is at txt_to_epub2.py:519-524. Pages.FormatAsWritten models the loop as the source writes it. Pages.ClosingTagInLine exhibits the duplication. Pages.Group and Pages.CleanContent are the intended behaviour, and the rest of the model uses them: Pages.Group puts every kept line in exactly once, in order, and Pages.KeptLinesAppend says which lines are kept. Pages.AsWrittenAgrees and Pages.CleanContentAgrees prove that the two agree whenever no kept line contains `<`.

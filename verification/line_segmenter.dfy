/** `parse_chapters_from_file` of the line-oriented generation: the file's
    lines are read one at a time, stripped, classified, and folded into
    chapters.  A heading line closes the chapter being collected and opens
    a new one; with double-blank splitting on, two blank lines in a row
    also close it.  Each chapter comes out as its lines joined with "\n". */
module LineSegmenter {
  import opened Text
  import opened Wrappers
  import opened Seqs
  import opened Classifier

  /** ENABLE_DOUBLE_EMPTY_LINE, ENABLE_CHAPTER_MARKER and CHAPTER_MARKER. */
  datatype Settings = Settings(doubleBlank: bool, marking: bool, marker: string)

  /** The environment defaults: double-blank splitting on, marking off,
      marker "#". */
  const Defaults := Settings(true, false, "#")

  /** A stripped line as the loop sees it: blank, a heading (with the entry
      it opens its chapter with), or body text. */
  datatype Line = Blank | Heading(entry: string) | Body(text: string)

  /** Chapters closed so far (as line lists), the chapter being collected,
      and how many blank lines have been seen in a row. */
  datatype State = State(done: seq<seq<string>>, buffer: seq<string>, blanks: nat)

  const Start := State([], [], 0)

  /** The lines `for line in f` yields from decoded text whose line breaks
      are "\n": a final "\n" ends the last line rather than starting an
      empty one. */
  function FileLines(text: string): (r: seq<string>)
    ensures forall i :: 0 <= i < |r| ==> '\n' !in r[i]
    ensures text == "" ==> r == []
    ensures text != "" ==> Join(r, "\n") + (if text[|text| - 1] == '\n' then "\n" else "") == text
  {
    if text == "" then []
    else if text[|text| - 1] == '\n' then
      var body := text[..|text| - 1];
      var r := Split(body, '\n');
      assert text == body + "\n";
      r
    else Split(text, '\n')
  }

  predicate IsHeading(g: Generation, line: string) {
    Classify(g, line).0
  }

  /** The entry a heading opens its chapter with: the classifier's title
      now, the whole stripped line in the legacy generation, marked when
      marking is on. */
  function HeadingEntry(g: Generation, cfg: Settings, line: string): (r: string)
    ensures cfg.marking ==> StartsWith(r, cfg.marker)
    ensures g == Legacy && !cfg.marking ==> r == line
  {
    var title := if g == Current then Classify(Current, line).1 else line;
    if cfg.marking then AddMarker(title, cfg.marker) else title
  }

  /** The classification at the top of the loop body. */
  function ReadLine(g: Generation, cfg: Settings, raw: string): (r: Line)
    ensures r.Blank? <==> IsBlank(raw)
    ensures r.Heading? <==> !IsBlank(raw) && IsHeading(g, Strip(raw))
    ensures r.Body? ==> r.text == Strip(raw) && r.text != ""
  {
    var line := Strip(raw);
    StripEmptyIffBlank(raw);
    if line == "" then Blank
    else if IsHeading(g, line) then Heading(HeadingEntry(g, cfg, line))
    else Body(line)
  }

  function ReadAll(g: Generation, cfg: Settings, raws: seq<string>): (r: seq<Line>)
    ensures |r| == |raws|
    ensures forall i :: 0 <= i < |raws| ==> r[i] == ReadLine(g, cfg, raws[i])
  {
    seq(|raws|, i requires 0 <= i < |raws| => ReadLine(g, cfg, raws[i]))
  }

  /** The chapters once the one being collected is closed, if it holds
      anything. */
  function Flush(st: State): (r: seq<seq<string>>)
    ensures st.buffer == [] ==> r == st.done
    ensures st.buffer != [] ==> r == st.done + [st.buffer]
  {
    if st.buffer != [] then st.done + [st.buffer] else st.done
  }

  /** One iteration of the loop. */
  function Step(cfg: Settings, st: State, l: Line): State {
    match l
    case Heading(e) => State(Flush(st), [e], 0)
    case Body(t) => State(st.done, st.buffer + [t], 0)
    case Blank =>
      var blanks := st.blanks + 1;
      if cfg.doubleBlank && blanks == 2 && st.buffer != [] then State(st.done + [st.buffer], [], 0)
      else if st.buffer != [] then State(st.done, st.buffer + [""], blanks)
      else State(st.done, st.buffer, blanks)
  }

  /** The loop over all lines. */
  function Run(cfg: Settings, ls: seq<Line>): State {
    if |ls| == 0 then Start else Step(cfg, Run(cfg, ls[..|ls| - 1]), ls[|ls| - 1])
  }

  function JoinLines(chapters: seq<seq<string>>): (r: seq<string>)
    ensures |r| == |chapters|
    ensures forall i :: 0 <= i < |r| ==> r[i] == Join(chapters[i], "\n")
  {
    if |chapters| == 0 then [] else [Join(chapters[0], "\n")] + JoinLines(chapters[1..])
  }

  /** The chapters, as line lists, that the loop builds from the text. */
  function ChapterLines(g: Generation, cfg: Settings, text: string): seq<seq<string>> {
    Flush(Run(cfg, ReadAll(g, cfg, FileLines(text))))
  }

  /** `parse_chapters_from_file` on the decoded file, or on a read failure
      (`None`), which yields no chapters. */
  function Segment(g: Generation, cfg: Settings, text: Option<string>): (r: seq<string>)
    ensures text.None? ==> r == []
    ensures text.Some? ==> r == JoinLines(ChapterLines(g, cfg, text.value))
  {
    match text
    case None => []
    case Some(t) => JoinLines(ChapterLines(g, cfg, t))
  }

  // ---------------------------------------------------------------------
  // Nothing is lost: every non-blank line reaches the output, in order.

  /** Everything the loop has put into chapters so far, in order. */
  function Stream(st: State): seq<string> {
    Concat(st.done) + st.buffer
  }

  /** The entries of the non-blank lines, in order. */
  function Entries(ls: seq<Line>): seq<string> {
    if |ls| == 0 then []
    else
      Entries(ls[..|ls| - 1]) +
        match ls[|ls| - 1]
        case Heading(e) => [e]
        case Body(t) => [t]
        case Blank => []
  }

  /** The concatenated chapters are the stream. */
  lemma FlushStream(st: State)
    ensures Concat(Flush(st)) == Stream(st)
  {
    if st.buffer != [] {
      ConcatAppend(st.done, st.buffer);
    } else {
      assert Stream(st) == Concat(st.done) + [];
    }
  }

  /** One step adds the line's entry, a blank entry, or nothing to the
      stream. */
  lemma StepStream(cfg: Settings, st: State, l: Line)
    ensures var s' := Stream(Step(cfg, st, l));
      match l
      case Heading(e) => s' == Stream(st) + [e]
      case Body(t) => s' == Stream(st) + [t]
      case Blank => s' == Stream(st) || s' == Stream(st) + [""]
  {
    match l
    case Heading(e) => FlushStream(st);
    case Body(t) =>
    case Blank =>
      if cfg.doubleBlank && st.blanks + 1 == 2 && st.buffer != [] {
        ConcatAppend(st.done, st.buffer);
      }
  }

  lemma {:induction false} RunStream(cfg: Settings, ls: seq<Line>)
    ensures NonEmpty(Stream(Run(cfg, ls))) == NonEmpty(Entries(ls))
    decreases |ls|
  {
    if |ls| > 0 {
      var init := ls[..|ls| - 1];
      var l := ls[|ls| - 1];
      var st := Run(cfg, init);
      RunStream(cfg, init);
      StepStream(cfg, st, l);
      assert Run(cfg, ls) == Step(cfg, st, l);
      var s' := Stream(Step(cfg, st, l));
      match l
      case Heading(e) =>
        NonEmptyAppend(Stream(st), [e]);
        NonEmptyAppend(Entries(init), [e]);
      case Body(t) =>
        NonEmptyAppend(Stream(st), [t]);
        NonEmptyAppend(Entries(init), [t]);
      case Blank =>
        if s' != Stream(st) {
          NonEmptyAppend(Stream(st), [""]);
          assert NonEmpty([""]) == [];
          assert NonEmpty(s') == NonEmpty(Stream(st));
        }
        assert Entries(ls) == Entries(init);
    }
  }

  /** The chapters' non-empty lines are exactly the non-empty entries of
      the input's non-blank lines: splitting never drops, repeats or
      reorders text; only blank lines can disappear. */
  lemma TextIsKept(cfg: Settings, ls: seq<Line>)
    ensures NonEmpty(Concat(Flush(Run(cfg, ls)))) == NonEmpty(Entries(ls))
  {
    RunStream(cfg, ls);
    FlushStream(Run(cfg, ls));
  }

  // ---------------------------------------------------------------------
  // Where chapters start.

  /** No chapter is open after reading `ls`.  Without double-blank
      splitting that is while every line read is blank.  With it, a chapter
      is also closed by the second of two blank lines in a row, so no
      chapter is open when the last two lines are blank, when the only line
      is, or when there are no lines at all. */
  predicate Idle(cfg: Settings, ls: seq<Line>) {
    if cfg.doubleBlank then
      |ls| == 0 || (ls[|ls| - 1].Blank? && (|ls| == 1 || ls[|ls| - 2].Blank?))
    else
      forall j :: 0 <= j < |ls| ==> ls[j].Blank?
  }

  /** Line `i` opens a chapter: it is a heading, or a body line read while
      no chapter is open. */
  predicate Opens(cfg: Settings, ls: seq<Line>, i: int)
    requires 0 <= i < |ls|
  {
    ls[i].Heading? || (ls[i].Body? && Idle(cfg, ls[..i]))
  }

  function EntryOf(l: Line): string {
    match l
    case Heading(e) => e
    case Body(t) => t
    case Blank => ""
  }

  /** The entries of the lines that open chapters, in order. */
  function Openings(cfg: Settings, ls: seq<Line>): seq<string> {
    if |ls| == 0 then []
    else
      var n := |ls| - 1;
      Openings(cfg, ls[..n]) + (if Opens(cfg, ls, n) then [EntryOf(ls[n])] else [])
  }

  predicate NoEmptyChapter(chapters: seq<seq<string>>) {
    forall i :: 0 <= i < |chapters| ==> chapters[i] != []
  }

  /** The first line of every chapter. */
  function Heads(chapters: seq<seq<string>>): (r: seq<string>)
    requires NoEmptyChapter(chapters)
    ensures |r| == |chapters|
    ensures forall i :: 0 <= i < |r| ==> r[i] == chapters[i][0]
  {
    if |chapters| == 0 then [] else [chapters[0][0]] + Heads(chapters[1..])
  }

  /** The loop never closes an empty chapter. */
  lemma {:induction false} ChaptersNonEmpty(cfg: Settings, ls: seq<Line>)
    ensures NoEmptyChapter(Run(cfg, ls).done)
    ensures NoEmptyChapter(Flush(Run(cfg, ls)))
    decreases |ls|
  {
    if |ls| > 0 {
      ChaptersNonEmpty(cfg, ls[..|ls| - 1]);
    }
  }

  /** Without double-blank splitting, a chapter is open from the first
      non-blank line on. */
  lemma {:induction false} OpenOnceStarted(cfg: Settings, ls: seq<Line>)
    requires !cfg.doubleBlank
    ensures Run(cfg, ls).buffer == [] <==> forall j :: 0 <= j < |ls| ==> ls[j].Blank?
    decreases |ls|
  {
    if |ls| > 0 {
      var n := |ls| - 1;
      var init := ls[..n];
      OpenOnceStarted(cfg, init);
      assert forall j :: 0 <= j < n ==> init[j] == ls[j];
    }
  }

  /** With double-blank splitting, a chapter is open unless the last two
      lines read are blank (or the only one is, or none was read), and the
      blank-line counter of an open chapter is 1 exactly when the last line
      read is blank. */
  lemma {:induction false} ClosedByTwoBlanks(cfg: Settings, ls: seq<Line>)
    requires cfg.doubleBlank
    ensures Run(cfg, ls).buffer == [] <==> Idle(cfg, ls)
    ensures |ls| > 0 && Run(cfg, ls).buffer != [] ==>
      Run(cfg, ls).blanks == if ls[|ls| - 1].Blank? then 1 else 0
    decreases |ls|
  {
    if |ls| > 0 {
      var n := |ls| - 1;
      var init := ls[..n];
      ClosedByTwoBlanks(cfg, init);
      if n >= 1 {
        assert init[n - 1] == ls[n - 1];
      }
      if n >= 2 {
        assert init[n - 2] == ls[n - 2];
      }
    }
  }

  /** A chapter is open exactly when the lines read leave the loop busy. */
  lemma OpenUnlessIdle(cfg: Settings, ls: seq<Line>)
    ensures Run(cfg, ls).buffer == [] <==> Idle(cfg, ls)
  {
    if cfg.doubleBlank {
      ClosedByTwoBlanks(cfg, ls);
    } else {
      OpenOnceStarted(cfg, ls);
    }
  }

  /** Adding a non-empty chapter adds its first line to the heads. */
  lemma HeadsAppend(done: seq<seq<string>>, c: seq<string>)
    requires NoEmptyChapter(done) && c != []
    ensures NoEmptyChapter(done + [c])
    ensures Heads(done + [c]) == Heads(done) + [c[0]]
  {
    var r := done + [c];
    assert forall i :: 0 <= i < |done| ==> r[i] == done[i];
  }

  /** One step adds the line's entry to the heads exactly when the line
      opens a chapter: it is a heading, or a body line read while no
      chapter is open.  A blank line that closes a chapter leaves the heads
      as they are. */
  lemma HeadsStep(cfg: Settings, st: State, l: Line)
    requires NoEmptyChapter(st.done)
    ensures NoEmptyChapter(Flush(Step(cfg, st, l)))
    ensures Heads(Flush(Step(cfg, st, l))) ==
      Heads(Flush(st)) + (if l.Heading? || (l.Body? && st.buffer == []) then [EntryOf(l)] else [])
  {
    if st.buffer != [] {
      HeadsAppend(st.done, st.buffer);
    }
    match l
    case Heading(e) =>
      HeadsAppend(Flush(st), [e]);
    case Body(t) =>
      HeadsAppend(st.done, st.buffer + [t]);
    case Blank =>
      if st.buffer != [] {
        HeadsAppend(st.done, st.buffer + [""]);
      }
  }

  /** The last line opens a chapter exactly when it is a heading, or a body
      line after blank lines only. */
  lemma OpensLast(cfg: Settings, ls: seq<Line>)
    requires |ls| > 0
    ensures var n := |ls| - 1;
      Opens(cfg, ls, n) <==> ls[n].Heading? || (ls[n].Body? && Run(cfg, ls[..n]).buffer == [])
  {
    var n := |ls| - 1;
    OpenUnlessIdle(cfg, ls[..n]);
  }

  /** The chapters are opened exactly by the headings and by the body lines
      read while no chapter is open: the first non-blank line, and with
      double-blank splitting every body line after two blank lines.  Their
      first lines are those lines' entries, in order, one chapter each. */
  lemma {:induction false} ChapterHeads(cfg: Settings, ls: seq<Line>)
    ensures NoEmptyChapter(Flush(Run(cfg, ls)))
    ensures Heads(Flush(Run(cfg, ls))) == Openings(cfg, ls)
    decreases |ls|
  {
    if |ls| > 0 {
      var n := |ls| - 1;
      var init := ls[..n];
      ChapterHeads(cfg, init);
      ChaptersNonEmpty(cfg, init);
      OpensLast(cfg, ls);
      HeadsStep(cfg, Run(cfg, init), ls[n]);
    }
  }

  // ---------------------------------------------------------------------
  // Double-blank splitting.

  predicate NoBlankPair(c: seq<string>) {
    forall k :: 0 <= k < |c| - 1 ==> c[k] != "" || c[k + 1] != ""
  }

  /** With double-blank splitting on, and no heading whose entry is empty,
      no chapter holds two blank lines in a row: a second blank line
      always closes the chapter.  While a chapter is open, the blank-line
      counter says whether its last line is blank. */
  lemma {:induction false} NoDoubleBlankInsideChapter(cfg: Settings, ls: seq<Line>)
    requires cfg.doubleBlank
    requires forall i :: 0 <= i < |ls| ==> EntryOf(ls[i]) != "" || ls[i].Blank?
    ensures var st := Run(cfg, ls);
      && (forall i :: 0 <= i < |st.done| ==> NoBlankPair(st.done[i]))
      && NoBlankPair(st.buffer)
      && (st.buffer != [] ==> st.blanks <= 1 && (st.buffer[|st.buffer| - 1] == "" <==> st.blanks == 1))
    ensures forall i :: 0 <= i < |Flush(Run(cfg, ls))| ==> NoBlankPair(Flush(Run(cfg, ls))[i])
    decreases |ls|
  {
    if |ls| > 0 {
      var n := |ls| - 1;
      var init := ls[..n];
      assert forall j :: 0 <= j < n ==> init[j] == ls[j];
      NoDoubleBlankInsideChapter(cfg, init);
    }
  }

  /** Every non-blank line the loop reads gives a non-empty entry in the
      legacy generation, and in either generation when the marker is
      non-empty and marking is on. */
  lemma EntryNonEmpty(g: Generation, cfg: Settings, raw: string)
    requires !IsBlank(raw)
    requires g == Legacy || (cfg.marking && cfg.marker != "")
    ensures EntryOf(ReadLine(g, cfg, raw)) != ""
  {
    var line := Strip(raw);
    StripEmptyIffBlank(raw);
    HeadingEntryNonEmpty(g, cfg, line);
  }

  /** The entry of a non-empty heading line is non-empty in the legacy
      generation or with a non-empty marker. */
  lemma HeadingEntryNonEmpty(g: Generation, cfg: Settings, line: string)
    requires line != ""
    requires g == Legacy || (cfg.marking && cfg.marker != "")
    ensures HeadingEntry(g, cfg, line) != ""
  {
    if cfg.marking {
      assert StartsWith(HeadingEntry(g, cfg, line), cfg.marker);
    }
  }

  /** A stripped line made of `#` and `@` only. */
  predicate MarksOnly(t: string) {
    t != [] && forall i :: 0 <= i < |t| ==> IsMarkChar(t[i])
  }

  /** The classifier takes a marker-only line as a heading with an empty
      title. */
  lemma MarksOnlyClassify(t: string)
    requires MarksOnly(t)
    ensures Classify(Current, t) == (true, "")
  {
    assert IsMarkChar(t[0]) && IsMarkChar(t[|t| - 1]);
    StripUntrimmed(t);
    assert IsMarkerLine(t) by {
      assert t[..1] == [t[0]];
    }
    var rest := TrimStartBy(t, IsMarkChar);
    assert rest == [];
    assert Strip(rest) == [];
  }

  /** A line holding nothing but markers is a heading, and without
      marking its entry is empty. */
  lemma MarkerOnlyLine(cfg: Settings, line: string)
    requires !cfg.marking
    requires MarksOnly(Strip(line))
    ensures ReadLine(Current, cfg, line) == Heading("")
  {
    var t := Strip(line);
    MarksOnlyClassify(t);
    StripEmptyIffBlank(line);
    assert IsHeading(Current, t);
    assert HeadingEntry(Current, cfg, t) == "";
  }

  /** An empty line reads as blank. */
  lemma BlankLine(g: Generation, cfg: Settings)
    ensures ReadLine(g, cfg, "") == Blank
  {
    assert IsBlank("");
  }

  /** A line followed by an empty one: the file `line + "\n\n"`. */
  lemma TwoLines(line: string)
    requires '\n' !in line
    ensures FileLines(line + "\n\n") == [line, ""]
  {
    var text := line + "\n\n";
    var body := line + "\n";
    assert text[..|text| - 1] == body;
    assert IndexOf(body, '\n') == |line| by {
      assert body[|line|] == '\n';
      assert forall j :: 0 <= j < |line| ==> body[j] == line[j] && line[j] != '\n';
    }
    assert Split("", '\n') == [""];
    assert body[..|line|] == line && body[|line| + 1..] == "";
  }

  /** With double-blank splitting, a heading with an empty entry and one
      blank line make a chapter of two empty lines in a row. */
  lemma EmptyHeadingRun(cfg: Settings, ls: seq<Line>)
    requires cfg.doubleBlank
    requires |ls| == 2 && ls[0] == Heading("") && ls[1] == Blank
    ensures Flush(Run(cfg, ls)) == [["", ""]]
  {
    assert ls[..1][..0] == [];
    assert Run(cfg, ls[..1]) == State([], [""], 0);
    assert Run(cfg, ls) == Step(cfg, State([], [""], 0), Blank);
    assert Step(cfg, State([], [""], 0), Blank) == State([], ["", ""], 1);
    assert Flush(State([], ["", ""], 1)) == [["", ""]];
  }

  /** The file `line + "\n\n"` of a marker-only line reads as an empty
      heading and a blank line. */
  lemma MarkerFileReads(cfg: Settings, line: string)
    requires !cfg.marking
    requires '\n' !in line && MarksOnly(Strip(line))
    ensures var ls := ReadAll(Current, cfg, FileLines(line + "\n\n"));
      |ls| == 2 && ls[0] == Heading("") && ls[1] == Blank
  {
    TwoLines(line);
    MarkerOnlyLine(cfg, line);
    BlankLine(Current, cfg);
  }

  /** A text that reads as an empty heading and a blank line. */
  lemma EmptyHeadingChapter(cfg: Settings, text: string)
    requires cfg.doubleBlank
    requires var ls := ReadAll(Current, cfg, FileLines(text));
      |ls| == 2 && ls[0] == Heading("") && ls[1] == Blank
    ensures ChapterLines(Current, cfg, text) == [["", ""]]
  {
    EmptyHeadingRun(cfg, ReadAll(Current, cfg, FileLines(text)));
  }

  /** So the double-blank rule does not hold for empty entries: under the
      defaults, the file "#\n\n" (or any marker-only line and an empty one)
      becomes one chapter of two empty lines in a row. */
  lemma MarkerOnlyChapter(cfg: Settings, line: string)
    requires cfg.doubleBlank && !cfg.marking
    requires '\n' !in line && MarksOnly(Strip(line))
    ensures ChapterLines(Current, cfg, line + "\n\n") == [["", ""]]
  {
    MarkerFileReads(cfg, line);
    EmptyHeadingChapter(cfg, line + "\n\n");
  }
}

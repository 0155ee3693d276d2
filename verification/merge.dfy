/** The folder-merge and batch bookkeeping of `run_qinglong.py`: the
    freshness time of a task's source, merging the chapters of every `.txt`
    file in a book folder (oldest file first, a later chapter with the same
    title replacing the earlier body but keeping its place), the run's
    tally of processed, failed and skipped books, and the title of the
    notification sent at the end. */
module Merge {
  import opened Wrappers
  import opened Text
  import opened Ordering
  import opened Classifier
  import opened LineSegmenter

  // ---------------------------------------------------------------------
  // Source freshness
  // ---------------------------------------------------------------------

  /** What a task points at: one file, or a folder of `.txt` files.  A
      modification time is None where `os.path.getmtime` raises. */
  datatype TaskSource =
    | Single(mtime: Option<int>)
    | Folder(mtimes: seq<Option<int>>)

  predicate AllStatable(ms: seq<Option<int>>) {
    forall i :: 0 <= i < |ms| ==> ms[i].Some?
  }

  /** The running maximum of the loop in `get_source_mtime`, starting at 0. */
  function Latest(ms: seq<Option<int>>): (r: int)
    requires AllStatable(ms)
    ensures r >= 0
    ensures forall i :: 0 <= i < |ms| ==> ms[i].value <= r
    ensures r == 0 || exists i :: 0 <= i < |ms| && ms[i].value == r
  {
    if |ms| == 0 then 0
    else
      var prev := Latest(ms[..|ms| - 1]);
      assert forall i :: 0 <= i < |ms| - 1 ==> ms[..|ms| - 1][i] == ms[i];
      if ms[|ms| - 1].value > prev then ms[|ms| - 1].value else prev
  }

  /** `get_source_mtime`: 0 stands for "empty or unreadable", and any file
      whose time cannot be read makes the whole answer 0. */
  function SourceMtime(src: TaskSource): (r: int)
    ensures src.Single? ==> r == src.mtime.GetOr(0)
    ensures src.Folder? && |src.mtimes| == 0 ==> r == 0
    ensures src.Folder? && !AllStatable(src.mtimes) ==> r == 0
    ensures src.Folder? && AllStatable(src.mtimes) ==>
      && r >= 0
      && (forall i :: 0 <= i < |src.mtimes| ==> src.mtimes[i].value <= r)
      && (r == 0 || exists i :: 0 <= i < |src.mtimes| && src.mtimes[i].value == r)
  {
    match src
    case Single(m) => m.GetOr(0)
    case Folder(ms) => if |ms| == 0 || !AllStatable(ms) then 0 else Latest(ms)
  }

  // ---------------------------------------------------------------------
  // Merging a book folder
  // ---------------------------------------------------------------------

  /** One `.txt` file of a book folder: its modification time, and its
      decoded text (None where reading or parsing raises, in which case the
      file contributes nothing). */
  datatype Source = Source(mtime: Option<int>, text: Option<string>)

  function MtimeKey(s: Source): int {
    s.mtime.GetOr(0)
  }

  predicate IntLess(a: int, b: int) {
    a < b
  }

  lemma IntLessIsStrictTotalOrder()
    ensures StrictTotalOrder(IntLess)
  {
  }

  /** The files whose modification time could be read, in listing order. */
  function Statable(srcs: seq<Source>): (r: seq<Source>)
    ensures |r| <= |srcs|
    ensures forall k :: 0 <= k < |r| ==> r[k].mtime.Some?
    ensures forall s :: multiset(r)[s] == if s.mtime.Some? then multiset(srcs)[s] else 0
  {
    if |srcs| == 0 then []
    else
      var front := srcs[..|srcs| - 1];
      var last := srcs[|srcs| - 1];
      assert srcs == front + [last];
      Statable(front) + (if last.mtime.Some? then [last] else [])
  }

  /** The merge order: statable files, oldest first, files with equal times
      kept in listing order (Python's sort is stable). */
  function OrderSources(srcs: seq<Source>): (r: seq<Source>)
    ensures forall s :: multiset(r)[s] == if s.mtime.Some? then multiset(srcs)[s] else 0
    ensures forall k :: 0 <= k < |r| ==> r[k].mtime.Some?
    ensures forall i, j :: 0 <= i < j < |r| ==> r[i].mtime.value <= r[j].mtime.value
    ensures forall t :: KeyFilter(r, MtimeKey, t) == KeyFilter(Statable(srcs), MtimeKey, t)
  {
    var st := Statable(srcs);
    SortedSources(st);
    SortBy(st, MtimeKey, IntLess)
  }

  /** Sorting files that all have a time by that time keeps them, puts
      them oldest first, and keeps files with equal times in their order. */
  lemma SortedSources(st: seq<Source>)
    requires forall k :: 0 <= k < |st| ==> st[k].mtime.Some?
    ensures var r := SortBy(st, MtimeKey, IntLess);
      && multiset(r) == multiset(st)
      && (forall k :: 0 <= k < |r| ==> r[k].mtime.Some?)
      && (forall i, j :: 0 <= i < j < |r| ==> r[i].mtime.value <= r[j].mtime.value)
      && (forall t :: KeyFilter(r, MtimeKey, t) == KeyFilter(st, MtimeKey, t))
  {
    IntLessIsStrictTotalOrder();
    var r := SortBy(st, MtimeKey, IntLess);
    SortSpec(st, MtimeKey, IntLess);
    StatableKept(st, r);
    forall i, j | 0 <= i < j < |r| ensures r[i].mtime.value <= r[j].mtime.value {
      assert !IntLess(MtimeKey(r[j]), MtimeKey(r[i]));
    }
  }

  /** A rearrangement of files that all have a time has only such files. */
  lemma StatableKept(st: seq<Source>, r: seq<Source>)
    requires forall k :: 0 <= k < |st| ==> st[k].mtime.Some?
    requires multiset(r) == multiset(st)
    ensures forall k :: 0 <= k < |r| ==> r[k].mtime.Some?
  {
    forall k | 0 <= k < |r| ensures r[k].mtime.Some? {
      assert r[k] in multiset(st);
      var j :| 0 <= j < |st| && st[j] == r[k];
    }
  }

  /** A chapter string taken apart as the merge loop does: the title is the
      text up to the first newline, the body everything after it. */
  datatype Entry = Entry(title: string, body: string)

  /** `lines = s.split('\n')`; the title is `lines[0]` and the body
      `'\n'.join(lines[1:])`, or "" when there is no newline. */
  function Extract(chapter: string): (e: Entry)
    ensures '\n' !in e.title
    ensures IndexOf(chapter, '\n') < |chapter| ==> chapter == e.title + "\n" + e.body
    ensures IndexOf(chapter, '\n') == |chapter| ==> e == Entry(chapter, "")
  {
    var lines := Split(chapter, '\n');
    SplitHead(chapter, '\n');
    SplitTail(chapter, '\n');
    var i := IndexOf(chapter, '\n');
    assert i < |chapter| ==> chapter == chapter[..i] + "\n" + chapter[i + 1..];
    Entry(lines[0], if |lines| > 1 then Join(lines[1..], "\n") else "")
  }

  /** The string a merged chapter is reassembled into. */
  function Render(e: Entry): string {
    e.title + "\n" + e.body
  }

  /** Reassembling and taking apart again gives back the same title and
      body, for every title without a newline, which is every title
      `Extract` produces. */
  lemma ExtractRender(e: Entry)
    requires '\n' !in e.title
    ensures Extract(Render(e)) == e
  {
    var s := Render(e);
    var i := IndexOf(s, '\n');
    assert s[|e.title|] == '\n';
    assert forall j :: 0 <= j < |e.title| ==> s[j] == e.title[j];
    assert i == |e.title|;
    assert s[..i] == e.title;
    assert s[i + 1..] == e.body;
  }

  /** The entries of one file, in the order its chapters were found. */
  function FileEntries(cfg: Settings, src: Source): (r: seq<Entry>)
    ensures forall k :: 0 <= k < |r| ==> '\n' !in r[k].title
  {
    var chapters := Segment(Current, cfg, src.text);
    seq(|chapters|, k requires 0 <= k < |chapters| => Extract(chapters[k]))
  }

  /** The entries of all files, file after file. */
  function AllEntries(cfg: Settings, srcs: seq<Source>): (r: seq<Entry>)
    ensures forall k :: 0 <= k < |r| ==> '\n' !in r[k].title
  {
    if |srcs| == 0 then []
    else AllEntries(cfg, srcs[..|srcs| - 1]) + FileEntries(cfg, srcs[|srcs| - 1])
  }

  /** The loop state: `final_chapter_order` and `all_chapters`. */
  datatype Merged = Merged(order: seq<string>, bodies: map<string, string>)

  /** One iteration of the merge loop. */
  function Absorb(m: Merged, e: Entry): Merged {
    Merged(if e.title in m.bodies then m.order else m.order + [e.title],
           m.bodies[e.title := e.body])
  }

  predicate Distinct(s: seq<string>) {
    forall i, j :: 0 <= i < j < |s| ==> s[i] != s[j]
  }

  /** The titles that occur among the entries. */
  function Titles(es: seq<Entry>): set<string> {
    if |es| == 0 then {} else Titles(es[..|es| - 1]) + {es[|es| - 1].title}
  }

  /** Where title `t` first appears: the index of its first entry, or
      `|es|` when no entry has it. */
  function FirstIndex(es: seq<Entry>, t: string): (r: nat)
    ensures r <= |es|
    ensures r < |es| ==> es[r].title == t
    ensures forall k :: 0 <= k < r ==> es[k].title != t
    ensures r < |es| <==> t in Titles(es)
  {
    if |es| == 0 then 0
    else
      var front := es[..|es| - 1];
      var f := FirstIndex(front, t);
      assert forall k :: 0 <= k < |front| ==> front[k] == es[k];
      if f < |front| then f
      else if es[|es| - 1].title == t then |front|
      else |es|
  }

  /** The body of the last entry with title `t`, or None if there is none. */
  function LastBody(es: seq<Entry>, t: string): Option<string> {
    if |es| == 0 then None
    else if es[|es| - 1].title == t then Some(es[|es| - 1].body)
    else LastBody(es[..|es| - 1], t)
  }

  /** The loop over every entry: each title is listed once, and the map
      holds exactly the titles seen, each with the body of its last
      occurrence. */
  function MergeAll(es: seq<Entry>): (m: Merged)
    ensures Distinct(m.order)
    ensures forall t :: t in m.bodies <==> t in m.order
    ensures m.bodies.Keys == Titles(es)
    ensures forall t :: t in m.bodies ==> LastBody(es, t) == Some(m.bodies[t])
  {
    if |es| == 0 then Merged([], map[])
    else
      var prev := MergeAll(es[..|es| - 1]);
      var e := es[|es| - 1];
      var m := Absorb(prev, e);
      assert Distinct(m.order) by {
        if e.title !in prev.bodies {
          assert forall i :: 0 <= i < |prev.order| ==> prev.order[i] != e.title;
        }
      }
      m
  }

  /** The order only ever grows at the end. */
  lemma {:induction false} MergePrefix(es: seq<Entry>, n: nat)
    requires n <= |es|
    ensures |MergeAll(es[..n]).order| <= |MergeAll(es).order|
    ensures MergeAll(es[..n]).order == MergeAll(es).order[..|MergeAll(es[..n]).order|]
    decreases |es| - n
  {
    if n == |es| {
      assert es[..n] == es;
    } else {
      var front := es[..|es| - 1];
      assert front[..n] == es[..n];
      MergePrefix(front, n);
    }
  }

  /** Titles are listed in order of first appearance: for every prefix of
      the entries, the titles seen in it are exactly a prefix of the merged
      order. */
  lemma FirstAppearanceOrder(es: seq<Entry>, n: nat)
    requires n <= |es|
    ensures exists c :: (0 <= c <= |MergeAll(es).order| &&
      forall t :: t in Titles(es[..n]) <==> t in MergeAll(es).order[..c])
  {
    MergePrefix(es, n);
    var c := |MergeAll(es[..n]).order|;
    assert forall t :: t in Titles(es[..n]) <==> t in MergeAll(es).order[..c];
  }

  /** Titles listed in the order in which they first appear among the
      entries. */
  ghost predicate ByFirstAppearance(es: seq<Entry>, ts: seq<string>) {
    forall i, j :: 0 <= i < j < |ts| ==> FirstIndex(es, ts[i]) < FirstIndex(es, ts[j])
  }

  /** The merged order lists the titles by where they first appear: a title
      comes before another exactly when its first entry does. */
  lemma {:induction false} OrderByFirstIndex(es: seq<Entry>)
    ensures ByFirstAppearance(es, MergeAll(es).order)
    decreases |es|
  {
    if |es| > 0 {
      var front := es[..|es| - 1];
      OrderByFirstIndex(front);
      OrderStep(es, front);
    }
  }

  /** One more entry keeps the merged order sorted by first appearance: the
      titles seen before keep their first indices, and a new title is
      appended with the largest one. */
  lemma OrderStep(es: seq<Entry>, front: seq<Entry>)
    requires |es| > 0 && front == es[..|es| - 1]
    requires ByFirstAppearance(front, MergeAll(front).order)
    ensures ByFirstAppearance(es, MergeAll(es).order)
  {
    var prev := MergeAll(front);
    var e := es[|es| - 1];
    assert MergeAll(es) == Absorb(prev, e);
    forall t | t in prev.order ensures FirstIndex(es, t) == FirstIndex(front, t) < |front| {
      assert t in prev.bodies;
      FirstIndexKept(es, front, t);
    }
    if e.title !in prev.bodies {
      FirstIndexNew(es, front);
    }
    AppendOrdered(es, front, prev.order, MergeAll(es).order, e.title);
  }

  /** A title seen before the last entry keeps its first index. */
  lemma FirstIndexKept(es: seq<Entry>, front: seq<Entry>, t: string)
    requires |es| > 0 && front == es[..|es| - 1]
    requires t in Titles(front)
    ensures FirstIndex(es, t) == FirstIndex(front, t) < |front|
  {
  }

  /** A title first seen in the last entry has that entry's index. */
  lemma FirstIndexNew(es: seq<Entry>, front: seq<Entry>)
    requires |es| > 0 && front == es[..|es| - 1]
    requires es[|es| - 1].title !in Titles(front)
    ensures FirstIndex(es, es[|es| - 1].title) == |front|
  {
  }

  /** Keeping an ordered list, or appending a title whose first index is
      above all of its titles', keeps it ordered. */
  lemma AppendOrdered(es: seq<Entry>, front: seq<Entry>, po: seq<string>, o: seq<string>, t: string)
    requires ByFirstAppearance(front, po)
    requires forall x :: x in po ==> FirstIndex(es, x) == FirstIndex(front, x) < |front|
    requires o == po || (o == po + [t] && FirstIndex(es, t) == |front|)
    ensures ByFirstAppearance(es, o)
  {
    forall i, j | 0 <= i < j < |o| ensures FirstIndex(es, o[i]) < FirstIndex(es, o[j]) {
      assert o[i] == po[i];
      if j < |po| {
        assert o[j] == po[j];
      }
    }
  }

  /** The last entry with a given title supplies its body: it is some entry
      with that title and body, and no later entry has that title. */
  lemma {:induction false} LastBodyIsLast(es: seq<Entry>, t: string)
    requires LastBody(es, t).Some?
    ensures exists k :: (0 <= k < |es| && es[k] == Entry(t, LastBody(es, t).value) &&
      forall k' :: k < k' < |es| ==> es[k'].title != t)
  {
    var last := |es| - 1;
    if es[last].title != t {
      var front := es[..last];
      LastBodyIsLast(front, t);
      var k :| 0 <= k < |front| && front[k] == Entry(t, LastBody(front, t).value) &&
        forall k' :: k < k' < |front| ==> front[k'].title != t;
      LastBodySkips(es, front, t, k);
    } else {
      assert es[last] == Entry(t, LastBody(es, t).value);
    }
  }

  /** A last entry that is not titled `t` leaves the last `t` entry of the
      entries before it the last one. */
  lemma LastBodySkips(es: seq<Entry>, front: seq<Entry>, t: string, k: nat)
    requires |es| > 0 && front == es[..|es| - 1] && es[|es| - 1].title != t
    requires LastBody(front, t).Some?
    requires k < |front| && front[k] == Entry(t, LastBody(front, t).value)
    requires forall k' :: k < k' < |front| ==> front[k'].title != t
    ensures 0 <= k < |es| && es[k] == Entry(t, LastBody(es, t).value)
    ensures forall k' :: k < k' < |es| ==> es[k'].title != t
  {
    assert LastBody(es, t) == LastBody(front, t);
    forall k' | k < k' < |es| ensures es[k'].title != t {
      if k' < |front| {
        assert front[k'] == es[k'];
      }
    }
  }

  /** The reassembled list: one string per title, in merged order. */
  function Assemble(m: Merged): (r: seq<string>)
    requires forall t :: t in m.order ==> t in m.bodies
    ensures |r| == |m.order|
  {
    seq(|m.order|, i requires 0 <= i < |m.order| => Render(Entry(m.order[i], m.bodies[m.order[i]])))
  }

  /** The merged strings of `r` are the distinct titles of the entries
      `es`, in the order of their first appearance, each with the body of
      its last entry. */
  ghost predicate MergedFrom(es: seq<Entry>, r: seq<string>) {
    && |r| == |Titles(es)|
    && (forall i, j :: 0 <= i < j < |r| ==> Extract(r[i]).title != Extract(r[j]).title)
    && (forall i, j :: 0 <= i < j < |r| ==>
          FirstIndex(es, Extract(r[i]).title) < FirstIndex(es, Extract(r[j]).title))
    && (forall i :: 0 <= i < |r| ==> Extract(r[i]).title in Titles(es))
    && (forall i :: 0 <= i < |r| ==> LastBody(es, Extract(r[i]).title) == Some(Extract(r[i]).body))
  }

  /** Each reassembled string takes apart into its title and that title's
      body. */
  lemma {:induction false} AssembleParts(es: seq<Entry>, i: nat)
    requires forall k :: 0 <= k < |es| ==> '\n' !in es[k].title
    requires i < |MergeAll(es).order|
    ensures Extract(Assemble(MergeAll(es))[i]) ==
      Entry(MergeAll(es).order[i], MergeAll(es).bodies[MergeAll(es).order[i]])
  {
    var m := MergeAll(es);
    TitleHasNoNewline(es, m.order[i]);
    ExtractRender(Entry(m.order[i], m.bodies[m.order[i]]));
  }

  /** Any list that takes apart into the merged order's titles and their
      bodies is merged from the entries. */
  lemma PartsMerged(es: seq<Entry>, m: Merged, r: seq<string>)
    requires m == MergeAll(es)
    requires |r| == |m.order|
    requires forall i :: 0 <= i < |r| ==> Extract(r[i]) == Entry(m.order[i], m.bodies[m.order[i]])
    ensures MergedFrom(es, r)
  {
    OrderCountsTitles(es);
    forall i | 0 <= i < |r|
      ensures Extract(r[i]).title in Titles(es)
      ensures LastBody(es, Extract(r[i]).title) == Some(Extract(r[i]).body)
    {
      assert m.order[i] in m.bodies;
    }
    forall i, j | 0 <= i < j < |r| ensures Extract(r[i]).title != Extract(r[j]).title {
      assert m.order[i] != m.order[j];
    }
    OrderByFirstIndex(es);
    forall i, j | 0 <= i < j < |r|
      ensures FirstIndex(es, Extract(r[i]).title) < FirstIndex(es, Extract(r[j]).title)
    {
      assert Extract(r[i]).title == m.order[i] && Extract(r[j]).title == m.order[j];
    }
  }

  /** The merged order lists every title once. */
  lemma OrderCountsTitles(es: seq<Entry>)
    ensures |MergeAll(es).order| == |Titles(es)|
  {
    var m := MergeAll(es);
    DistinctCard(m.order);
    var titles := set t | t in m.order;
    forall t ensures t in titles <==> t in Titles(es) {
      assert t in m.bodies <==> t in m.order;
    }
    assert titles == Titles(es);
  }

  /** Reassembling the merge loop's state gives one chapter per distinct
      title, in the order of first appearance, each with the body of its
      last occurrence. */
  lemma AssembleMerged(es: seq<Entry>)
    requires forall k :: 0 <= k < |es| ==> '\n' !in es[k].title
    ensures MergedFrom(es, Assemble(MergeAll(es)))
  {
    var m := MergeAll(es);
    var r := Assemble(m);
    forall i | 0 <= i < |r| ensures Extract(r[i]) == Entry(m.order[i], m.bodies[m.order[i]]) {
      AssembleParts(es, i);
    }
    PartsMerged(es, m, r);
  }

  /** `merge_chapters_from_folder`: an empty folder gives no chapters;
      otherwise the files are merged oldest first, giving one chapter per
      distinct title of their chapters, in the order in which the titles
      first appear, each carrying the body of the last
      chapter with that title and taking apart again into that title and
      body. */
  function MergeFolder(cfg: Settings, srcs: seq<Source>): (r: seq<string>)
    ensures |srcs| == 0 ==> |r| == 0
    ensures MergedFrom(AllEntries(cfg, OrderSources(srcs)), r)
  {
    if |srcs| == 0 then []
    else
      AssembleMerged(AllEntries(cfg, OrderSources(srcs)));
      Assemble(MergeAll(AllEntries(cfg, OrderSources(srcs))))
  }

  /** Every title seen comes from an entry, and entries' titles have no
      newline. */
  lemma {:induction false} TitleHasNoNewline(es: seq<Entry>, t: string)
    requires forall k :: 0 <= k < |es| ==> '\n' !in es[k].title
    requires t in Titles(es)
    ensures '\n' !in t
  {
    var last := |es| - 1;
    if es[last].title != t {
      TitleHasNoNewline(es[..last], t);
    }
  }

  /** A list without repeats has as many elements as its set. */
  lemma {:induction false} DistinctCard(s: seq<string>)
    requires Distinct(s)
    ensures |set t | t in s| == |s|
  {
    if |s| > 0 {
      var front := s[..|s| - 1];
      DistinctCard(front);
      assert (set t | t in s) == (set t | t in front) + {s[|s| - 1]};
      assert s[|s| - 1] !in (set t | t in front);
    }
  }

  // ---------------------------------------------------------------------
  // The batch run
  // ---------------------------------------------------------------------

  /** One book of the batch: the freshness time of its source, the time
      of the existing `.epub` (None when there is none), and whether
      building the book goes through without raising. */
  datatype Task = Task(sourceMtime: int, epubMtime: Option<int>, builds: bool)

  datatype Outcome = Processed | Failed | Skipped

  /** What the loop of `main_entry` does with one task: a source time of 0
      or an `.epub` at least as new as the source skips it; otherwise the
      book is built, and an exception counts it as failed. */
  function Decide(t: Task): (o: Outcome)
    ensures o == Skipped <==>
      t.sourceMtime == 0 || (t.epubMtime.Some? && t.sourceMtime <= t.epubMtime.value)
    ensures o == Processed <==> o != Skipped && t.builds
  {
    if t.sourceMtime == 0 then Skipped
    else if t.epubMtime.Some? && t.sourceMtime <= t.epubMtime.value then Skipped
    else if t.builds then Processed
    else Failed
  }

  /** The counters `main_entry` returns. */
  datatype Summary = Summary(total: nat, processed: nat, failed: nat, skipped: nat)

  /** How many tasks end with outcome `o`. */
  function Count(tasks: seq<Task>, o: Outcome): (n: nat)
    ensures n <= |tasks|
  {
    if |tasks| == 0 then 0
    else Count(tasks[..|tasks| - 1], o) + (if Decide(tasks[|tasks| - 1]) == o then 1 else 0)
  }

  /** Every task has exactly one outcome. */
  lemma {:induction false} CountsAddUp(tasks: seq<Task>)
    ensures Count(tasks, Processed) + Count(tasks, Failed) + Count(tasks, Skipped) == |tasks|
  {
    if |tasks| > 0 {
      CountsAddUp(tasks[..|tasks| - 1]);
    }
  }

  /** No task has outcome `o` exactly when the count of `o` is 0. */
  lemma {:induction false} CountZero(tasks: seq<Task>, o: Outcome)
    ensures Count(tasks, o) == 0 <==> forall k :: 0 <= k < |tasks| ==> Decide(tasks[k]) != o
  {
    if |tasks| > 0 {
      var front := tasks[..|tasks| - 1];
      CountZero(front, o);
      assert forall k :: 0 <= k < |front| ==> front[k] == tasks[k];
    }
  }

  /** The loop of `main_entry`, counting each task's outcome. */
  method RunTasks(tasks: seq<Task>) returns (s: Summary)
    ensures s.total == |tasks|
    ensures s.processed == Count(tasks, Processed)
    ensures s.failed == Count(tasks, Failed)
    ensures s.skipped == Count(tasks, Skipped)
    ensures s.processed + s.failed + s.skipped == s.total
  {
    var processed, failed, skipped := 0, 0, 0;
    var i := 0;
    while i < |tasks|
      invariant i <= |tasks|
      invariant processed == Count(tasks[..i], Processed)
      invariant failed == Count(tasks[..i], Failed)
      invariant skipped == Count(tasks[..i], Skipped)
      decreases |tasks| - i
    {
      assert tasks[..i + 1][..i] == tasks[..i];
      match Decide(tasks[i]) {
        case Processed => processed := processed + 1;
        case Failed => failed := failed + 1;
        case Skipped => skipped := skipped + 1;
      }
      i := i + 1;
    }
    assert tasks[..i] == tasks;
    CountsAddUp(tasks);
    s := Summary(|tasks|, processed, failed, skipped);
  }

  const AppTitle := "小说转换"

  /** The notification title: the first of succeeded, failed, all skipped
      and nothing found that applies, else a generic "finished". */
  function NotificationTitle(s: Summary): (title: string)
    ensures |title| > |AppTitle| && title[..|AppTitle|] == AppTitle
    ensures s.processed > 0 ==> title == AppTitle + " - 转换成功"
    ensures s.processed == 0 && s.failed > 0 ==> title == AppTitle + " - 转换失败"
  {
    AppTitle +
      if s.processed > 0 then " - 转换成功"
      else if s.failed > 0 then " - 转换失败"
      else if s.skipped > 0 && s.processed == 0 && s.failed == 0 then " - 全部跳过"
      else if s.total == 0 then " - 未找到文件"
      else " - 执行完毕"
  }

  /** For a summary the loop produced, the generic title never appears:
      "all skipped" is sent exactly when there were tasks and every one was
      skipped, and "nothing found" exactly when there were no tasks. */
  lemma RunTitle(tasks: seq<Task>, s: Summary)
    requires s == Summary(|tasks|, Count(tasks, Processed), Count(tasks, Failed), Count(tasks, Skipped))
    ensures NotificationTitle(s) != AppTitle + " - 执行完毕"
    ensures NotificationTitle(s) == AppTitle + " - 全部跳过" <==>
      |tasks| > 0 && forall k :: 0 <= k < |tasks| ==> Decide(tasks[k]) == Skipped
    ensures NotificationTitle(s) == AppTitle + " - 未找到文件" <==> |tasks| == 0
    ensures NotificationTitle(s) == AppTitle + " - 转换成功" <==>
      exists k :: 0 <= k < |tasks| && Decide(tasks[k]) == Processed
  {
    CountsAddUp(tasks);
    CountZero(tasks, Processed);
    CountZero(tasks, Failed);
    CountZero(tasks, Skipped);
  }
}

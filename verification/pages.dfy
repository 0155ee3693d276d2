/** The strings the ebook generator derives for each chapter page: the
    paragraph markup of `_clean_content`, the truncated title and the
    zero-padded file name, the single fallback page of a book without
    chapters, and the type of the cover image from its first bytes. */
module Pages {
  import opened Text
  import opened Numerals
  import opened Seqs

  // ---------------------------------------------------------------------
  // Paragraph markup
  // ---------------------------------------------------------------------

  /** What `_clean_content` returns for empty content. */
  const EmptyNotice := "<p>内容为空</p>"

  /** What it returns when every line was dropped. */
  const NoTextNotice := "<p>无有效内容</p>"

  /** A kept line at least this long starts a paragraph of its own. */
  const LongLine := 100

  /** `[p.strip() for p in lines]`. */
  function StripEach(lines: seq<string>): (r: seq<string>)
    ensures |r| == |lines|
    ensures forall j :: 0 <= j < |lines| ==> r[j] == Strip(lines[j])
  {
    seq(|lines|, j requires 0 <= j < |lines| => Strip(lines[j]))
  }

  /** The strings of at least two characters, in order. */
  function LongEnough<T>(xs: seq<seq<T>>): (r: seq<seq<T>>)
    ensures |r| <= |xs|
    ensures forall k :: 0 <= k < |r| ==> |r[k]| >= 2
  {
    if |xs| == 0 then []
    else LongEnough(xs[..|xs| - 1]) + (if |xs[|xs| - 1]| >= 2 then [xs[|xs| - 1]] else [])
  }

  /** Everything the filter keeps is one of its inputs. */
  lemma {:induction false} LongEnoughSound<T>(xs: seq<seq<T>>)
    ensures forall k :: 0 <= k < |LongEnough(xs)| ==> LongEnough(xs)[k] in xs
  {
    if |xs| > 0 {
      var n := |xs| - 1;
      var front := xs[..n];
      LongEnoughSound(front);
      var r := LongEnough(xs);
      var rf := LongEnough(front);
      assert r == rf + (if |xs[n]| >= 2 then [xs[n]] else []);
      forall k | 0 <= k < |r| ensures r[k] in xs {
        if k < |rf| {
          assert rf[k] in front;
          var j :| 0 <= j < |front| && rf[k] == front[j];
          assert r[k] == xs[j];
        } else {
          assert r[k] == xs[n];
        }
      }
    }
  }

  /** Every input of at least two characters is kept. */
  lemma {:induction false} LongEnoughComplete<T>(xs: seq<seq<T>>)
    ensures forall j :: 0 <= j < |xs| && |xs[j]| >= 2 ==> xs[j] in LongEnough(xs)
  {
    if |xs| > 0 {
      var n := |xs| - 1;
      var front := xs[..n];
      LongEnoughComplete(front);
      var r := LongEnough(xs);
      var rf := LongEnough(front);
      assert r == rf + (if |xs[n]| >= 2 then [xs[n]] else []);
      forall j | 0 <= j < |xs| && |xs[j]| >= 2 ensures xs[j] in r {
        if j < n {
          assert front[j] == xs[j];
          assert front[j] in rf;
          var k :| 0 <= k < |rf| && rf[k] == front[j];
          assert r[k] == xs[j];
        } else {
          assert r[|rf|] == xs[j];
        }
      }
    }
  }

  /** The lines `_clean_content` keeps, in order: every line stripped,
      then the empty ones and those of a single character dropped. */
  function KeptLines(lines: seq<string>): (r: seq<string>)
    ensures |r| <= |lines|
    ensures forall k :: 0 <= k < |r| ==> |r[k]| >= 2
  {
    LongEnough(StripEach(lines))
  }

  /** A line is kept exactly when its stripped form has at least two
      characters, and it is kept stripped. */
  lemma KeptLinesFrom(lines: seq<string>)
    ensures forall k :: 0 <= k < |KeptLines(lines)| ==>
      exists j :: 0 <= j < |lines| && KeptLines(lines)[k] == Strip(lines[j])
    ensures forall j :: 0 <= j < |lines| && |Strip(lines[j])| >= 2 ==> Strip(lines[j]) in KeptLines(lines)
  {
    var stripped := StripEach(lines);
    var r := KeptLines(lines);
    LongEnoughSound(stripped);
    LongEnoughComplete(stripped);
    forall k | 0 <= k < |r| ensures exists j :: 0 <= j < |lines| && r[k] == Strip(lines[j]) {
      assert r[k] in stripped;
      var j :| 0 <= j < |stripped| && stripped[j] == r[k];
      assert r[k] == Strip(lines[j]);
    }
  }

  /** Nothing is kept from no lines, and one more line adds its stripped
      form at the end exactly when that has two or more characters: the
      kept lines are the long-enough stripped lines, in order, each as
      often as it occurs. */
  lemma KeptLinesAppend(lines: seq<string>, l: string)
    ensures KeptLines([]) == []
    ensures KeptLines(lines + [l]) == KeptLines(lines) + (if |Strip(l)| >= 2 then [Strip(l)] else [])
  {
    var all := lines + [l];
    assert StripEach(all)[..|lines|] == StripEach(lines);
  }

  /** A single line is kept exactly when its stripped form has two or
      more characters, and then it is kept stripped. */
  lemma KeptOneLine(l: string)
    ensures KeptLines([l]) == (if |Strip(l)| >= 2 then [Strip(l)] else [])
  {
    KeptLinesAppend([], l);
    assert [] + [l] == [l];
  }

  /** The filter works line by line: the lines kept from two runs of
      lines put together are those kept from each, one after the other. */
  lemma {:induction false} KeptLinesConcat(a: seq<string>, b: seq<string>)
    ensures KeptLines(a + b) == KeptLines(a) + KeptLines(b)
    decreases |b|
  {
    if |b| == 0 {
      assert a + b == a;
      KeptLinesAppend([], "");
    } else {
      var front, last := b[..|b| - 1], b[|b| - 1];
      assert b == front + [last];
      assert a + b == (a + front) + [last];
      KeptLinesConcat(a, front);
      KeptLinesAppend(a + front, last);
      KeptLinesAppend(front, last);
    }
  }

  /** The lines of one paragraph put together, between `<p>` and `</p>`. */
  function Para(group: seq<string>): string {
    "<p>" + Concat(group) + "</p>"
  }

  /** Paragraph boundaries as intended: no paragraph is empty, every
      paragraph after the first starts with a long line, and every other
      line of a paragraph is short. */
  predicate Paragraphed(groups: seq<seq<string>>) {
    NoEmptyGroup(groups) && LongOpeners(groups) && ShortFollowers(groups)
  }

  predicate NoEmptyGroup(groups: seq<seq<string>>) {
    forall g :: 0 <= g < |groups| ==> |groups[g]| > 0
  }

  predicate LongOpeners(groups: seq<seq<string>>) {
    forall g :: 0 < g < |groups| && |groups[g]| > 0 ==> |groups[g][0]| >= LongLine
  }

  predicate ShortFollowers(groups: seq<seq<string>>) {
    forall g, i :: 0 <= g < |groups| && 0 < i < |groups[g]| ==> |groups[g][i]| < LongLine
  }

  /** The intended grouping of kept lines into paragraphs: a line shorter
      than `LongLine` continues the paragraph before it; the first line
      and every long line start a new one.  The paragraphs hold exactly
      the lines, in order. */
  function Group(lines: seq<string>): (groups: seq<seq<string>>)
    ensures Concat(groups) == lines
    ensures Paragraphed(groups)
    ensures |groups| <= |lines|
    ensures |lines| > 0 ==> |groups| > 0
  {
    if |lines| == 0 then []
    else
      var prev := Group(lines[..|lines| - 1]);
      var p := lines[|lines| - 1];
      assert lines == lines[..|lines| - 1] + [p];
      if |prev| > 0 && |p| < LongLine then
        ExtendLast(prev, p);
        prev[..|prev| - 1] + [prev[|prev| - 1] + [p]]
      else
        StartNew(prev, p);
        prev + [[p]]
  }

  /** Adding a short line to the last paragraph keeps the boundaries. */
  lemma ExtendLast(prev: seq<seq<string>>, p: string)
    requires Paragraphed(prev) && |prev| > 0 && |p| < LongLine
    ensures Paragraphed(prev[..|prev| - 1] + [prev[|prev| - 1] + [p]])
    ensures Concat(prev[..|prev| - 1] + [prev[|prev| - 1] + [p]]) == Concat(prev) + [p]
  {
    ExtendConcat(prev, p);
    ExtendOpeners(prev, p);
    ExtendShort(prev, p);
  }

  lemma ExtendConcat(prev: seq<seq<string>>, p: string)
    requires |prev| > 0
    ensures Concat(prev[..|prev| - 1] + [prev[|prev| - 1] + [p]]) == Concat(prev) + [p]
  {
    var n := |prev| - 1;
    var front, last := prev[..n], prev[n];
    assert Concat(prev) == Concat(front) + last;
    ConcatExtendLast(front, last, p);
  }

  /** Growing the last list grows the concatenation at its end. */
  lemma ConcatExtendLast(front: seq<seq<string>>, last: seq<string>, p: string)
    ensures Concat(front + [last + [p]]) == Concat(front) + last + [p]
  {
    ConcatAppend(front, last + [p]);
    ConcatAppend(front, last);
  }

  lemma ExtendOpeners(prev: seq<seq<string>>, p: string)
    requires NoEmptyGroup(prev) && LongOpeners(prev) && |prev| > 0
    ensures NoEmptyGroup(prev[..|prev| - 1] + [prev[|prev| - 1] + [p]])
    ensures LongOpeners(prev[..|prev| - 1] + [prev[|prev| - 1] + [p]])
  {
    var n := |prev| - 1;
    var q := prev[..n] + [prev[n] + [p]];
    assert forall g :: 0 <= g < n ==> q[g] == prev[g];
    assert q[n][0] == prev[n][0];
  }

  lemma ExtendShort(prev: seq<seq<string>>, p: string)
    requires ShortFollowers(prev) && |prev| > 0 && |p| < LongLine
    ensures ShortFollowers(prev[..|prev| - 1] + [prev[|prev| - 1] + [p]])
  {
    var n := |prev| - 1;
    var q := prev[..n] + [prev[n] + [p]];
    forall g, i | 0 <= g < |q| && 0 < i < |q[g]| ensures |q[g][i]| < LongLine {
      if g < n {
        assert q[g] == prev[g];
      } else if i < |prev[n]| {
        assert q[g][i] == prev[n][i];
      }
    }
  }

  /** Opening a new paragraph with the first line or a long one keeps the
      boundaries. */
  lemma StartNew(prev: seq<seq<string>>, p: string)
    requires Paragraphed(prev) && (|prev| > 0 ==> |p| >= LongLine)
    ensures Paragraphed(prev + [[p]])
    ensures Concat(prev + [[p]]) == Concat(prev) + [p]
  {
    ConcatAppend(prev, [p]);
    StartOpeners(prev, p);
    StartShort(prev, p);
  }

  lemma StartOpeners(prev: seq<seq<string>>, p: string)
    requires NoEmptyGroup(prev) && LongOpeners(prev) && (|prev| > 0 ==> |p| >= LongLine)
    ensures NoEmptyGroup(prev + [[p]]) && LongOpeners(prev + [[p]])
  {
    assert forall g :: 0 <= g < |prev| ==> (prev + [[p]])[g] == prev[g];
  }

  lemma StartShort(prev: seq<seq<string>>, p: string)
    requires ShortFollowers(prev)
    ensures ShortFollowers(prev + [[p]])
  {
    var q := prev + [[p]];
    forall g, i | 0 <= g < |q| && 0 < i < |q[g]| ensures |q[g][i]| < LongLine {
      assert g < |prev|;
      assert q[g] == prev[g];
    }
  }

  /** One paragraph per group. */
  function Paras(groups: seq<seq<string>>): (paras: seq<string>)
    ensures |paras| == |groups|
    ensures forall g :: 0 <= g < |groups| ==> paras[g] == Para(groups[g])
  {
    seq(|groups|, g requires 0 <= g < |groups| => Para(groups[g]))
  }

  /** The paragraphs of the intended grouping. */
  function Format(lines: seq<string>): (paras: seq<string>)
  {
    Paras(Group(lines))
  }

  /** `_clean_content` as intended: the paragraphs of the kept lines, one
      per line of output. */
  function CleanContent(content: string): (r: string)
    ensures |content| == 0 ==> r == EmptyNotice
    ensures |content| > 0 && |KeptLines(Split(content, '\n'))| == 0 ==> r == NoTextNotice
    ensures |content| > 0 && |KeptLines(Split(content, '\n'))| > 0 ==>
      r == Join(Format(KeptLines(Split(content, '\n'))), "\n")
  {
    if |content| == 0 then EmptyNotice
    else
      var kept := KeptLines(Split(content, '\n'));
      if |kept| == 0 then NoTextNotice else Join(Format(kept), "\n")
  }

  /** The paragraph loop as the source writes it: a short line is added to
      the previous paragraph by replacing every `</p>` in it. */
  function FormatAsWritten(lines: seq<string>): (paras: seq<string>)
    ensures |paras| == 0 <==> |lines| == 0
  {
    if |lines| == 0 then []
    else
      var prev := FormatAsWritten(lines[..|lines| - 1]);
      var p := lines[|lines| - 1];
      if |prev| > 0 && |p| < LongLine then
        prev[..|prev| - 1] + [ReplaceAll(prev[|prev| - 1], "</p>", p + "</p>")]
      else
        prev + ["<p>" + p + "</p>"]
  }

  /** `_clean_content` as the source writes it. */
  function CleanContentAsWritten(content: string): (r: string)
    ensures |content| == 0 ==> r == EmptyNotice
    ensures |content| > 0 && |KeptLines(Split(content, '\n'))| == 0 ==> r == NoTextNotice
  {
    if |content| == 0 then EmptyNotice
    else
      var kept := KeptLines(Split(content, '\n'));
      if |kept| == 0 then NoTextNotice else Join(FormatAsWritten(kept), "\n")
  }

  /** The lines of `content` that `_clean_content` keeps hold no `<`. */
  predicate NoTagInKept(content: string) {
    var kept := KeptLines(Split(content, '\n'));
    forall k :: 0 <= k < |kept| ==> '<' !in kept[k]
  }

  /** When no kept line holds `<`, `_clean_content` as written returns the
      intended markup. */
  lemma CleanContentAgrees(content: string)
    requires NoTagInKept(content)
    ensures CleanContentAsWritten(content) == CleanContent(content)
  {
    if |content| > 0 {
      AsWrittenAgrees(KeptLines(Split(content, '\n')));
    }
  }

  /** Replacement passes over a prefix in which no occurrence starts. */
  lemma {:induction false} ReplaceSkips(a: string, s: string, pat: string, rep: string)
    requires |pat| > 0
    requires forall i :: 0 <= i < |a| ==> !OccursAt(a + s, i, pat)
    ensures ReplaceAll(a + s, pat, rep) == a + ReplaceAll(s, pat, rep)
    decreases |a|
  {
    var t := a + s;
    if |a| == 0 {
      assert t == s;
    } else if |t| < |pat| {
      ReplaceAbsentShort(t, pat, rep);
      ReplaceAbsentShort(s, pat, rep);
    } else {
      assert t[..|pat|] != pat by {
        assert !OccursAt(t, 0, pat);
      }
      assert ReplaceAll(t, pat, rep) == [t[0]] + ReplaceAll(t[1..], pat, rep);
      assert t[1..] == a[1..] + s;
      SkipsShift(a, s, pat);
      ReplaceSkips(a[1..], s, pat, rep);
      assert a == [a[0]] + a[1..];
    }
  }

  lemma SkipsShift(a: string, s: string, pat: string)
    requires |a| > 0
    requires forall i :: 0 <= i < |a| ==> !OccursAt(a + s, i, pat)
    ensures forall i :: 0 <= i < |a| - 1 ==> !OccursAt(a[1..] + s, i, pat)
  {
    var t := a + s;
    assert t[1..] == a[1..] + s;
    forall i | 0 <= i < |a| - 1 ensures !OccursAt(a[1..] + s, i, pat) {
      assert !OccursAt(t, i + 1, pat);
      if i + |pat| <= |a[1..] + s| {
        assert (a[1..] + s)[i..i + |pat|] == t[i + 1..i + 1 + |pat|];
      }
    }
  }

  lemma ReplaceAbsentShort(s: string, pat: string, rep: string)
    requires 0 < |pat| && |s| < |pat|
    ensures ReplaceAll(s, pat, rep) == s
  {
  }

  /** Replacement copies a prefix in which no occurrence starts and then
      replaces the occurrence that follows it. */
  lemma ReplaceAt(x: string, pat: string, y: string, rep: string)
    requires |pat| > 0
    requires forall i :: 0 <= i < |x| ==> !OccursAt(x + pat + y, i, pat)
    ensures ReplaceAll(x + pat + y, pat, rep) == x + rep + ReplaceAll(y, pat, rep)
  {
    assert x + pat + y == x + (pat + y);
    ReplaceSkips(x, pat + y, pat, rep);
    assert (pat + y)[..|pat|] == pat && (pat + y)[|pat|..] == y;
  }

  /** In `<p>` followed by text without `<`, no closing tag starts. */
  lemma NoCloseBefore(x: string, y: string)
    requires '<' !in x
    ensures forall i :: 0 <= i < |"<p>" + x| ==> !OccursAt("<p>" + x + y, i, "</p>")
  {
    var a := "<p>" + x;
    var t := a + y;
    forall i | 0 <= i < |a| ensures !OccursAt(t, i, "</p>") {
      if i + 4 <= |t| {
        assert t[i..i + 4][0] == t[i] && t[i..i + 4][1] == t[i + 1];
        if i == 0 {
          assert t[1] == 'p';
        } else if i < 3 {
          assert t[i] == "<p>"[i];
        } else {
          assert t[i] == x[i - 3];
        }
      }
    }
  }

  /** The closing tag alone becomes the replacement. */
  lemma ReplaceCloseTag(rep: string)
    ensures ReplaceAll("</p>", "</p>", rep) == rep
  {
    ReplaceAt("", "</p>", "", rep);
    assert "" + "</p>" + "" == "</p>";
    assert ReplaceAll("", "</p>", rep) == "";
  }

  /** Replacing the one closing tag of a paragraph whose text has no `<`
      inserts the replacement's text before it. */
  lemma AppendToPara(x: string, p: string)
    requires '<' !in x
    ensures ReplaceAll("<p>" + x + "</p>", "</p>", p + "</p>") == "<p>" + x + p + "</p>"
  {
    NoCloseBefore(x, "</p>" + "");
    assert "<p>" + x + ("</p>" + "") == "<p>" + x + "</p>" + "";
    ReplaceAt("<p>" + x, "</p>", "", p + "</p>");
    assert "<p>" + x + "</p>" + "" == "<p>" + x + "</p>";
    assert ReplaceAll("", "</p>", p + "</p>") == "";
  }

  /** No `<` in any of a group's lines means none in its text. */
  lemma {:induction false} ConcatNoOpen(ss: seq<string>)
    requires forall k :: 0 <= k < |ss| ==> '<' !in ss[k]
    ensures '<' !in Concat(ss)
  {
    if |ss| > 0 {
      ConcatNoOpen(ss[..|ss| - 1]);
    }
  }

  /** Every line of every group is one of the input lines, so a `<` in no
      input line is in no group. */
  lemma {:induction false} GroupNoOpen(lines: seq<string>)
    requires forall k :: 0 <= k < |lines| ==> '<' !in lines[k]
    ensures forall g, i :: 0 <= g < |Group(lines)| && 0 <= i < |Group(lines)[g]| ==> '<' !in Group(lines)[g][i]
  {
    if |lines| > 0 {
      var front := lines[..|lines| - 1];
      assert forall k :: 0 <= k < |front| ==> front[k] == lines[k];
      GroupNoOpen(front);
      var prev := Group(front);
      var p := lines[|lines| - 1];
      if |prev| > 0 && |p| < LongLine {
        ExtendNoOpen(prev, p);
      } else {
        StartNoOpen(prev, p);
      }
    }
  }

  lemma ExtendNoOpen(prev: seq<seq<string>>, p: string)
    requires |prev| > 0 && '<' !in p
    requires forall g, i :: 0 <= g < |prev| && 0 <= i < |prev[g]| ==> '<' !in prev[g][i]
    ensures var q := prev[..|prev| - 1] + [prev[|prev| - 1] + [p]];
      forall g, i :: 0 <= g < |q| && 0 <= i < |q[g]| ==> '<' !in q[g][i]
  {
    var n := |prev| - 1;
    var q := prev[..n] + [prev[n] + [p]];
    forall g, i | 0 <= g < |q| && 0 <= i < |q[g]| ensures '<' !in q[g][i] {
      if g < n {
        assert q[g] == prev[g];
      } else if i < |prev[n]| {
        assert q[g][i] == prev[n][i];
      } else {
        assert q[g][i] == p;
      }
    }
  }

  lemma StartNoOpen(prev: seq<seq<string>>, p: string)
    requires '<' !in p
    requires forall g, i :: 0 <= g < |prev| && 0 <= i < |prev[g]| ==> '<' !in prev[g][i]
    ensures forall g, i :: 0 <= g < |prev + [[p]]| && 0 <= i < |(prev + [[p]])[g]| ==> '<' !in (prev + [[p]])[g][i]
  {
    var q := prev + [[p]];
    forall g, i | 0 <= g < |q| && 0 <= i < |q[g]| ensures '<' !in q[g][i] {
      if g < |prev| {
        assert q[g] == prev[g];
      }
    }
  }

  /** Adding a line to the last group changes only the last paragraph. */
  lemma ParasExtend(prev: seq<seq<string>>, p: string)
    requires |prev| > 0
    ensures Paras(prev[..|prev| - 1] + [prev[|prev| - 1] + [p]])
         == Paras(prev)[..|prev| - 1] + [Para(prev[|prev| - 1] + [p])]
  {
    var n := |prev| - 1;
    var q := prev[..n] + [prev[n] + [p]];
    assert forall g :: 0 <= g < n ==> q[g] == prev[g];
  }

  /** Opening a group adds one paragraph at the end. */
  lemma ParasStart(prev: seq<seq<string>>, p: string)
    ensures Paras(prev + [[p]]) == Paras(prev) + [Para([p])]
  {
    assert forall g :: 0 <= g < |prev| ==> (prev + [[p]])[g] == prev[g];
  }

  /** The paragraph of a one-line group. */
  lemma ParaOne(p: string)
    ensures Para([p]) == "<p>" + p + "</p>"
  {
    assert [p][..0] == [];
  }

  /** The as-written step that extends the last paragraph builds the
      paragraphs of the extended grouping. */
  lemma AgreeExtend(prev: seq<seq<string>>, p: string)
    requires |prev| > 0 && '<' !in p
    requires forall g, i :: 0 <= g < |prev| && 0 <= i < |prev[g]| ==> '<' !in prev[g][i]
    ensures Paras(prev)[..|prev| - 1] + [ReplaceAll(Paras(prev)[|prev| - 1], "</p>", p + "</p>")]
         == Paras(prev[..|prev| - 1] + [prev[|prev| - 1] + [p]])
  {
    var n := |prev| - 1;
    ParasExtend(prev, p);
    assert ReplaceAll(Paras(prev)[n], "</p>", p + "</p>") == Para(prev[n] + [p]) by {
      ConcatNoOpen(prev[n]);
      AppendToPara(Concat(prev[n]), p);
      ConcatAppend(prev[n], p);
    }
  }

  /** The as-written step that opens a paragraph builds the paragraphs of
      the grouping with a new group. */
  lemma AgreeStart(prev: seq<seq<string>>, p: string)
    ensures Paras(prev) + ["<p>" + p + "</p>"] == Paras(prev + [[p]])
  {
    ParasStart(prev, p);
    ParaOne(p);
  }

  /** As long as no kept line contains `<`, the loop as written builds
      exactly the intended paragraphs. */
  lemma {:induction false} AsWrittenAgrees(lines: seq<string>)
    requires forall k :: 0 <= k < |lines| ==> '<' !in lines[k]
    ensures FormatAsWritten(lines) == Format(lines)
  {
    if |lines| > 0 {
      var front := lines[..|lines| - 1];
      var p := lines[|lines| - 1];
      assert forall k :: 0 <= k < |front| ==> front[k] == lines[k];
      AsWrittenAgrees(front);
      var prev := Group(front);
      var paras := FormatAsWritten(front);
      assert paras == Paras(prev);
      if |prev| > 0 && |p| < LongLine {
        var n := |prev| - 1;
        assert FormatAsWritten(lines) == paras[..n] + [ReplaceAll(paras[n], "</p>", p + "</p>")];
        assert Group(lines) == prev[..n] + [prev[n] + [p]];
        GroupNoOpen(front);
        AgreeExtend(prev, p);
      } else {
        assert FormatAsWritten(lines) == paras + ["<p>" + p + "</p>"];
        assert Group(lines) == prev + [[p]];
        AgreeStart(prev, p);
      }
    }
  }

  /** The loop as written on a first line `x</p>`: one paragraph holding
      two closing tags. */
  lemma FirstParaAsWritten(x: string)
    ensures FormatAsWritten([x + "</p>"]) == ["<p>" + x + "</p>" + "</p>"]
  {
    assert [x + "</p>"][..0] == [];
    assert "<p>" + (x + "</p>") + "</p>" == "<p>" + x + "</p>" + "</p>";
  }

  /** Both closing tags of that paragraph take the inserted text. */
  lemma DoubleInsert(x: string, p: string)
    requires '<' !in x
    ensures ReplaceAll("<p>" + x + "</p>" + "</p>", "</p>", p + "</p>") == "<p>" + x + p + "</p>" + p + "</p>"
  {
    var rep := p + "</p>";
    NoCloseBefore(x, "</p>" + "</p>");
    assert "<p>" + x + ("</p>" + "</p>") == "<p>" + x + "</p>" + "</p>";
    ReplaceAt("<p>" + x, "</p>", "</p>", rep);
    ReplaceCloseTag(rep);
  }

  /** The intended grouping of the two lines: one group. */
  lemma GroupTwo(a: string, p: string)
    requires |p| < LongLine
    ensures Group([a, p]) == [[a, p]]
  {
    assert [a, p][..1] == [a];
    assert [a][..0] == [];
    var prev := Group([a]);
    assert prev == [[a]];
    assert prev[..0] == [] && prev[0] + [p] == [a, p];
  }

  lemma ConcatTwo(a: string, p: string)
    ensures Concat([a, p]) == a + p
  {
    assert [a, p][..1] == [a];
    assert [a][..0] == [];
  }

  lemma ParasOne(g: seq<string>)
    ensures Paras([g]) == [Para(g)]
  {
  }

  /** The intended paragraph of the two lines. */
  lemma IntendedTwo(a: string, p: string)
    requires |p| < LongLine
    ensures Format([a, p]) == ["<p>" + a + p + "</p>"]
  {
    GroupTwo(a, p);
    ParasOne([a, p]);
    ConcatTwo(a, p);
    assert "<p>" + (a + p) + "</p>" == "<p>" + a + p + "</p>";
  }

  /** The source's loop goes wrong on a line ending in `</p>`: a short line
      after it is inserted at both closing tags, so its text appears
      twice, while the intended paragraph holds it once.  The smallest
      instance is the kept lines `a</p>` and `zz`. */
  lemma ClosingTagInLine(x: string, p: string)
    requires '<' !in x && |p| < LongLine
    ensures FormatAsWritten([x + "</p>", p]) == ["<p>" + x + p + "</p>" + p + "</p>"]
    ensures Format([x + "</p>", p]) == ["<p>" + x + "</p>" + p + "</p>"]
  {
    assert [x + "</p>", p][..1] == [x + "</p>"];
    FirstParaAsWritten(x);
    DoubleInsert(x, p);
    IntendedTwo(x + "</p>", p);
    assert "<p>" + (x + "</p>") + p + "</p>" == "<p>" + x + "</p>" + p + "</p>";
  }

  // ---------------------------------------------------------------------
  // Pages
  // ---------------------------------------------------------------------

  /** The longest title a page keeps. */
  const TitleLimit := 100

  /** `title[:100]`. */
  function PageTitle(title: string): (r: string)
    ensures StartsWith(title, r)
    ensures |r| == if |title| <= TitleLimit then |title| else TitleLimit
  {
    PySlice(title, 0, TitleLimit)
  }

  /** `f'chapter_{index:04d}.xhtml'`. */
  function PageFile(index: nat): string {
    "chapter_" + ZeroPad(index, 4) + ".xhtml"
  }

  /** Different chapters get different files, and the first ten thousand
      all have names of the same length. */
  lemma PageFileInjective(a: nat, b: nat)
    ensures PageFile(a) == PageFile(b) ==> a == b
    ensures a < 10000 ==> |PageFile(a)| == 18
  {
    if PageFile(a) == PageFile(b) {
      var pa := ZeroPad(a, 4);
      var pb := ZeroPad(b, 4);
      assert PageFile(a)[8..|PageFile(a)| - 6] == pa;
      assert PageFile(b)[8..|PageFile(b)| - 6] == pb;
      ZeroPadInjective(a, b, 4);
    }
    ZeroPadShape(a, 4);
    DecimalWidth(a);
  }

  // ---------------------------------------------------------------------
  // Cover type
  // ---------------------------------------------------------------------

  type Byte = b: int | 0 <= b < 256

  datatype CoverType = Svg | Png | Jpeg

  /** The bytes of `b'<svg'`. */
  const SvgMagic: seq<Byte> := [0x3C, 0x73, 0x76, 0x67]

  /** The bytes of `b'\x89PNG'`. */
  const PngMagic: seq<Byte> := [0x89, 0x50, 0x4E, 0x47]

  predicate BytesStartWith(data: seq<Byte>, prefix: seq<Byte>) {
    |prefix| <= |data| && data[..|prefix|] == prefix
  }

  /** The cover branch of `create_epub`: SVG text, a PNG signature, and
      JPEG for anything else. */
  function CoverTypeOf(data: seq<Byte>): (t: CoverType)
    ensures t == Svg <==> BytesStartWith(data, SvgMagic)
    ensures t == Png <==> !BytesStartWith(data, SvgMagic) && BytesStartWith(data, PngMagic)
  {
    if BytesStartWith(data, SvgMagic) then Svg
    else if BytesStartWith(data, PngMagic) then Png
    else Jpeg
  }

  /** The file name and media type recorded for each cover type. */
  function CoverFile(t: CoverType): (r: (string, string)) {
    match t
    case Svg => ("cover.svg", "image/svg+xml")
    case Png => ("cover.png", "image/png")
    case Jpeg => ("cover.jpg", "image/jpeg")
  }

  /** A full PNG signature is typed PNG, a JPEG start-of-image marker falls
      to JPEG, and data too short for either signature is JPEG too. */
  lemma CoverExamples(rest: seq<Byte>)
    ensures CoverTypeOf([0x89, 0x50, 0x4E, 0x47, 0x0D, 0x0A, 0x1A, 0x0A] + rest) == Png
    ensures CoverTypeOf([0xFF, 0xD8, 0xFF] + rest) == Jpeg
    ensures CoverTypeOf([0x3C, 0x73, 0x76, 0x67, 0x20] + rest) == Svg
    ensures CoverTypeOf([0x3C, 0x73, 0x76]) == Jpeg
  {
    var png := [0x89, 0x50, 0x4E, 0x47, 0x0D, 0x0A, 0x1A, 0x0A] + rest;
    assert png[..4] == PngMagic;
    var jpg := [0xFF, 0xD8, 0xFF] + rest;
    if |jpg| >= 4 {
      assert jpg[0] == 0xFF;
    }
    var svg := [0x3C, 0x73, 0x76, 0x67, 0x20] + rest;
    assert svg[..4] == SvgMagic;
  }
}

/** `natural_sort_key`: a file name cut into its text pieces and digit runs,
    the runs read as numbers and the text lower-cased, so that "vol2" sorts
    before "Vol10"; and the order in which a book folder's files are read
    and joined before parsing. */
module NaturalKey {
  import opened Wrappers
  import opened Text
  import opened Numerals
  import opened Ordering

  predicate NoDigit(s: string) {
    forall i :: 0 <= i < |s| ==> !IsDigit(s[i])
  }

  /** The index of the first digit of `s`, or `|s|`. */
  function FirstDigit(s: string): (i: nat)
    ensures i <= |s|
    ensures NoDigit(s[..i])
    ensures i < |s| ==> IsDigit(s[i])
    decreases |s|
  {
    if |s| == 0 || IsDigit(s[0]) then 0
    else
      var i := 1 + FirstDigit(s[1..]);
      assert forall k :: 1 <= k < i ==> s[..i][k] == s[1..][..i - 1][k - 1];
      i
  }

  /** The end of the run of digits starting at `i`. */
  function DigitsEnd(s: string, i: nat): (j: nat)
    requires i <= |s|
    ensures i <= j <= |s|
    ensures AllDigits(s[i..j])
    ensures j < |s| ==> !IsDigit(s[j])
    decreases |s| - i
  {
    if i < |s| && IsDigit(s[i]) then
      var j := DigitsEnd(s, i + 1);
      assert s[i..j] == [s[i]] + s[i + 1..j];
      j
    else i
  }

  /** Text pieces and digit runs alternate: a digit-free text, then any
      number of pairs of a non-empty digit run and a digit-free text, the
      texts between two runs being non-empty. */
  predicate Alternating(parts: seq<string>)
    decreases |parts|
  {
    && |parts| >= 1
    && NoDigit(parts[0])
    && (|parts| == 1 ||
        (&& |parts| >= 3
         && |parts[1]| > 0 && AllDigits(parts[1])
         && (|parts| > 3 ==> |parts[2]| > 0)
         && Alternating(parts[2..])))
  }

  /** `re.split(r'(\d+)', s)`: text pieces and maximal digit runs,
      alternating, starting and ending with a text piece that may be empty;
      the pieces put together give back `s`. */
  function SplitDigits(s: string): (parts: seq<string>)
    ensures Alternating(parts)
    ensures parts[0] == s[..FirstDigit(s)]
    decreases |s|
  {
    var i := FirstDigit(s);
    if i == |s| then
      assert s[..i] == s;
      [s]
    else
      var j := DigitsEnd(s, i);
      var rest := SplitDigits(s[j..]);
      assert |rest| > 1 ==> |rest[0]| > 0 by {
        if j < |s| {
          assert !IsDigit(s[j..][0]);
        }
      }
      AlternatingCons(s[..i], s[i..j], rest);
      [s[..i], s[i..j]] + rest
  }

  /** Putting the pieces back together gives back the name. */
  lemma {:induction false} SplitDigitsGlue(s: string)
    ensures Glue(SplitDigits(s)) == s
    decreases |s|
  {
    var i := FirstDigit(s);
    if i == |s| {
      assert s[..i] == s;
    } else {
      var j := DigitsEnd(s, i);
      var text, run, tail := s[..i], s[i..j], s[j..];
      assert s == text + run + tail;
      assert SplitDigits(s) == [text, run] + SplitDigits(tail);
      SplitDigitsGlue(tail);
      GlueTwoMore(text, run, SplitDigits(tail));
    }
  }

  /** The alternation by position: texts at even and digit runs at odd
      positions, an odd number of pieces, and no empty text strictly
      inside. */
  lemma {:induction false} AlternatingPositions(parts: seq<string>)
    requires Alternating(parts)
    ensures |parts| % 2 == 1
    ensures forall i :: 0 <= i < |parts| && i % 2 == 0 ==> NoDigit(parts[i])
    ensures forall i :: 0 <= i < |parts| && i % 2 == 1 ==> |parts[i]| > 0 && AllDigits(parts[i])
    ensures forall i :: 0 < i < |parts| - 1 && i % 2 == 0 ==> |parts[i]| > 0
    decreases |parts|
  {
    if |parts| > 1 {
      var rest := parts[2..];
      AlternatingPositions(rest);
      forall i | 2 <= i < |parts| ensures parts[i] == rest[i - 2] && (i % 2 == 0 <==> (i - 2) % 2 == 0) {
      }
    }
  }

  /** The pieces put back together, `"".join(parts)`. */
  function Glue(parts: seq<string>): string {
    if |parts| == 0 then "" else parts[0] + Glue(parts[1..])
  }

  lemma AlternatingCons(text: string, run: string, rest: seq<string>)
    requires NoDigit(text) && |run| > 0 && AllDigits(run)
    requires Alternating(rest) && (|rest| > 1 ==> |rest[0]| > 0)
    ensures Alternating([text, run] + rest)
  {
    assert ([text, run] + rest)[2..] == rest;
  }

  lemma GlueTwoMore(a: string, b: string, rest: seq<string>)
    ensures Glue([a, b] + rest) == a + b + Glue(rest)
  {
    var parts := [a, b] + rest;
    assert parts[1..] == [b] + rest;
    assert parts[1..][1..] == rest;
  }

  /** One element of the key: a number for a digit run, otherwise the
      lower-cased text. */
  datatype Part = Word(text: string) | Number(value: nat)

  /** `int(text) if text.isdigit() else text.lower()`. */
  function PartKey(t: string): Part {
    if |t| > 0 && AllDigits(t) then Number(DecimalValue(t)) else Word(Lower(t))
  }

  /** `natural_sort_key(s)`: texts and numbers alternate, starting and
      ending with a text, and every text is lower-case and digit-free. */
  function Key(s: string): (k: seq<Part>)
    ensures |k| % 2 == 1
    ensures forall i :: 0 <= i < |k| ==> (k[i].Number? <==> i % 2 == 1)
    ensures forall i :: 0 <= i < |k| && k[i].Word? ==>
      Lower(k[i].text) == k[i].text && NoDigit(k[i].text)
  {
    var parts := SplitDigits(s);
    AlternatingPositions(parts);
    var k := seq(|parts|, i requires 0 <= i < |parts| => PartKey(parts[i]));
    forall i | 0 <= i < |k| && i % 2 == 0 ensures k[i].Word? {
      if |parts[i]| > 0 {
        assert !IsDigit(parts[i][0]);
      }
    }
    k
  }

  // ---------------------------------------------------------------------
  // Case does not matter
  // ---------------------------------------------------------------------

  lemma LowerSlices(s: string, i: nat, j: nat)
    requires i <= j <= |s|
    ensures Lower(s)[i..j] == Lower(s[i..j])
    ensures Lower(s)[..i] == Lower(s[..i])
    ensures Lower(s)[j..] == Lower(s[j..])
  {
  }

  lemma {:induction false} FirstDigitLower(s: string)
    ensures FirstDigit(Lower(s)) == FirstDigit(s)
    decreases |s|
  {
    if |s| > 0 && !IsDigit(s[0]) {
      LowerSlices(s, 1, |s|);
      FirstDigitLower(s[1..]);
    }
  }

  lemma {:induction false} DigitsEndLower(s: string, i: nat)
    requires i <= |s|
    ensures DigitsEnd(Lower(s), i) == DigitsEnd(s, i)
    decreases |s| - i
  {
    if i < |s| && IsDigit(s[i]) {
      DigitsEndLower(s, i + 1);
    }
  }

  /** Lower-casing commutes with the split: the pieces of the lower-cased
      name are the lower-cased pieces. */
  lemma {:induction false} SplitDigitsLower(s: string)
    ensures |SplitDigits(Lower(s))| == |SplitDigits(s)|
    ensures forall k :: 0 <= k < |SplitDigits(s)| ==> SplitDigits(Lower(s))[k] == Lower(SplitDigits(s)[k])
    decreases |s|
  {
    FirstDigitLower(s);
    var i := FirstDigit(s);
    if i == |s| {
      assert Lower(s)[..i] == Lower(s);
    } else {
      var j := DigitsEnd(s, i);
      DigitsEndLower(s, i);
      LowerSlices(s, i, j);
      SplitDigitsLower(s[j..]);
    }
  }

  lemma PartKeyLower(t: string)
    ensures PartKey(Lower(t)) == PartKey(t)
  {
    if |t| > 0 && AllDigits(t) {
      assert Lower(t) == t;
    } else {
      assert Lower(Lower(t)) == Lower(t);
      if |t| > 0 {
        var k :| 0 <= k < |t| && !IsDigit(t[k]);
        assert !IsDigit(Lower(t)[k]);
      }
    }
  }

  /** The key does not depend on ASCII case. */
  lemma KeyIgnoresCase(s: string)
    ensures Key(Lower(s)) == Key(s)
  {
    SplitDigitsLower(s);
    var a := SplitDigits(Lower(s));
    var b := SplitDigits(s);
    forall k | 0 <= k < |a| ensures PartKey(a[k]) == PartKey(b[k]) {
      PartKeyLower(b[k]);
    }
  }

  // ---------------------------------------------------------------------
  // The order on keys
  // ---------------------------------------------------------------------

  predicate CharLess(a: char, b: char) {
    a < b
  }

  /** Python's `<` between two key elements: strings by code points,
      numbers by value.  A string and a number are never compared, since
      every key has texts at even and numbers at odd positions; the order
      given to that case here only makes the relation total. */
  predicate PartLess(a: Part, b: Part) {
    match (a, b)
    case (Number(x), Number(y)) => x < y
    case (Word(x), Word(y)) => LexLess(x, y, CharLess)
    case (Number(_), Word(_)) => true
    case (Word(_), Number(_)) => false
  }

  /** Python's `<` between two keys. */
  predicate KeyLess(a: seq<Part>, b: seq<Part>) {
    LexLess(a, b, PartLess)
  }

  lemma PartLessIsStrictTotalOrder()
    ensures StrictTotalOrder(PartLess)
  {
    assert StrictTotalOrder(CharLess);
    forall a: Part ensures !PartLess(a, a) {
      if a.Word? {
        LexIrreflexive(a.text, CharLess);
      }
    }
    forall a: Part, b: Part, c: Part | PartLess(a, b) && PartLess(b, c) ensures PartLess(a, c) {
      if a.Word? && b.Word? && c.Word? {
        LexTransitive(a.text, b.text, c.text, CharLess);
      }
    }
    forall a: Part, b: Part | a != b ensures PartLess(a, b) || PartLess(b, a) {
      if a.Word? && b.Word? {
        LexTotal(a.text, b.text, CharLess);
      }
    }
  }

  lemma KeyLessIsStrictTotalOrder()
    ensures StrictTotalOrder(KeyLess)
  {
    PartLessIsStrictTotalOrder();
    forall a: seq<Part> ensures !KeyLess(a, a) {
      LexIrreflexive(a, PartLess);
    }
    forall a: seq<Part>, b: seq<Part>, c: seq<Part> | KeyLess(a, b) && KeyLess(b, c)
      ensures KeyLess(a, c)
    {
      LexTransitive(a, b, c, PartLess);
    }
    forall a: seq<Part>, b: seq<Part> | a != b ensures KeyLess(a, b) || KeyLess(b, a) {
      LexTotal(a, b, PartLess);
    }
  }

  /** The key of a digit-free stem followed by a number. */
  lemma {:induction false} StemNumberKey(p: string, n: nat)
    requires NoDigit(p)
    ensures Key(p + Decimal(n)) == [Word(Lower(p)), Number(n), Word("")]
  {
    var s := p + Decimal(n);
    var d := Decimal(n);
    assert s[..|p|] == p;
    assert FirstDigit(s) == |p| by {
      assert forall k :: 0 <= k < |p| ==> s[k] == p[k];
      assert IsDigit(s[|p|]);
      var i := FirstDigit(s);
      assert i <= |p| by {
        assert forall k :: 0 <= k < i ==> s[..i][k] == s[k];
      }
    }
    assert DigitsEnd(s, |p|) == |s|;
    assert s[|p|..|s|] == d;
    assert s[|s|..] == "";
    assert SplitDigits("") == [""];
    assert SplitDigits(s) == [p, d, ""];
    DecimalRoundTrip(n);
  }

  /** Names that differ only in the case of their stem and in a trailing
      number are ordered by that number, so chapter files numbered without
      leading zeros are read in numeric order. */
  lemma NumberedNamesInOrder(p: string, q: string, m: nat, n: nat)
    requires NoDigit(p) && NoDigit(q) && Lower(p) == Lower(q)
    requires m < n
    ensures KeyLess(Key(p + Decimal(m)), Key(q + Decimal(n)))
  {
    StemNumberKey(p, m);
    StemNumberKey(q, n);
  }

  /** "vol2" comes before "Vol10". */
  lemma Vol2BeforeVol10()
    ensures KeyLess(Key("vol2"), Key("Vol10"))
  {
    assert Decimal(2) == "2";
    assert Decimal(10) == "10";
    assert "vol2" == "vol" + Decimal(2);
    assert "Vol10" == "Vol" + Decimal(10);
    assert Lower("Vol") == "vol";
    NumberedNamesInOrder("vol", "Vol", 2, 10);
  }

  // ---------------------------------------------------------------------
  // Reading a book folder
  // ---------------------------------------------------------------------

  /** A file of a book folder: its name, and its text (None when every
      encoding tried fails). */
  datatype TextFile = TextFile(name: string, text: Option<string>)

  function NameKey(f: TextFile): seq<Part> {
    Key(f.name)
  }

  /** `sorted(file_list, key=natural_sort_key)`, a stable sort. */
  function ReadOrder(files: seq<TextFile>): (r: seq<TextFile>)
    ensures multiset(r) == multiset(files)
    ensures forall i, j :: 0 <= i < j < |r| ==> !KeyLess(Key(r[j].name), Key(r[i].name))
    ensures forall k :: KeyFilter(r, NameKey, k) == KeyFilter(files, NameKey, k)
  {
    KeyLessIsStrictTotalOrder();
    var r := SortBy(files, NameKey, KeyLess);
    SortSpec(files, NameKey, KeyLess);
    assert SortedBy(r, NameKey, KeyLess);
    r
  }

  /** The positions of the files that could be read, in increasing order:
      every readable file's position, and nothing else. */
  function ReadableIndices(files: seq<TextFile>): (idx: seq<nat>)
    ensures forall i :: 0 <= i < |idx| ==> idx[i] < |files| && files[idx[i]].text.Some?
    ensures forall i, j :: 0 <= i < j < |idx| ==> idx[i] < idx[j]
    ensures forall k :: 0 <= k < |files| && files[k].text.Some? ==> k in idx
  {
    if |files| == 0 then []
    else
      var front := files[..|files| - 1];
      assert forall k :: 0 <= k < |front| ==> front[k] == files[k];
      ReadableIndices(front) + (if files[|files| - 1].text.Some? then [|front|] else [])
  }

  /** The texts that could be read, in order: the text of each readable
      file, one per file, in the order of the files. */
  function Readable(files: seq<TextFile>): (texts: seq<string>)
    ensures |texts| <= |files|
    ensures |texts| == 0 <==> forall k :: 0 <= k < |files| ==> files[k].text.None?
    ensures |texts| == |ReadableIndices(files)|
    ensures forall i :: 0 <= i < |texts| ==> Some(texts[i]) == files[ReadableIndices(files)[i]].text
  {
    if |files| == 0 then []
    else
      var front := files[..|files| - 1];
      var last := files[|files| - 1];
      assert forall k :: 0 <= k < |front| ==> front[k] == files[k];
      Readable(front) + (if last.text.Some? then [last.text.value] else [])
  }

  /** The merged text of the newer generation: unreadable files are
      skipped, nothing readable gives None, and the texts are joined with a
      blank line between them. */
  function MergedText(files: seq<TextFile>): (r: Option<string>)
    ensures r.None? <==> forall k :: 0 <= k < |files| ==> files[k].text.None?
    ensures r.Some? ==> r.value == Join(Readable(ReadOrder(files)), "\n\n")
  {
    var texts := Readable(ReadOrder(files));
    ReadOrderReadable(files);
    if |texts| == 0 then None else Some(Join(texts, "\n\n"))
  }

  /** The merged text of the older generation: the readable texts joined
      with a single newline, "" when nothing could be read. */
  function LegacyMergedText(files: seq<TextFile>): (r: string)
    ensures (forall k :: 0 <= k < |files| ==> files[k].text.None?) ==> r == ""
  {
    ReadOrderReadable(files);
    Join(Readable(ReadOrder(files)), "\n")
  }

  /** Sorting does not change whether some file is readable. */
  lemma ReadOrderReadable(files: seq<TextFile>)
    ensures (forall k :: 0 <= k < |ReadOrder(files)| ==> ReadOrder(files)[k].text.None?) <==>
      (forall k :: 0 <= k < |files| ==> files[k].text.None?)
  {
    var r := ReadOrder(files);
    forall k | 0 <= k < |files| && files[k].text.Some?
      ensures exists j :: 0 <= j < |r| && r[j].text.Some?
    {
      assert files[k] in multiset(r);
    }
    forall k | 0 <= k < |r| && r[k].text.Some?
      ensures exists j :: 0 <= j < |files| && files[j].text.Some?
    {
      assert r[k] in multiset(files);
    }
  }
}

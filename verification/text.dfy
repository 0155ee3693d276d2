/** Character classes and the handful of Python `str` operations the
    chapter engine relies on: strip, startswith, split, join, replace. */
module Text {

  /** Python's `str.isspace()`, which is also what `\s` and `str.strip()`
      use for `str` values: the code points with bidirectional class WS, B
      or S, or general category Zs. */
  predicate IsSpace(c: char) {
    || ('\U{0009}' <= c <= '\U{000D}')
    || ('\U{001C}' <= c <= '\U{0020}')
    || c == '\U{0085}' || c == '\U{00A0}' || c == '\U{1680}'
    || ('\U{2000}' <= c <= '\U{200A}')
    || c == '\U{2028}' || c == '\U{2029}' || c == '\U{202F}'
    || c == '\U{205F}' || c == '\U{3000}'
  }

  predicate IsDigit(c: char) {
    '0' <= c <= '9'
  }

  /** The ASCII digits, the class `\d` and `0-9` stand for here. */
  const Digits: set<char> := {'0', '1', '2', '3', '4', '5', '6', '7', '8', '9'}

  /** A string Python's `s.strip()` turns into the empty string. */
  predicate IsBlank(s: string) {
    forall i :: 0 <= i < |s| ==> IsSpace(s[i])
  }

  predicate AllDigits(s: string) {
    forall i :: 0 <= i < |s| ==> IsDigit(s[i])
  }

  predicate StartsWith(s: string, prefix: string) {
    |prefix| <= |s| && s[..|prefix|] == prefix
  }

  predicate OccursAt(s: string, i: int, pat: string) {
    0 <= i && i + |pat| <= |s| && s[i..i + |pat|] == pat
  }

  predicate Contains(s: string, pat: string) {
    exists i :: 0 <= i <= |s| && OccursAt(s, i, pat)
  }

  function LowerChar(c: char): char {
    if 'A' <= c <= 'Z' then (c as int + 32) as char else c
  }

  /** ASCII lower-casing, character by character. */
  function Lower(s: string): (r: string)
    ensures |r| == |s|
    ensures forall i :: 0 <= i < |s| ==> r[i] == LowerChar(s[i])
  {
    seq(|s|, i requires 0 <= i < |s| => LowerChar(s[i]))
  }

  /** `s.lstrip(chars)`, with the stripped characters given by `drop`. */
  function TrimStartBy(s: string, drop: char -> bool): (r: string)
    ensures |r| <= |s| && r == s[|s| - |r|..]
    ensures forall i :: 0 <= i < |s| - |r| ==> drop(s[i])
    ensures |r| > 0 ==> !drop(r[0])
    decreases |s|
  {
    if |s| > 0 && drop(s[0]) then TrimStartBy(s[1..], drop) else s
  }

  /** `s.rstrip(chars)`, with the stripped characters given by `drop`. */
  function TrimEndBy(s: string, drop: char -> bool): (r: string)
    ensures |r| <= |s| && r == s[..|r|]
    ensures forall i :: |r| <= i < |s| ==> drop(s[i])
    ensures |r| > 0 ==> !drop(r[|r| - 1])
    decreases |s|
  {
    if |s| > 0 && drop(s[|s| - 1]) then TrimEndBy(s[..|s| - 1], drop) else s
  }

  /** `s.strip(chars)`. */
  function StripBy(s: string, drop: char -> bool): string {
    TrimEndBy(TrimStartBy(s, drop), drop)
  }

  /** `s.lstrip()`. */
  function TrimStart(s: string): string {
    TrimStartBy(s, IsSpace)
  }

  /** `s.strip()`. */
  function Strip(s: string): string {
    StripBy(s, IsSpace)
  }

  lemma BlankSlice(s: string, i: nat, j: nat)
    requires i <= j <= |s|
    requires forall k :: i <= k < j ==> IsSpace(s[k])
    ensures IsBlank(s[i..j])
  {
    assert forall k :: 0 <= k < j - i ==> s[i..j][k] == s[i + k];
  }

  /** How many characters `s.lstrip()` removes. */
  function LeadingBlanks(s: string): nat {
    |s| - |TrimStart(s)|
  }

  /** The stripped string is the slice of the original starting after its
      leading whitespace; only whitespace was removed on either side, and
      what is left neither starts nor ends with whitespace. */
  lemma StripShape(s: string)
    ensures LeadingBlanks(s) + |Strip(s)| <= |s|
    ensures Strip(s) == s[LeadingBlanks(s)..LeadingBlanks(s) + |Strip(s)|]
    ensures IsBlank(s[..LeadingBlanks(s)]) && IsBlank(s[LeadingBlanks(s) + |Strip(s)|..])
    ensures |Strip(s)| > 0 ==> !IsSpace(Strip(s)[0]) && !IsSpace(Strip(s)[|Strip(s)| - 1])
  {
    StripSlice(s);
    StripBlankEnds(s);
  }

  lemma StripSlice(s: string)
    ensures LeadingBlanks(s) + |Strip(s)| <= |s|
    ensures Strip(s) == s[LeadingBlanks(s)..LeadingBlanks(s) + |Strip(s)|]
  {
    var t := TrimStartBy(s, IsSpace);
    var r := TrimEndBy(t, IsSpace);
    assert t == s[|s| - |t|..] && r == t[..|r|];
  }

  lemma StripBlankEnds(s: string)
    ensures LeadingBlanks(s) + |Strip(s)| <= |s|
    ensures IsBlank(s[..LeadingBlanks(s)]) && IsBlank(s[LeadingBlanks(s) + |Strip(s)|..])
  {
    StripBlankFront(s);
    StripBlankBack(s);
  }

  lemma StripBlankFront(s: string)
    ensures IsBlank(s[..LeadingBlanks(s)])
  {
    var k := LeadingBlanks(s);
    forall i | 0 <= i < k ensures IsSpace(s[..k][i]) {
      assert s[..k][i] == s[i];
    }
  }

  lemma StripBlankBack(s: string)
    ensures LeadingBlanks(s) + |Strip(s)| <= |s|
    ensures IsBlank(s[LeadingBlanks(s) + |Strip(s)|..])
  {
    var t := TrimStartBy(s, IsSpace);
    var r := TrimEndBy(t, IsSpace);
    BlankTail(s, t, |s| - |t|, |r|);
  }

  /** After a suffix `t` of `s` whose characters from `m` on are blank,
      the rest of `s` is blank. */
  lemma BlankTail(s: string, t: string, k: nat, m: nat)
    requires k + |t| == |s| && t == s[k..] && m <= |t|
    requires forall i :: m <= i < |t| ==> IsSpace(t[i])
    ensures IsBlank(s[k + m..])
  {
    var rest := s[k + m..];
    forall i | 0 <= i < |rest| ensures IsSpace(rest[i]) {
      assert rest[i] == t[m + i];
    }
  }

  /** Stripping only removes characters. */
  lemma StripKeepsChars(s: string)
    ensures forall c :: c in Strip(s) ==> c in s
  {
    StripShape(s);
    var k := LeadingBlanks(s);
    var r := Strip(s);
    forall c | c in r ensures c in s {
      var j :| 0 <= j < |r| && r[j] == c;
      assert s[k + j] == c;
    }
  }

  /** `s.strip()` is empty exactly when `s` is blank. */
  lemma StripEmptyIffBlank(s: string)
    ensures Strip(s) == "" <==> IsBlank(s)
  {
    StripShape(s);
  }

  /** Stripping twice strips nothing more. */
  lemma StripIdempotent(s: string)
    ensures Strip(Strip(s)) == Strip(s)
  {
    StripShape(s);
    var r := Strip(s);
    if |r| > 0 {
      assert TrimStartBy(r, IsSpace) == r;
      assert TrimEndBy(r, IsSpace) == r;
    }
  }

  /** A string that neither starts nor ends with whitespace is its own
      strip. */
  lemma StripUntrimmed(s: string)
    requires |s| > 0 ==> !IsSpace(s[0]) && !IsSpace(s[|s| - 1])
    ensures Strip(s) == s
  {
    if |s| > 0 {
      assert TrimStartBy(s, IsSpace) == s;
      assert TrimEndBy(s, IsSpace) == s;
    }
  }

  /** Python's `s[i:j]` for non-negative bounds: the end is clamped to the
      length, and a range that is empty or reversed gives "". */
  function PySlice(s: string, i: nat, j: nat): (r: string)
    ensures i <= j <= |s| ==> r == s[i..j]
    ensures j <= i ==> r == ""
    ensures |r| <= |s|
  {
    var e := if j <= |s| then j else |s|;
    if i < e then s[i..e] else ""
  }

  /** Position of the first `c` in `s`, or `|s|` when there is none. */
  function IndexOf(s: string, c: char): (i: nat)
    ensures i <= |s|
    ensures i < |s| ==> s[i] == c
    ensures forall j :: 0 <= j < i ==> s[j] != c
    decreases |s|
  {
    if |s| == 0 then 0
    else if s[0] == c then 0
    else 1 + IndexOf(s[1..], c)
  }

  /** `sep.join(parts)`. */
  function Join(parts: seq<string>, sep: string): string
    decreases |parts|
  {
    if |parts| == 0 then ""
    else if |parts| == 1 then parts[0]
    else parts[0] + sep + Join(parts[1..], sep)
  }

  /** `s.split(sep)` for a one-character separator: never empty, no part
      holds the separator, and joining the parts back gives `s`. */
  function Split(s: string, sep: char): (parts: seq<string>)
    ensures |parts| >= 1
    ensures forall i :: 0 <= i < |parts| ==> sep !in parts[i]
    ensures Join(parts, [sep]) == s
    decreases |s|
  {
    var i := IndexOf(s, sep);
    if i == |s| then [s]
    else
      var rest := Split(s[i + 1..], sep);
      assert s == s[..i] + [sep] + s[i + 1..];
      [s[..i]] + rest
  }

  /** The first part of a split is the text before the first separator. */
  lemma SplitHead(s: string, sep: char)
    ensures Split(s, sep)[0] == s[..IndexOf(s, sep)]
  {
  }

  /** Joining everything after the first part gives back the text after
      the first separator, or "" when there is no separator. */
  lemma SplitTail(s: string, sep: char)
    ensures var parts := Split(s, sep);
      var i := IndexOf(s, sep);
      && (|parts| > 1 <==> i < |s|)
      && (i < |s| ==> Join(parts[1..], [sep]) == s[i + 1..])
  {
  }

  /** `s.replace(pat, rep)`: every non-overlapping occurrence, scanning
      from the left. */
  function ReplaceAll(s: string, pat: string, rep: string): string
    requires |pat| > 0
    decreases |s|
  {
    if |s| < |pat| then s
    else if s[..|pat|] == pat then rep + ReplaceAll(s[|pat|..], pat, rep)
    else [s[0]] + ReplaceAll(s[1..], pat, rep)
  }

  /** Replacing a pattern that does not occur changes nothing. */
  lemma {:induction false} ReplaceAbsent(s: string, pat: string, rep: string)
    requires |pat| > 0
    requires !Contains(s, pat)
    ensures ReplaceAll(s, pat, rep) == s
    decreases |s|
  {
    if |s| >= |pat| {
      assert !OccursAt(s, 0, pat);
      assert !Contains(s[1..], pat) by {
        forall i | OccursAt(s[1..], i, pat) ensures false {
          assert OccursAt(s, i + 1, pat);
        }
      }
      ReplaceAbsent(s[1..], pat, rep);
    }
  }

  /** A prefix free of the separator passes through a replacement of it. */
  lemma {:induction false} ReplaceCharSkipsPrefix(a: string, b: string, c: char, rep: string)
    requires c !in a
    ensures ReplaceAll(a + b, [c], rep) == a + ReplaceAll(b, [c], rep)
    decreases |a|
  {
    if |a| > 0 {
      assert (a + b)[0] == a[0] != c;
      assert (a + b)[..1] != [c];
      assert (a + b)[1..] == a[1..] + b;
      assert ReplaceAll(a + b, [c], rep) == [a[0]] + ReplaceAll(a[1..] + b, [c], rep);
      ReplaceCharSkipsPrefix(a[1..], b, c, rep);
      assert a == [a[0]] + a[1..];
    } else {
      assert a + b == b;
    }
  }

  /** Replacing a one-character separator by a string is joining the split
      parts with that string. */
  lemma {:induction false} ReplaceCharIsJoin(s: string, c: char, rep: string)
    ensures ReplaceAll(s, [c], rep) == Join(Split(s, c), rep)
    decreases |s|
  {
    var i := IndexOf(s, c);
    if i == |s| {
      ReplaceCharSkipsPrefix(s, "", c, rep);
      assert s + "" == s;
    } else {
      var rest := s[i + 1..];
      assert s == s[..i] + ([c] + rest);
      ReplaceCharSkipsPrefix(s[..i], [c] + rest, c, rep);
      assert ([c] + rest)[1..] == rest;
      ReplaceCharIsJoin(rest, c, rep);
    }
  }
}

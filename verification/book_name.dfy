/** `find_common_book_name`: the book title shared by the file names of a
    folder, taken from their longest common prefix, or the folder's own name
    when that prefix is too short to be a title. */
module BookName {
  import opened Text

  /** The longest common prefix of two strings. */
  function CommonPrefix2(a: string, b: string): (p: string)
    ensures StartsWith(a, p) && StartsWith(b, p)
    ensures |p| == |a| || |p| == |b| || a[|p|] != b[|p|]
    decreases |a|
  {
    if |a| == 0 || |b| == 0 || a[0] != b[0] then ""
    else
      var rest := CommonPrefix2(a[1..], b[1..]);
      assert a == [a[0]] + a[1..] && b == [a[0]] + b[1..];
      [a[0]] + rest
  }

  /** No string longer than `p` is a prefix of every name: some name ends
      right after `p`, or two names differ just after it. */
  predicate Maximal(names: seq<string>, p: string)
    requires forall k :: 0 <= k < |names| ==> StartsWith(names[k], p)
  {
    || (exists k :: 0 <= k < |names| && |names[k]| == |p|)
    || (exists k, l :: 0 <= k < |names| && 0 <= l < |names| && |p| < |names[k]| && |p| < |names[l]| &&
          names[k][|p|] != names[l][|p|])
  }

  /** `os.path.commonprefix(names)`: the longest string that starts every
      name. */
  function CommonPrefix(names: seq<string>): (p: string)
    requires |names| > 0
    ensures forall k :: 0 <= k < |names| ==> StartsWith(names[k], p)
    ensures Maximal(names, p)
    decreases |names|
  {
    if |names| == 1 then names[0]
    else
      var front := names[..|names| - 1];
      var last := names[|names| - 1];
      var q := CommonPrefix(front);
      var p := CommonPrefix2(q, last);
      assert forall k :: 0 <= k < |front| ==> front[k] == names[k];
      CommonPrefixMaximal(names, q, p);
      p
  }

  /** Shortening a maximal prefix of all but the last name to the part it
      shares with the last name gives a maximal prefix of all the names. */
  lemma CommonPrefixMaximal(names: seq<string>, q: string, p: string)
    requires |names| > 1
    requires forall k :: 0 <= k < |names| - 1 ==> StartsWith(names[k], q)
    requires Maximal(names[..|names| - 1], q)
    requires p == CommonPrefix2(q, names[|names| - 1])
    ensures forall k :: 0 <= k < |names| ==> StartsWith(names[k], p)
    ensures Maximal(names, p)
  {
    var last := |names| - 1;
    var front := names[..last];
    assert forall k :: 0 <= k < |front| ==> front[k] == names[k];
    forall k | 0 <= k < |names| ensures StartsWith(names[k], p) {
      if k < last {
        assert names[k][..|p|] == q[..|p|];
      }
    }
    if |p| == |names[last]| {
      assert |names[last]| == |p|;
    } else if |p| == |q| {
      assert p == q;
      assert Maximal(front, q);
    } else {
      assert q[|p|] != names[last][|p|];
      assert names[0][|p|] == q[|p|];
    }
  }

  predicate Separator(c: char) {
    c == ' ' || c == '_' || c == '-'
  }

  /** A piece of a piece of `a` is a piece of `a`. */
  lemma ContainsTrans(a: string, b: string, c: string)
    requires Contains(a, b) && Contains(b, c)
    ensures Contains(a, c)
  {
    var i :| 0 <= i <= |a| && OccursAt(a, i, b);
    var j :| 0 <= j <= |b| && OccursAt(b, j, c);
    assert a[i..i + |b|] == b;
    assert j + |c| <= |b|;
    forall t | 0 <= t < |c| ensures a[i + j + t] == c[t] {
      assert a[i..i + |b|][j + t] == a[i + j + t];
      assert b[j..j + |c|][t] == b[j + t];
    }
    assert a[i + j..i + j + |c|] == c;
    assert OccursAt(a, i + j, c);
  }

  lemma TrimmedIsPiece(s: string, drop: char -> bool)
    ensures Contains(s, TrimStartBy(s, drop))
    ensures Contains(s, TrimEndBy(s, drop))
  {
    var a := TrimStartBy(s, drop);
    assert OccursAt(s, |s| - |a|, a);
    var b := TrimEndBy(s, drop);
    assert OccursAt(s, 0, b);
  }

  /** `prefix.strip(' _-').strip()`: a piece of the prefix that neither
      starts nor ends with whitespace. */
  function Cleaned(prefix: string): (r: string)
    ensures Contains(prefix, r)
    ensures |r| > 0 ==> !IsSpace(r[0]) && !IsSpace(r[|r| - 1])
  {
    var a := TrimStartBy(prefix, Separator);
    var b := TrimEndBy(a, Separator);
    var c := TrimStartBy(b, IsSpace);
    var r := TrimEndBy(c, IsSpace);
    TrimmedIsPiece(prefix, Separator);
    TrimmedIsPiece(a, Separator);
    TrimmedIsPiece(b, IsSpace);
    TrimmedIsPiece(c, IsSpace);
    ContainsTrans(prefix, a, b);
    ContainsTrans(prefix, b, c);
    ContainsTrans(prefix, c, r);
    r
  }

  /** `find_common_book_name(names, folder)`: no names, or a cleaned
      common prefix shorter than two characters, gives the folder's name;
      otherwise the cleaned prefix, which occurs in every name. */
  function FindBookName(names: seq<string>, folder: string): (r: string)
    ensures |names| == 0 ==> r == folder
    ensures |names| > 0 && |Cleaned(CommonPrefix(names))| < 2 ==> r == folder
    ensures |names| > 0 && |Cleaned(CommonPrefix(names))| >= 2 ==>
      && r == Cleaned(CommonPrefix(names))
      && forall k :: 0 <= k < |names| ==> Contains(names[k], r)
  {
    if |names| == 0 then folder
    else
      var p := CommonPrefix(names);
      var c := Cleaned(p);
      if |c| < 2 then folder
      else
        forall k | 0 <= k < |names| ensures Contains(names[k], c) {
          assert OccursAt(names[k], 0, p);
          ContainsTrans(names[k], p, c);
        }
        c
  }
}

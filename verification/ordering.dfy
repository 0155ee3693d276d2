/** Orders and the stable sort that Python's `sorted(xs, key=...)` performs.
    Python's `list.sort` is stable: elements whose keys compare equal keep
    their input order.  The sort here is an insertion sort with the same
    result: sorted by key, and for every key the elements carrying it appear
    in input order. */
module Ordering {

  /** `lt` is irreflexive, transitive and relates any two distinct values. */
  ghost predicate StrictTotalOrder<K(!new)>(lt: (K, K) -> bool) {
    && (forall a :: !lt(a, a))
    && (forall a, b, c :: lt(a, b) && lt(b, c) ==> lt(a, c))
    && (forall a, b :: a != b ==> lt(a, b) || lt(b, a))
  }

  /** Python's comparison of two lists or two strings: the first position
      where they differ decides, and a proper prefix comes first. */
  predicate LexLess<T(==)>(a: seq<T>, b: seq<T>, lt: (T, T) -> bool)
    decreases |a|
  {
    if |a| == 0 then |b| > 0
    else if |b| == 0 then false
    else if a[0] == b[0] then LexLess(a[1..], b[1..], lt)
    else lt(a[0], b[0])
  }

  lemma {:induction false} LexIrreflexive<T(!new)>(a: seq<T>, lt: (T, T) -> bool)
    requires StrictTotalOrder(lt)
    ensures !LexLess(a, a, lt)
    decreases |a|
  {
    if |a| > 0 {
      LexIrreflexive(a[1..], lt);
    }
  }

  lemma {:induction false} LexTransitive<T(!new)>(a: seq<T>, b: seq<T>, c: seq<T>, lt: (T, T) -> bool)
    requires StrictTotalOrder(lt)
    requires LexLess(a, b, lt) && LexLess(b, c, lt)
    ensures LexLess(a, c, lt)
    decreases |a|
  {
    if |a| > 0 && |b| > 0 && |c| > 0 {
      if a[0] == b[0] && b[0] == c[0] {
        LexTransitive(a[1..], b[1..], c[1..], lt);
      }
    }
  }

  lemma {:induction false} LexTotal<T(!new)>(a: seq<T>, b: seq<T>, lt: (T, T) -> bool)
    requires StrictTotalOrder(lt)
    requires a != b
    ensures LexLess(a, b, lt) || LexLess(b, a, lt)
    decreases |a|
  {
    if |a| > 0 && |b| > 0 && a[0] == b[0] {
      assert a == [a[0]] + a[1..] && b == [b[0]] + b[1..];
      LexTotal(a[1..], b[1..], lt);
    }
  }

  /** Lexicographic comparison over a strict total order is one too. */
  lemma LexIsStrictTotalOrder<T(!new)>(lt: (T, T) -> bool)
    requires StrictTotalOrder(lt)
    ensures StrictTotalOrder((a: seq<T>, b: seq<T>) => LexLess(a, b, lt))
  {
    forall a: seq<T> ensures !LexLess(a, a, lt) {
      LexIrreflexive(a, lt);
    }
    forall a: seq<T>, b: seq<T>, c: seq<T> | LexLess(a, b, lt) && LexLess(b, c, lt)
      ensures LexLess(a, c, lt)
    {
      LexTransitive(a, b, c, lt);
    }
    forall a: seq<T>, b: seq<T> | a != b
      ensures LexLess(a, b, lt) || LexLess(b, a, lt)
    {
      LexTotal(a, b, lt);
    }
  }

  /** No element is followed by one whose key is strictly smaller. */
  ghost predicate SortedBy<T, K>(s: seq<T>, key: T -> K, lt: (K, K) -> bool) {
    forall i, j :: 0 <= i < j < |s| ==> !lt(key(s[j]), key(s[i]))
  }

  /** The elements of `s` whose key is `k`, in order. */
  function KeyFilter<T, K(==)>(s: seq<T>, key: T -> K, k: K): seq<T>
    decreases |s|
  {
    if |s| == 0 then []
    else (if key(s[0]) == k then [s[0]] else []) + KeyFilter(s[1..], key, k)
  }

  lemma {:induction false} KeyFilterAppend<T, K>(a: seq<T>, b: seq<T>, key: T -> K, k: K)
    ensures KeyFilter(a + b, key, k) == KeyFilter(a, key, k) + KeyFilter(b, key, k)
    decreases |a|
  {
    if |a| == 0 {
      assert a + b == b;
    } else {
      var ab := a + b;
      var head := if key(a[0]) == k then [a[0]] else [];
      assert ab[0] == a[0] && ab[1..] == a[1..] + b;
      KeyFilterAppend(a[1..], b, key, k);
      assert KeyFilter(ab, key, k) == head + KeyFilter(ab[1..], key, k);
      assert KeyFilter(a, key, k) == head + KeyFilter(a[1..], key, k);
    }
  }

  lemma {:induction false} KeyFilterNone<T, K>(s: seq<T>, key: T -> K, k: K)
    requires forall i :: 0 <= i < |s| ==> key(s[i]) != k
    ensures KeyFilter(s, key, k) == []
    decreases |s|
  {
    if |s| > 0 {
      KeyFilterNone(s[1..], key, k);
    }
  }

  /** Put `x` after every element of `s` whose key is not greater. */
  function Insert<T, K>(x: T, s: seq<T>, key: T -> K, lt: (K, K) -> bool): (r: seq<T>)
    ensures |r| == |s| + 1
    ensures multiset(r) == multiset(s) + multiset{x}
    decreases |s|
  {
    if |s| == 0 then [x]
    else if lt(key(x), key(s[0])) then [x] + s
    else
      assert s == [s[0]] + s[1..];
      [s[0]] + Insert(x, s[1..], key, lt)
  }

  /** Where `Insert` puts `x`: after the leading elements whose key is not
      greater than `x`'s, before the first one whose key is. */
  function InsertPos<T, K>(x: T, s: seq<T>, key: T -> K, lt: (K, K) -> bool): (p: nat)
    ensures p <= |s|
    ensures forall i :: 0 <= i < p ==> !lt(key(x), key(s[i]))
    ensures p < |s| ==> lt(key(x), key(s[p]))
    decreases |s|
  {
    if |s| == 0 || lt(key(x), key(s[0])) then 0
    else 1 + InsertPos(x, s[1..], key, lt)
  }

  /** `Insert` places `x` at `InsertPos` and moves nothing else. */
  lemma {:induction false} InsertAt<T, K>(x: T, s: seq<T>, key: T -> K, lt: (K, K) -> bool)
    ensures Insert(x, s, key, lt) == s[..InsertPos(x, s, key, lt)] + [x] + s[InsertPos(x, s, key, lt)..]
    decreases |s|
  {
    if |s| == 0 {
      assert s[..0] + [x] + s[0..] == [x];
    } else if lt(key(x), key(s[0])) {
      assert s[..0] + [x] + s[0..] == [x] + s;
    } else {
      var t := s[1..];
      var q := InsertPos(x, t, key, lt);
      assert InsertPos(x, s, key, lt) == q + 1;
      calc {
        Insert(x, s, key, lt);
        [s[0]] + Insert(x, t, key, lt);
        { InsertAt(x, t, key, lt); }
        [s[0]] + (t[..q] + [x] + t[q..]);
        { ConsSlices(s, q, x); }
        s[..q + 1] + [x] + s[q + 1..];
      }
    }
  }

  lemma ConsSlices<T>(s: seq<T>, q: nat, x: T)
    requires q < |s|
    ensures [s[0]] + (s[1..][..q] + [x] + s[1..][q..]) == s[..q + 1] + [x] + s[q + 1..]
  {
    assert s[..q + 1] == [s[0]] + s[1..][..q];
    assert s[q + 1..] == s[1..][q..];
  }

  /** The elements of `Insert`'s result by position. */
  lemma InsertIndex<T, K>(x: T, s: seq<T>, key: T -> K, lt: (K, K) -> bool)
    ensures var p := InsertPos(x, s, key, lt);
      && |Insert(x, s, key, lt)| == |s| + 1
      && Insert(x, s, key, lt)[p] == x
      && (forall i :: 0 <= i < p ==> Insert(x, s, key, lt)[i] == s[i])
      && (forall i :: p < i <= |s| ==> Insert(x, s, key, lt)[i] == s[i - 1])
  {
    InsertAt(x, s, key, lt);
  }

  lemma InsertSorted<T, K(!new)>(x: T, s: seq<T>, key: T -> K, lt: (K, K) -> bool)
    requires StrictTotalOrder(lt)
    requires SortedBy(s, key, lt)
    ensures SortedBy(Insert(x, s, key, lt), key, lt)
  {
    var r := Insert(x, s, key, lt);
    var p := InsertPos(x, s, key, lt);
    InsertIndex(x, s, key, lt);
    forall i, j | 0 <= i < j < |r| ensures !lt(key(r[j]), key(r[i])) {
      if j < p {
        assert r[i] == s[i] && r[j] == s[j];
      } else if j == p {
        assert r[i] == s[i];
      } else if i < p {
        assert r[i] == s[i] && r[j] == s[j - 1];
      } else if i == p {
        assert r[j] == s[j - 1];
        assert lt(key(x), key(s[p]));
      } else {
        assert r[i] == s[i - 1] && r[j] == s[j - 1];
      }
    }
  }

  /** No element after the insertion point has the inserted key. */
  lemma InsertTailKeys<T, K(!new)>(x: T, s: seq<T>, key: T -> K, lt: (K, K) -> bool)
    requires StrictTotalOrder(lt)
    requires SortedBy(s, key, lt)
    ensures KeyFilter(s[InsertPos(x, s, key, lt)..], key, key(x)) == []
  {
    var p := InsertPos(x, s, key, lt);
    var b := s[p..];
    forall i | 0 <= i < |b| ensures key(b[i]) != key(x) {
      assert b[i] == s[p + i];
      if i > 0 {
        assert !lt(key(s[p + i]), key(s[p]));
      }
    }
    KeyFilterNone(b, key, key(x));
  }

  /** Among the elements with any one key, the inserted one comes last:
      the elements after it all have a greater key. */
  lemma InsertKeyFilter<T, K(!new)>(x: T, s: seq<T>, key: T -> K, lt: (K, K) -> bool, k: K)
    requires StrictTotalOrder(lt)
    requires SortedBy(s, key, lt)
    ensures KeyFilter(Insert(x, s, key, lt), key, k)
         == KeyFilter(s, key, k) + (if key(x) == k then [x] else [])
  {
    InsertTailKeys(x, s, key, lt);
    InsertKeyFilterAt(x, s, key, lt, k);
  }

  /** The key filter of an insertion, given that no later element shares
      the inserted key. */
  lemma InsertKeyFilterAt<T, K>(x: T, s: seq<T>, key: T -> K, lt: (K, K) -> bool, k: K)
    requires key(x) == k ==> KeyFilter(s[InsertPos(x, s, key, lt)..], key, k) == []
    ensures KeyFilter(Insert(x, s, key, lt), key, k)
         == KeyFilter(s, key, k) + (if key(x) == k then [x] else [])
  {
    var p := InsertPos(x, s, key, lt);
    var a, b := s[..p], s[p..];
    var single := if key(x) == k then [x] else [];
    assert KeyFilter([x], key, k) == single + KeyFilter([x][1..], key, k);
    calc {
      KeyFilter(Insert(x, s, key, lt), key, k);
      { InsertAt(x, s, key, lt); }
      KeyFilter(a + [x] + b, key, k);
      { KeyFilterAppend(a + [x], b, key, k); KeyFilterAppend(a, [x], key, k); }
      KeyFilter(a, key, k) + single + KeyFilter(b, key, k);
      KeyFilter(a, key, k) + KeyFilter(b, key, k) + single;
      { KeyFilterAppend(a, b, key, k); assert a + b == s; }
      KeyFilter(s, key, k) + single;
    }
  }

  /** `sorted(s, key=key)`: an insertion sort, each element put after the
      already sorted ones whose key is not greater.  What it promises is
      stated by the lemmas below. */
  function SortBy<T, K>(s: seq<T>, key: T -> K, lt: (K, K) -> bool): (r: seq<T>)
    ensures |r| == |s|
    decreases |s|
  {
    if |s| == 0 then []
    else Insert(s[|s| - 1], SortBy(s[..|s| - 1], key, lt), key, lt)
  }

  /** The sort rearranges: every element is kept as often as it occurs. */
  lemma {:induction false} SortPermutes<T, K>(s: seq<T>, key: T -> K, lt: (K, K) -> bool)
    ensures multiset(SortBy(s, key, lt)) == multiset(s)
    decreases |s|
  {
    if |s| > 0 {
      var front := s[..|s| - 1];
      SortPermutes(front, key, lt);
      assert s == front + [s[|s| - 1]];
    }
  }

  /** The sort orders by key. */
  lemma {:induction false} SortSorted<T, K(!new)>(s: seq<T>, key: T -> K, lt: (K, K) -> bool)
    requires StrictTotalOrder(lt)
    ensures SortedBy(SortBy(s, key, lt), key, lt)
    decreases |s|
  {
    if |s| > 0 {
      var front := s[..|s| - 1];
      SortSorted(front, key, lt);
      InsertSorted(s[|s| - 1], SortBy(front, key, lt), key, lt);
    }
  }

  /** The sort is stable: the elements carrying any one key come out in
      their input order. */
  lemma {:induction false} SortStable<T, K(!new)>(s: seq<T>, key: T -> K, lt: (K, K) -> bool, k: K)
    requires StrictTotalOrder(lt)
    ensures KeyFilter(SortBy(s, key, lt), key, k) == KeyFilter(s, key, k)
    decreases |s|
  {
    if |s| > 0 {
      var front := s[..|s| - 1];
      var last := s[|s| - 1];
      var single := if key(last) == k then [last] else [];
      calc {
        KeyFilter(SortBy(s, key, lt), key, k);
        KeyFilter(Insert(last, SortBy(front, key, lt), key, lt), key, k);
        { SortSorted(front, key, lt);
          InsertKeyFilter(last, SortBy(front, key, lt), key, lt, k); }
        KeyFilter(SortBy(front, key, lt), key, k) + single;
        { SortStable(front, key, lt, k); }
        KeyFilter(front, key, k) + single;
        { assert KeyFilter([last], key, k) == single + KeyFilter([last][1..], key, k); }
        KeyFilter(front, key, k) + KeyFilter([last], key, k);
        { KeyFilterAppend(front, [last], key, k); }
        KeyFilter(front + [last], key, k);
        { assert front + [last] == s; }
        KeyFilter(s, key, k);
      }
    }
  }

  /** The three promises of the sort together. */
  lemma SortSpec<T, K(!new)>(s: seq<T>, key: T -> K, lt: (K, K) -> bool)
    requires StrictTotalOrder(lt)
    ensures multiset(SortBy(s, key, lt)) == multiset(s)
    ensures SortedBy(SortBy(s, key, lt), key, lt)
    ensures forall k :: KeyFilter(SortBy(s, key, lt), key, k) == KeyFilter(s, key, k)
  {
    SortPermutes(s, key, lt);
    SortSorted(s, key, lt);
    forall k ensures KeyFilter(SortBy(s, key, lt), key, k) == KeyFilter(s, key, k) {
      SortStable(s, key, lt, k);
    }
  }

  /** `ok` holds between every earlier and every later element. */
  ghost predicate Pairwise<T>(s: seq<T>, ok: (T, T) -> bool) {
    forall i, j :: 0 <= i < j < |s| ==> ok(s[i], s[j])
  }

  lemma InsertPairwise<T, K>(x: T, s: seq<T>, key: T -> K, lt: (K, K) -> bool, ok: (T, T) -> bool)
    requires Pairwise(s, ok)
    requires forall i :: 0 <= i < |s| ==> ok(x, s[i]) && ok(s[i], x)
    ensures Pairwise(Insert(x, s, key, lt), ok)
  {
    var r := Insert(x, s, key, lt);
    var p := InsertPos(x, s, key, lt);
    InsertIndex(x, s, key, lt);
    forall i, j | 0 <= i < j < |r| ensures ok(r[i], r[j]) {
      if j < p {
        assert r[i] == s[i] && r[j] == s[j];
      } else if j == p {
        assert r[i] == s[i];
      } else if i < p {
        assert r[i] == s[i] && r[j] == s[j - 1];
      } else if i == p {
        assert r[j] == s[j - 1];
      } else {
        assert r[i] == s[i - 1] && r[j] == s[j - 1];
      }
    }
  }

  /** Sorting keeps any symmetric relation that held between every two
      elements: it only reorders them. */
  lemma {:induction false} SortKeepsPairwise<T, K(!new)>(s: seq<T>, key: T -> K, lt: (K, K) -> bool, ok: (T, T) -> bool)
    requires StrictTotalOrder(lt)
    requires forall a, b :: ok(a, b) == ok(b, a)
    requires Pairwise(s, ok)
    ensures Pairwise(SortBy(s, key, lt), ok)
    decreases |s|
  {
    if |s| > 0 {
      var front := s[..|s| - 1];
      var last := s[|s| - 1];
      var sortedFront := SortBy(front, key, lt);
      SortKeepsPairwise(front, key, lt, ok);
      SortPermutes(front, key, lt);
      forall i | 0 <= i < |sortedFront| ensures ok(last, sortedFront[i]) && ok(sortedFront[i], last) {
        assert sortedFront[i] in multiset(front);
        var m :| 0 <= m < |front| && front[m] == sortedFront[i];
        assert s[m] == sortedFront[i];
      }
      InsertPairwise(last, sortedFront, key, lt, ok);
    }
  }

  /** On keys that are already in order the sort changes nothing. */
  lemma {:induction false} SortSortedIsIdentity<T, K(!new)>(s: seq<T>, key: T -> K, lt: (K, K) -> bool)
    requires StrictTotalOrder(lt)
    requires SortedBy(s, key, lt)
    ensures SortBy(s, key, lt) == s
    decreases |s|
  {
    if |s| > 0 {
      var n := |s| - 1;
      var front := s[..n];
      var last := s[n];
      SortedFront(s, key, lt);
      calc {
        SortBy(s, key, lt);
        Insert(last, SortBy(front, key, lt), key, lt);
        { SortSortedIsIdentity(front, key, lt); }
        Insert(last, front, key, lt);
        { InsertAtEnd(last, front, key, lt); }
        front + [last];
      }
      assert front + [last] == s;
    }
  }

  /** A sorted sequence without its last element is sorted, and that last
      element's key is not below any other. */
  lemma SortedFront<T, K>(s: seq<T>, key: T -> K, lt: (K, K) -> bool)
    requires |s| > 0 && SortedBy(s, key, lt)
    ensures SortedBy(s[..|s| - 1], key, lt)
    ensures forall i :: 0 <= i < |s| - 1 ==> !lt(key(s[|s| - 1]), key(s[i]))
  {
    var front := s[..|s| - 1];
    assert forall i :: 0 <= i < |front| ==> front[i] == s[i];
  }

  lemma {:induction false} InsertAtEnd<T, K(!new)>(x: T, s: seq<T>, key: T -> K, lt: (K, K) -> bool)
    requires forall i :: 0 <= i < |s| ==> !lt(key(x), key(s[i]))
    ensures Insert(x, s, key, lt) == s + [x]
    decreases |s|
  {
    if |s| > 0 {
      InsertAtEnd(x, s[1..], key, lt);
      assert s == [s[0]] + s[1..];
    }
  }
}

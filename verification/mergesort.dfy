/**
 * `MergeSort.sort` and `MergeSort._merge` (src/algorithm/DivideAndConquer.py),
 * generic over the items with an integer `key_func`.
 */
module MergeSort {

  predicate SortedBy<T>(s: seq<T>, key: T -> int) {
    forall i, j :: 0 <= i < j < |s| ==> key(s[i]) <= key(s[j])
  }

  /** The items whose key is `v`, in order: what a stable sort must keep. */
  function WithKey<T>(s: seq<T>, key: T -> int, v: int): seq<T> {
    if s == [] then [] else (if key(s[0]) == v then [s[0]] else []) + WithKey(s[1..], key, v)
  }

  /**
   * `_merge`: take the left head while its key is at most the right head's,
   * else the right head; once one side runs out, the rest of the other.
   */
  function Merge<T>(l: seq<T>, r: seq<T>, key: T -> int): seq<T>
    decreases |l| + |r|
  {
    if l == [] then r
    else if r == [] then l
    else if key(l[0]) <= key(r[0]) then [l[0]] + Merge(l[1..], r, key)
    else [r[0]] + Merge(l, r[1..], key)
  }

  /** `sort`: lists of at most one item come back as they are; otherwise split at `len // 2`. */
  function Sort<T>(items: seq<T>, key: T -> int): seq<T>
    decreases |items|
  {
    if |items| <= 1 then items
    else
      var mid := |items| / 2;
      Merge(Sort(items[..mid], key), Sort(items[mid..], key), key)
  }

  lemma {:induction false} WithKeyAppend<T>(a: seq<T>, b: seq<T>, key: T -> int, v: int)
    ensures WithKey(a + b, key, v) == WithKey(a, key, v) + WithKey(b, key, v)
  {
    if a == [] {
      assert a + b == b;
    } else {
      var head := if key(a[0]) == v then [a[0]] else [];
      assert (a + b)[0] == a[0] && (a + b)[1..] == a[1..] + b;
      WithKeyAppend(a[1..], b, key, v);
      assert WithKey(a + b, key, v) == head + (WithKey(a[1..], key, v) + WithKey(b, key, v));
    }
  }

  lemma {:induction false} WithKeyNone<T>(s: seq<T>, key: T -> int, v: int)
    requires forall i :: 0 <= i < |s| ==> key(s[i]) != v
    ensures WithKey(s, key, v) == []
  {
    if s != [] {
      WithKeyNone(s[1..], key, v);
    }
  }

  /** Merging keeps every item, once. */
  lemma {:induction false} MergePermutes<T>(l: seq<T>, r: seq<T>, key: T -> int)
    ensures multiset(Merge(l, r, key)) == multiset(l) + multiset(r)
    decreases |l| + |r|
  {
    if l != [] && r != [] {
      if key(l[0]) <= key(r[0]) {
        MergePermutes(l[1..], r, key);
        assert Merge(l, r, key) == [l[0]] + Merge(l[1..], r, key);
        assert l == [l[0]] + l[1..];
      } else {
        MergePermutes(l, r[1..], key);
        assert Merge(l, r, key) == [r[0]] + Merge(l, r[1..], key);
        assert r == [r[0]] + r[1..];
      }
    }
  }

  lemma ConsSorted<T>(x: T, s: seq<T>, key: T -> int)
    requires SortedBy(s, key) && forall y :: y in s ==> key(x) <= key(y)
    ensures SortedBy([x] + s, key)
  {
    var t := [x] + s;
    forall i, j | 0 <= i < j < |t| ensures key(t[i]) <= key(t[j]) {
      assert t[j] == s[j - 1];
      if i > 0 {
        assert t[i] == s[i - 1];
      }
    }
  }

  /** The merge of two sorted lists is sorted. */
  lemma {:induction false} MergeSorted<T>(l: seq<T>, r: seq<T>, key: T -> int)
    requires SortedBy(l, key) && SortedBy(r, key)
    ensures SortedBy(Merge(l, r, key), key)
    decreases |l| + |r|
  {
    if l != [] && r != [] {
      if key(l[0]) <= key(r[0]) {
        var rest := Merge(l[1..], r, key);
        MergeSorted(l[1..], r, key);
        MergePermutes(l[1..], r, key);
        forall y | y in rest ensures key(l[0]) <= key(y) {
          assert y in multiset(rest);
          if y in l[1..] {
            var i :| 0 <= i < |l[1..]| && l[1..][i] == y;
            assert l[i + 1] == y;
          } else {
            assert y in multiset(r);
            var j :| 0 <= j < |r| && r[j] == y;
          }
        }
        ConsSorted(l[0], rest, key);
      } else {
        var rest := Merge(l, r[1..], key);
        MergeSorted(l, r[1..], key);
        MergePermutes(l, r[1..], key);
        forall y | y in rest ensures key(r[0]) <= key(y) {
          assert y in multiset(rest);
          if y in r[1..] {
            var j :| 0 <= j < |r[1..]| && r[1..][j] == y;
            assert r[j + 1] == y;
          } else {
            assert y in multiset(l);
            var i :| 0 <= i < |l| && l[i] == y;
          }
        }
        ConsSorted(r[0], rest, key);
      }
    }
  }

  /** Merging sorted lists is stable: among equal keys, the left items come first. */
  lemma {:induction false} MergeStable<T>(l: seq<T>, r: seq<T>, key: T -> int, v: int)
    requires SortedBy(l, key) && SortedBy(r, key)
    ensures WithKey(Merge(l, r, key), key, v) == WithKey(l, key, v) + WithKey(r, key, v)
    decreases |l| + |r|
  {
    if l != [] && r != [] {
      if key(l[0]) <= key(r[0]) {
        MergeStable(l[1..], r, key, v);
        assert Merge(l, r, key) == [l[0]] + Merge(l[1..], r, key);
      } else {
        MergeStable(l, r[1..], key, v);
        assert Merge(l, r, key) == [r[0]] + Merge(l, r[1..], key);
        if key(r[0]) == v {
          WithKeyNone(l, key, v);
        }
      }
    }
  }

  lemma {:induction false} SortPermutes<T>(items: seq<T>, key: T -> int)
    ensures multiset(Sort(items, key)) == multiset(items)
    decreases |items|
  {
    if |items| > 1 {
      var mid := |items| / 2;
      var a, b := items[..mid], items[mid..];
      SortPermutes(a, key);
      SortPermutes(b, key);
      SplitPermutes(items, mid);
      MergePermutes(Sort(a, key), Sort(b, key), key);
    }
  }

  lemma SplitPermutes<T>(items: seq<T>, mid: nat)
    requires mid <= |items|
    ensures multiset(items[..mid]) + multiset(items[mid..]) == multiset(items)
  {
    assert items == items[..mid] + items[mid..];
  }

  lemma {:induction false} SortSorted<T>(items: seq<T>, key: T -> int)
    ensures SortedBy(Sort(items, key), key)
    decreases |items|
  {
    if |items| > 1 {
      var mid := |items| / 2;
      SortSorted(items[..mid], key);
      SortSorted(items[mid..], key);
      MergeSorted(Sort(items[..mid], key), Sort(items[mid..], key), key);
    }
  }

  lemma {:induction false} SortStable<T>(items: seq<T>, key: T -> int, v: int)
    ensures WithKey(Sort(items, key), key, v) == WithKey(items, key, v)
    decreases |items|
  {
    if |items| > 1 {
      var mid := |items| / 2;
      var a, b := items[..mid], items[mid..];
      SortStable(a, key, v);
      SortStable(b, key, v);
      SortSorted(a, key);
      SortSorted(b, key);
      SplitStable(items, a, b, Sort(a, key), Sort(b, key), key, v);
    }
  }

  lemma SplitStable<T>(items: seq<T>, a: seq<T>, b: seq<T>, sa: seq<T>, sb: seq<T>, key: T -> int, v: int)
    requires items == a + b && SortedBy(sa, key) && SortedBy(sb, key)
    requires WithKey(sa, key, v) == WithKey(a, key, v) && WithKey(sb, key, v) == WithKey(b, key, v)
    ensures WithKey(Merge(sa, sb, key), key, v) == WithKey(items, key, v)
  {
    MergeStable(sa, sb, key, v);
    WithKeyAppend(a, b, key, v);
  }

  /**
   * `sort` returns a permutation of its input in non-decreasing key order,
   * and keeps items with equal keys in their input order.
   */
  lemma SortCorrect<T>(items: seq<T>, key: T -> int)
    ensures multiset(Sort(items, key)) == multiset(items)
    ensures SortedBy(Sort(items, key), key)
    ensures forall v :: WithKey(Sort(items, key), key, v) == WithKey(items, key, v)
  {
    SortPermutes(items, key);
    SortSorted(items, key);
    forall v ensures WithKey(Sort(items, key), key, v) == WithKey(items, key, v) {
      SortStable(items, key, v);
    }
  }

  lemma HeadsAgree<T>(s: seq<T>, u: seq<T>, key: T -> int)
    requires multiset(s) == multiset(u) && SortedBy(s, key) && SortedBy(u, key) && s != []
    requires WithKey(s, key, key(s[0])) == WithKey(u, key, key(s[0]))
    ensures u != [] && s[0] == u[0]
  {
    assert s[0] in multiset(u);
    assert u[0] in multiset(s);
    var i :| 0 <= i < |s| && s[i] == u[0];
    var j :| 0 <= j < |u| && u[j] == s[0];
    assert key(s[0]) <= key(u[0]) && key(u[0]) <= key(s[0]);
    assert WithKey(s, key, key(s[0]))[0] == s[0];
    assert WithKey(u, key, key(s[0]))[0] == u[0];
  }

  lemma MultisetTail<T>(s: seq<T>)
    requires s != []
    ensures multiset(s[1..]) == multiset(s) - multiset{s[0]}
  {
    assert s == [s[0]] + s[1..];
  }

  lemma WithKeyTail<T>(s: seq<T>, key: T -> int, w: int)
    requires s != []
    ensures WithKey(s[1..], key, w) == WithKey(s, key, w)[(if key(s[0]) == w then 1 else 0)..]
  {
  }

  lemma TailsAgree<T>(s: seq<T>, u: seq<T>, key: T -> int)
    requires multiset(s) == multiset(u) && s != [] && u != [] && s[0] == u[0]
    requires forall v :: WithKey(s, key, v) == WithKey(u, key, v)
    ensures multiset(s[1..]) == multiset(u[1..])
    ensures forall w :: WithKey(s[1..], key, w) == WithKey(u[1..], key, w)
  {
    MultisetTail(s);
    MultisetTail(u);
    forall w ensures WithKey(s[1..], key, w) == WithKey(u[1..], key, w) {
      WithKeyTail(s, key, w);
      WithKeyTail(u, key, w);
    }
  }

  /** A stable sort has only one possible result: two lists with the same items in key order and the same order within each key are equal. */
  lemma {:induction false} StableSortUnique<T>(s: seq<T>, u: seq<T>, key: T -> int)
    requires multiset(s) == multiset(u) && SortedBy(s, key) && SortedBy(u, key)
    requires forall v :: WithKey(s, key, v) == WithKey(u, key, v)
    ensures s == u
    decreases |s|
  {
    if s != [] {
      HeadsAgree(s, u, key);
      TailsAgree(s, u, key);
      StableSortUnique(s[1..], u[1..], key);
      assert s == [s[0]] + s[1..] && u == [u[0]] + u[1..];
    } else {
      assert |multiset(u)| == 0;
    }
  }
}

/** Sequence helpers shared by the rules and the algorithms. */
module Seqs {
  predicate Distinct<T(==)>(s: seq<T>) {
    forall i, j :: 0 <= i < j < |s| ==> s[i] != s[j]
  }

  /** Python's `if x in s: s.remove(x)`: drop the first occurrence of `x`, if any. */
  function RemoveIfExist<T(==)>(s: seq<T>, x: T): (r: seq<T>)
    ensures x !in s ==> r == s
    ensures x in s ==> |r| == |s| - 1 && multiset(r) == multiset(s) - multiset{x}
  {
    if s == [] then []
    else if s[0] == x then
      assert s == [s[0]] + s[1..];
      s[1..]
    else
      assert s == [s[0]] + s[1..];
      [s[0]] + RemoveIfExist(s[1..], x)
  }

  /** Position of the first occurrence of `x`. */
  function IndexOf<T(==)>(s: seq<T>, x: T): (i: nat)
    requires x in s
    ensures i < |s| && s[i] == x && x !in s[..i]
  {
    if s[0] == x then 0
    else
      var j := IndexOf(s[1..], x);
      assert s[..j + 1] == [s[0]] + s[1..][..j];
      j + 1
  }

  /** The element removed is the first occurrence, and everything else keeps its order. */
  lemma {:induction false} RemoveIfExistSplits<T>(s: seq<T>, x: T)
    requires x in s
    ensures RemoveIfExist(s, x) == s[..IndexOf(s, x)] + s[IndexOf(s, x) + 1..]
  {
    if s[0] != x {
      var t := s[1..];
      RemoveIfExistSplits(t, x);
      var j := IndexOf(t, x);
      assert s == [s[0]] + t;
      SplitCons(s[0], t, j);
      assert IndexOf(s, x) == j + 1;
    }
  }

  lemma SplitCons<T>(a: T, t: seq<T>, j: nat)
    requires j < |t|
    ensures [a] + (t[..j] + t[j + 1..]) == ([a] + t)[..j + 1] + ([a] + t)[j + 2..]
  {
    var s := [a] + t;
    assert s[..j + 1] == [a] + t[..j];
    assert s[j + 2..] == t[j + 1..];
  }

  function Filter<T>(s: seq<T>, keep: T -> bool): seq<T> {
    if s == [] then [] else (if keep(s[0]) then [s[0]] else []) + Filter(s[1..], keep)
  }

  lemma {:induction false} FilterMembers<T>(s: seq<T>, keep: T -> bool, x: T)
    ensures x in Filter(s, keep) <==> x in s && keep(x)
  {
    if s != [] {
      FilterMembers(s[1..], keep, x);
      assert s == [s[0]] + s[1..];
    }
  }

  lemma {:induction false} FilterExt<T>(s: seq<T>, k1: T -> bool, k2: T -> bool)
    requires forall i :: 0 <= i < |s| ==> k1(s[i]) == k2(s[i])
    ensures Filter(s, k1) == Filter(s, k2)
  {
    if s != [] {
      assert k1(s[0]) == k2(s[0]);
      forall i | 0 <= i < |s[1..]| ensures k1(s[1..][i]) == k2(s[1..][i]) { assert s[1..][i] == s[i + 1]; }
      FilterExt(s[1..], k1, k2);
    }
  }

  lemma DistinctTail<T>(s: seq<T>)
    requires Distinct(s) && s != []
    ensures Distinct(s[1..]) && s[0] !in s[1..]
  {
    var t := s[1..];
    forall i, j | 0 <= i < j < |t| ensures t[i] != t[j] { assert t[i] == s[i + 1] && t[j] == s[j + 1]; }
    forall j | 0 <= j < |t| ensures t[j] != s[0] { assert t[j] == s[j + 1]; }
  }

  lemma FilterCons<T>(s: seq<T>, keep: T -> bool)
    requires s != []
    ensures Filter(s, keep) == (if keep(s[0]) then [s[0]] else []) + Filter(s[1..], keep)
  {
  }

  /** On a duplicate-free list, removing `x` after filtering is filtering `x` out too. */
  lemma {:induction false} RemoveFromFilter<T>(s: seq<T>, keep: T -> bool, x: T, keep': T -> bool)
    requires Distinct(s)
    requires forall y :: keep'(y) == (keep(y) && y != x)
    ensures RemoveIfExist(Filter(s, keep), x) == Filter(s, keep')
  {
    if s != [] {
      var t := s[1..];
      DistinctTail(s);
      FilterCons(s, keep);
      FilterCons(s, keep');
      if s[0] == x {
        RemoveHead(t, keep, x, keep');
      } else {
        RemoveFromFilter(t, keep, x, keep');
        assert keep'(s[0]) == keep(s[0]);
        if keep(s[0]) {
          RemoveAfterOther(s[0], Filter(t, keep), x);
        } else {
          assert Filter(s, keep) == Filter(t, keep);
        }
      }
    }
  }

  lemma RemoveHead<T>(t: seq<T>, keep: T -> bool, x: T, keep': T -> bool)
    requires x !in t
    requires forall y :: keep'(y) == (keep(y) && y != x)
    ensures RemoveIfExist((if keep(x) then [x] else []) + Filter(t, keep), x) == Filter(t, keep')
  {
    FilterMembers(t, keep, x);
    forall i | 0 <= i < |t| ensures keep(t[i]) == keep'(t[i]) {}
    FilterExt(t, keep, keep');
    if keep(x) {
      assert ([x] + Filter(t, keep))[1..] == Filter(t, keep);
    }
  }

  lemma RemoveAfterOther<T>(y: T, r: seq<T>, x: T)
    requires y != x
    ensures RemoveIfExist([y] + r, x) == [y] + RemoveIfExist(r, x)
  {
    assert ([y] + r)[1..] == r;
  }
}

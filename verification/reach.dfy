/**
 * Reachability over a stored move table. The breadth-first search the
 * source calls (`Path.BreadthFirstSearch`) is modelled by what it computes:
 * the least number of table moves from a start cell to a goal cell.
 */
module Reach {
  import opened Grid
  import opened Moves
  import opened Wrappers

  /** A stored move table: `storedValidPawnMoves` or `storedValidPawnMovesIgnoringPawns`. */
  type Table = map<Coord, seq<PawnMove>>

  /** The table lists a move from `u` to `v`. */
  predicate Linked(t: Table, u: Coord, v: Coord) {
    u in t && exists i :: 0 <= i < |t[u]| && t[u][i].to == v
  }

  /** Every listed move ends on the board. */
  predicate WellFormed(t: Table, cols: nat, rows: nat) {
    forall u, i :: u in t && 0 <= i < |t[u]| ==> InBounds(cols, rows, t[u][i].to)
  }

  ghost predicate IsWalk(t: Table, w: seq<Coord>) {
    forall i :: 0 <= i < |w| - 1 ==> Linked(t, w[i], w[i + 1])
  }

  /** `w` is a walk of `|w| - 1` moves from `s` to `v`. */
  ghost predicate WalkTo(t: Table, w: seq<Coord>, s: Coord, v: Coord) {
    |w| > 0 && w[0] == s && w[|w| - 1] == v && IsWalk(t, w)
  }

  function Succs(t: Table, S: set<Coord>): set<Coord> {
    set u, i | u in S && u in t && 0 <= i < |t[u]| :: t[u][i].to
  }

  /** The cells reachable from `s` in at most `k` moves. */
  function Reach(t: Table, s: Coord, k: nat): set<Coord> {
    if k == 0 then {s} else Reach(t, s, k - 1) + Succs(t, Reach(t, s, k - 1))
  }

  lemma {:induction false} ReachMonotone(t: Table, s: Coord, j: nat, k: nat)
    requires j <= k
    ensures Reach(t, s, j) <= Reach(t, s, k)
  {
    if j < k {
      ReachMonotone(t, s, j, k - 1);
    }
  }

  lemma WalkExtend(t: Table, w: seq<Coord>, s: Coord, u: Coord, v: Coord)
    requires WalkTo(t, w, s, u) && Linked(t, u, v)
    ensures WalkTo(t, w + [v], s, v)
  {
    var w' := w + [v];
    forall j | 0 <= j < |w'| - 1 ensures Linked(t, w'[j], w'[j + 1]) {
      if j < |w| - 1 {
        assert w'[j] == w[j] && w'[j + 1] == w[j + 1];
      }
    }
  }

  lemma WalkShorten(t: Table, w: seq<Coord>, s: Coord, v: Coord)
    requires WalkTo(t, w, s, v) && |w| > 1
    ensures WalkTo(t, w[..|w| - 1], s, w[|w| - 2]) && Linked(t, w[|w| - 2], v)
  {
    var w' := w[..|w| - 1];
    forall j | 0 <= j < |w'| - 1 ensures Linked(t, w'[j], w'[j + 1]) {
      assert w'[j] == w[j] && w'[j + 1] == w[j + 1];
    }
  }

  lemma {:induction false} ReachHasWalk(t: Table, s: Coord, k: nat, v: Coord)
    requires v in Reach(t, s, k)
    ensures exists w :: WalkTo(t, w, s, v) && |w| <= k + 1
  {
    if k == 0 {
      assert WalkTo(t, [s], s, v);
    } else if v in Reach(t, s, k - 1) {
      ReachHasWalk(t, s, k - 1, v);
    } else {
      var u, i :| u in Reach(t, s, k - 1) && u in t && 0 <= i < |t[u]| && t[u][i].to == v;
      ReachHasWalk(t, s, k - 1, u);
      var w :| WalkTo(t, w, s, u) && |w| <= k;
      assert Linked(t, u, v);
      WalkExtend(t, w, s, u, v);
    }
  }

  lemma {:induction false} WalkInReach(t: Table, s: Coord, k: nat, v: Coord, w: seq<Coord>)
    requires WalkTo(t, w, s, v) && |w| <= k + 1
    ensures v in Reach(t, s, k)
  {
    if |w| == 1 {
      ReachMonotone(t, s, 0, k);
    } else {
      var u := w[|w| - 2];
      WalkShorten(t, w, s, v);
      WalkInReach(t, s, k - 1, u, w[..|w| - 1]);
      var i :| 0 <= i < |t[u]| && t[u][i].to == v;
      assert v in Succs(t, Reach(t, s, k - 1));
    }
  }

  /** `Reach` is exactly the set of ends of walks with at most `k` moves. */
  lemma ReachIsWalks(t: Table, s: Coord, k: nat, v: Coord)
    ensures v in Reach(t, s, k) <==> exists w :: WalkTo(t, w, s, v) && |w| <= k + 1
  {
    if v in Reach(t, s, k) {
      ReachHasWalk(t, s, k, v);
    }
    if exists w :: WalkTo(t, w, s, v) && |w| <= k + 1 {
      var w :| WalkTo(t, w, s, v) && |w| <= k + 1;
      WalkInReach(t, s, k, v, w);
    }
  }

  /** Once a step adds nothing, no later step does. */
  lemma {:induction false} ReachStable(t: Table, s: Coord, j: nat, k: nat)
    requires j <= k && Reach(t, s, j + 1) == Reach(t, s, j)
    ensures Reach(t, s, k) == Reach(t, s, j)
  {
    if j < k {
      ReachStable(t, s, j, k - 1);
    }
  }

  lemma {:induction false} ReachWithin(t: Table, cols: nat, rows: nat, s: Coord, k: nat)
    requires WellFormed(t, cols, rows)
    ensures Reach(t, s, k) <= Cells(cols, rows) + {s}
  {
    if k > 0 {
      ReachWithin(t, cols, rows, s, k - 1);
    }
  }

  /** Step `j` adds at least one cell. */
  predicate Grows(t: Table, s: Coord, j: nat) {
    Reach(t, s, j + 1) != Reach(t, s, j)
  }

  /** A strictly growing reach gains a cell per step. */
  lemma {:induction false} ReachGrows(t: Table, s: Coord, k: nat)
    requires forall j :: 0 <= j < k ==> Grows(t, s, j)
    ensures |Reach(t, s, k)| >= k + 1
  {
    if k > 0 {
      ReachGrows(t, s, k - 1);
      ReachMonotone(t, s, k - 1, k);
      assert Grows(t, s, k - 1);
      StrictSubsetSize(Reach(t, s, k - 1), Reach(t, s, k));
    }
  }

  /** The reach cannot grow for `cols * rows + 1` steps in a row: it stays within the board plus `s`. */
  lemma StopsGrowing(t: Table, cols: nat, rows: nat, s: Coord, n: nat)
    requires WellFormed(t, cols, rows) && n == cols * rows
    ensures exists j :: 0 <= j <= n && !Grows(t, s, j)
  {
    if forall j :: 0 <= j <= n ==> Grows(t, s, j) {
      ReachGrows(t, s, n + 1);
      ReachWithin(t, cols, rows, s, n + 1);
      CellsSize(cols, rows);
      AddOneSize(Cells(cols, rows), s);
      SubsetSize(Reach(t, s, n + 1), Cells(cols, rows) + {s});
      assert false;
    }
  }

  /** On a well-formed table the reach from `s` is complete after `cols * rows` steps. */
  lemma ReachSaturates(t: Table, cols: nat, rows: nat, s: Coord, k: nat)
    requires WellFormed(t, cols, rows) && cols * rows <= k
    ensures Reach(t, s, k) == Reach(t, s, cols * rows)
  {
    var n := cols * rows;
    StopsGrowing(t, cols, rows, s, n);
    var j :| 0 <= j <= n && !Grows(t, s, j);
    ReachStable(t, s, j, k);
    ReachStable(t, s, j, n);
  }

  lemma AddOneSize<T>(a: set<T>, x: T)
    ensures |a + {x}| <= |a| + 1
  {
    if x !in a {
      assert |a + {x}| == |a| + 1;
    } else {
      assert a + {x} == a;
    }
  }

  lemma StrictSubsetSize<T>(a: set<T>, b: set<T>)
    requires a <= b && a != b
    ensures |a| < |b|
  {
    assert !(b <= a);
    var x :| x in b && x !in a;
    assert b == a + (b - a);
    assert |b - a| >= 1 by { assert x in b - a; }
  }

  lemma SubsetSize<T>(a: set<T>, b: set<T>)
    requires a <= b
    ensures |a| <= |b|
  {
    assert b == a + (b - a);
  }

  /** The first `k` in `lo..hi` whose reach meets `goals`. */
  function DistFrom(t: Table, s: Coord, goals: set<Coord>, lo: nat, hi: nat): (r: Option<nat>)
    decreases hi - lo
    ensures r.Some? ==> lo <= r.value && Reach(t, s, r.value) * goals != {}
    ensures r.Some? ==> forall k :: lo <= k < r.value ==> Reach(t, s, k) * goals == {}
    ensures r.None? ==> forall k :: lo <= k <= hi ==> Reach(t, s, k) * goals == {}
  {
    if Reach(t, s, lo) * goals != {} then Some(lo)
    else if lo >= hi then None
    else DistFrom(t, s, goals, lo + 1, hi)
  }

  /** The breadth-first distance: least number of moves from `s` to a goal, or None when no goal is reachable. */
  function ShortestDist(t: Table, cols: nat, rows: nat, s: Coord, goals: set<Coord>): Option<nat> {
    DistFrom(t, s, goals, 0, cols * rows)
  }

  /**
   * On a well-formed table, `ShortestDist` is the length of a shortest walk
   * from `s` into `goals`, and None exactly when there is no such walk.
   */
  lemma ShortestDistIsShortestWalk(t: Table, cols: nat, rows: nat, s: Coord, goals: set<Coord>)
    requires WellFormed(t, cols, rows)
    ensures var r := ShortestDist(t, cols, rows, s, goals);
      && (r.Some? ==> (exists w, g :: g in goals && WalkTo(t, w, s, g) && |w| == r.value + 1)
                      && forall w, g :: g in goals && WalkTo(t, w, s, g) ==> |w| >= r.value + 1)
      && (r.None? <==> forall w, g :: g in goals && WalkTo(t, w, s, g) ==> false)
  {
    var r := ShortestDist(t, cols, rows, s, goals);
    var n := cols * rows;
    forall w, g | g in goals && WalkTo(t, w, s, g)
      ensures r.Some? && |w| >= r.value + 1
    {
      ReachIsWalks(t, s, |w| - 1, g);
      var m := if |w| - 1 <= n then |w| - 1 else n;
      if |w| - 1 > n {
        ReachSaturates(t, cols, rows, s, |w| - 1);
      }
      assert g in Reach(t, s, m);
      assert g in Reach(t, s, m) * goals;
    }
    if r.Some? {
      var g :| g in Reach(t, s, r.value) * goals;
      ReachIsWalks(t, s, r.value, g);
      var w :| WalkTo(t, w, s, g) && |w| <= r.value + 1;
      assert |w| == r.value + 1;
    }
  }

  /** Tables that agree on the cells of `S` give `S` the same successors. */
  lemma SuccsAgree(t1: Table, t2: Table, cols: nat, rows: nat, S: set<Coord>)
    requires S <= Cells(cols, rows)
    requires forall u :: InBounds(cols, rows, u) ==> (u in t1 <==> u in t2) && (u in t1 ==> t1[u] == t2[u])
    ensures Succs(t1, S) == Succs(t2, S)
  {
    forall v | v in Succs(t1, S) ensures v in Succs(t2, S) {
      var u, i :| u in S && u in t1 && 0 <= i < |t1[u]| && t1[u][i].to == v;
      assert t2[u][i].to == v;
    }
    forall v | v in Succs(t2, S) ensures v in Succs(t1, S) {
      var u, i :| u in S && u in t2 && 0 <= i < |t2[u]| && t2[u][i].to == v;
      assert t1[u][i].to == v;
    }
  }

  /** Tables that agree on every on-board cell give the same reach from an on-board start. */
  lemma {:induction false} ReachAgree(t1: Table, t2: Table, cols: nat, rows: nat, s: Coord, k: nat)
    requires WellFormed(t1, cols, rows) && InBounds(cols, rows, s)
    requires forall u :: InBounds(cols, rows, u) ==> (u in t1 <==> u in t2) && (u in t1 ==> t1[u] == t2[u])
    ensures Reach(t1, s, k) == Reach(t2, s, k)
  {
    if k > 0 {
      ReachAgree(t1, t2, cols, rows, s, k - 1);
      ReachWithin(t1, cols, rows, s, k - 1);
      SuccsAgree(t1, t2, cols, rows, Reach(t1, s, k - 1));
    }
  }

  lemma {:induction false} DistFromAgree(t1: Table, t2: Table, cols: nat, rows: nat, s: Coord, goals: set<Coord>, lo: nat, hi: nat)
    requires WellFormed(t1, cols, rows) && InBounds(cols, rows, s)
    requires forall u :: InBounds(cols, rows, u) ==> (u in t1 <==> u in t2) && (u in t1 ==> t1[u] == t2[u])
    ensures DistFrom(t1, s, goals, lo, hi) == DistFrom(t2, s, goals, lo, hi)
    decreases hi - lo
  {
    ReachAgree(t1, t2, cols, rows, s, lo);
    if lo < hi {
      DistFromAgree(t1, t2, cols, rows, s, goals, lo + 1, hi);
    }
  }

  /** Off-board entries never affect a distance from an on-board start. */
  lemma ShortestDistAgree(t1: Table, t2: Table, cols: nat, rows: nat, s: Coord, goals: set<Coord>)
    requires WellFormed(t1, cols, rows) && InBounds(cols, rows, s)
    requires forall u :: InBounds(cols, rows, u) ==> (u in t1 <==> u in t2) && (u in t1 ==> t1[u] == t2[u])
    ensures ShortestDist(t1, cols, rows, s, goals) == ShortestDist(t2, cols, rows, s, goals)
  {
    DistFromAgree(t1, t2, cols, rows, s, goals, 0, cols * rows);
  }
}

/**
 * The dynamic-programming distance helpers (src/algorithm/DynamicProgramming.py):
 * Bellman-Ford from one cell and Floyd-Warshall over all pairs, both reading
 * a stored move table at the on-board cells, in the source's column-major
 * order, with `float('inf')` as `Inf`. Both are proved to compute the
 * breadth-first distance of the same table. `bellmanFord`'s `goals` argument
 * is never read, so it is not a parameter here.
 */
module DynProg {
  import opened Grid
  import opened Board
  import opened Moves
  import opened Reach
  import opened Caches
  import opened Veto
  import opened Wrappers
  import opened Infinity

  /**
   * What the loops assume of the table they index: an entry for every cell,
   * which both read as `storedValidPawnMovesIgnoringPawns[coord]` and which
   * raises KeyError when missing, and moves that stay on the board.
   * `bellmanFord` reads `dist[move.toCoord]`, so an off-board move raises
   * KeyError there. `floydWarshall` only writes `dist[(coord, move.toCoord)]`,
   * which would add a key that no later step reads, so there the second
   * clause only keeps the key set to the pairs of cells.
   */
  ghost predicate TotalOn(t: Table, cols: nat, rows: nat) {
    && (forall c :: InBounds(cols, rows, c) ==> c in t)
    && (forall u, x :: InBounds(cols, rows, u) && u in t && 0 <= x < |t[u]| ==> InBounds(cols, rows, t[u][x].to))
  }

  /** The on-board part of a table: all the loops ever read. */
  function OnBoardPart(t: Table, cols: nat, rows: nat): Table {
    map u | u in t && InBounds(cols, rows, u) :: t[u]
  }

  /** `T` is a well-formed table that lists the same moves as `t` at every cell. */
  ghost predicate Mirrors(t: Table, T: Table, cols: nat, rows: nat) {
    && WellFormed(T, cols, rows)
    && forall u :: InBounds(cols, rows, u) ==> u in t && u in T && T[u] == t[u]
  }

  lemma OnBoardPartMirrors(t: Table, cols: nat, rows: nat)
    requires TotalOn(t, cols, rows)
    ensures Mirrors(t, OnBoardPart(t, cols, rows), cols, rows)
  {
  }

  lemma CellListInBounds(cols: nat, rows: nat)
    ensures forall c :: c in CellList(cols, rows) <==> InBounds(cols, rows, c)
  {
    forall c ensures c in CellList(cols, rows) <==> InBounds(cols, rows, c) {
      CellListMembers(cols, rows, c);
    }
  }

  lemma CellIndex(cols: nat, rows: nat, c: Coord) returns (x: nat)
    requires InBounds(cols, rows, c)
    ensures x < |CellList(cols, rows)| && CellList(cols, rows)[x] == c
  {
    CellListMembers(cols, rows, c);
    x :| 0 <= x < |CellList(cols, rows)| && CellList(cols, rows)[x] == c;
  }

  // ---- walks and reach ---------------------------------------------------------------

  lemma ReachStep(t: Table, s: Coord, a: nat, u: Coord, x: nat)
    requires u in Reach.Reach(t, s, a) && u in t && x < |t[u]|
    ensures t[u][x].to in Reach.Reach(t, s, a + 1)
  {
    assert t[u][x].to in Succs(t, Reach.Reach(t, s, a));
  }

  /** Walks compose: from a cell reachable in `a` moves, what is reachable in `b` more is reachable in `a + b`. */
  lemma {:induction false} ReachTrans(t: Table, i: Coord, k: Coord, j: Coord, a: nat, b: nat)
    requires k in Reach.Reach(t, i, a) && j in Reach.Reach(t, k, b)
    ensures j in Reach.Reach(t, i, a + b)
    decreases b
  {
    if b > 0 {
      if j in Reach.Reach(t, k, b - 1) {
        ReachTrans(t, i, k, j, a, b - 1);
        ReachMonotone(t, i, a + b - 1, a + b);
      } else {
        var u, x :| u in Reach.Reach(t, k, b - 1) && u in t && 0 <= x < |t[u]| && t[u][x].to == j;
        ReachTrans(t, i, k, u, a, b - 1);
        ReachStep(t, i, a + b - 1, u, x);
      }
    }
  }

  /** From an on-board start some step among the first `cols * rows` adds nothing: the reach stays within the board. */
  lemma StopsGrowingOnBoard(t: Table, cols: nat, rows: nat, s: Coord, n: nat)
    requires WellFormed(t, cols, rows) && InBounds(cols, rows, s) && n + 1 == cols * rows
    ensures exists j :: 0 <= j <= n && !Grows(t, s, j)
  {
    if forall j :: 0 <= j <= n ==> Grows(t, s, j) {
      ReachGrows(t, s, n + 1);
      ReachOnBoard(t, cols, rows, s, n + 1);
      assert false;
    }
  }

  /** From an on-board start the reach has at most `cols * rows` cells. */
  lemma ReachOnBoard(t: Table, cols: nat, rows: nat, s: Coord, k: nat)
    requires WellFormed(t, cols, rows) && InBounds(cols, rows, s)
    ensures |Reach.Reach(t, s, k)| <= cols * rows
  {
    ReachWithin(t, cols, rows, s, k);
    assert s in Cells(cols, rows);
    assert Cells(cols, rows) + {s} == Cells(cols, rows);
    SubsetSize(Reach.Reach(t, s, k), Cells(cols, rows));
    CellsSize(cols, rows);
  }

  /** From an on-board start the reach stops growing within `cols * rows - 1` moves. */
  lemma ReachSettles(t: Table, cols: nat, rows: nat, s: Coord, n: nat, k: nat)
    requires WellFormed(t, cols, rows) && InBounds(cols, rows, s) && n + 1 == cols * rows && n <= k
    ensures Reach.Reach(t, s, k) == Reach.Reach(t, s, n)
  {
    StopsGrowingOnBoard(t, cols, rows, s, n);
    var j :| 0 <= j <= n && !Grows(t, s, j);
    ReachStable(t, s, j, k);
    ReachStable(t, s, j, n);
  }

  /** A cell the breadth-first search does not find is in no reach at all. */
  lemma NeverReached(t: Table, cols: nat, rows: nat, s: Coord, v: Coord)
    requires WellFormed(t, cols, rows) && ShortestDist(t, cols, rows, s, {v}).None?
    ensures forall e :: v !in Reach.Reach(t, s, e)
  {
    forall e: nat ensures v !in Reach.Reach(t, s, e) {
      var n := cols * rows;
      var k := if e > n then n else e;
      if e > n {
        ReachSaturates(t, cols, rows, s, e);
      }
      assert Reach.Reach(t, s, k) * {v} == {};
      assert v !in Reach.Reach(t, s, k) * {v};
    }
  }

  // ---- Bellman-Ford --------------------------------------------------------------------

  type Dists = map<Coord, Ext>

  /** A breadth-first answer as a distance: None is infinity. */
  function ToExt(o: Option<nat>): Ext {
    match o
    case Some(n) => Fin(n)
    case None => Inf
  }

  /** `dist`: infinity at every cell, then 0 at the start. */
  function InitDist(cols: nat, rows: nat, s: Coord): (d: Dists)
    ensures d.Keys == Cells(cols, rows) + {s}
  {
    (map c | c in Cells(cols, rows) :: Inf)[s := Fin(0)]
  }

  /** The moves loop at `u`, from the `j`-th move on: lower each target to `dist[u] + 1` when that is smaller. */
  function RelaxMoves(d: Dists, u: Coord, moves: seq<PawnMove>, j: nat): (r: Dists)
    requires u in d && j <= |moves| && forall x :: j <= x < |moves| ==> moves[x].to in d
    ensures r.Keys == d.Keys
    decreases |moves| - j
  {
    if j == |moves| then d else RelaxMoves(Lower(d, moves[j].to, d[u].Succ()), u, moves, j + 1)
  }

  /** The test in the moves loop: `dist[v]` becomes `cand` when that is strictly smaller. */
  function Lower(d: Dists, v: Coord, cand: Ext): (r: Dists)
    requires v in d
    ensures r.Keys == d.Keys
  {
    if cand.Lt(d[v]) then d[v := cand] else d
  }

  /** One relaxation pass over `cells[i..]`. */
  function RelaxCells(t: Table, cols: nat, rows: nat, d: Dists, cells: seq<Coord>, i: nat): (r: Dists)
    requires TotalOn(t, cols, rows) && Cells(cols, rows) <= d.Keys && i <= |cells|
    requires forall c :: c in cells ==> InBounds(cols, rows, c)
    ensures r.Keys == d.Keys
    decreases |cells| - i
  {
    if i == |cells| then d
    else
      var u := cells[i];
      RelaxCells(t, cols, rows, RelaxMoves(d, u, t[u], 0), cells, i + 1)
  }

  /** One pass of the outer loop: every cell in column-major order. */
  function Round(t: Table, cols: nat, rows: nat, d: Dists): (r: Dists)
    requires TotalOn(t, cols, rows) && Cells(cols, rows) <= d.Keys
    ensures r.Keys == d.Keys
  {
    CellListInBounds(cols, rows);
    RelaxCells(t, cols, rows, d, CellList(cols, rows), 0)
  }

  function Rounds(t: Table, cols: nat, rows: nat, d: Dists, k: nat): (r: Dists)
    requires TotalOn(t, cols, rows) && Cells(cols, rows) <= d.Keys
    ensures r.Keys == d.Keys
    decreases k
  {
    if k == 0 then d else Rounds(t, cols, rows, Round(t, cols, rows, d), k - 1)
  }

  /** `bellmanFord`: `cols * rows - 1` passes from the initial table. */
  function BellmanFord(t: Table, cols: nat, rows: nat, s: Coord): Dists
    requires TotalOn(t, cols, rows)
  {
    var n := cols * rows;
    Rounds(t, cols, rows, InitDist(cols, rows, s), if n == 0 then 0 else n - 1)
  }

  /** Every finite entry is the length of some walk from `s` in `T`. */
  ghost predicate Sound(T: Table, s: Coord, d: Dists) {
    forall v :: v in d && d[v].Fin? ==> v in Reach.Reach(T, s, d[v].n)
  }

  /** Every cell reachable within `j <= k` moves has an entry of at most `j`. */
  ghost predicate Complete(T: Table, s: Coord, d: Dists, k: nat) {
    forall j, v :: 0 <= j <= k && v in Reach.Reach(T, s, j) ==> v in d && d[v].Le(Fin(j))
  }

  /** One test: no entry rises, `v` ends at most `cand`, and an entry `cand` does not undercut stays. */
  lemma LowerFacts(d: Dists, v: Coord, cand: Ext, u: Coord)
    requires v in d && u in d && !cand.Lt(d[u])
    ensures var d1 := Lower(d, v, cand);
      && (forall w :: w in d ==> d1[w].Le(d[w]))
      && d1[v].Le(cand)
      && d1[u] == d[u]
  {
  }

  /** Chains one test with the tests of the later moves. */
  lemma RelaxMovesChain(d: Dists, d1: Dists, r: Dists, u: Coord, moves: seq<PawnMove>, j: nat)
    requires u in d && j < |moves| && d1.Keys == d.Keys && r.Keys == d.Keys && moves[j].to in d
    requires (forall w :: w in d ==> d1[w].Le(d[w])) && d1[moves[j].to].Le(d[u].Succ()) && d1[u] == d[u]
    requires forall w :: w in d1 ==> r[w].Le(d1[w])
    requires forall x :: j + 1 <= x < |moves| ==> moves[x].to in r && r[moves[x].to].Le(d1[u].Succ())
    ensures forall w :: w in d ==> r[w].Le(d[w])
    ensures forall x :: j <= x < |moves| ==> moves[x].to in r && r[moves[x].to].Le(d[u].Succ())
  {
    forall w | w in d ensures r[w].Le(d[w]) {
      LeTrans(r[w], d1[w], d[w]);
    }
    LeTrans(r[moves[j].to], d1[moves[j].to], d[u].Succ());
  }

  /** The moves loop: no entry rises and each listed target ends at most one more than `dist[u]`. */
  lemma {:induction false} RelaxMovesLowers(d: Dists, u: Coord, moves: seq<PawnMove>, j: nat)
    requires u in d && j <= |moves| && forall x :: j <= x < |moves| ==> moves[x].to in d
    ensures var r := RelaxMoves(d, u, moves, j);
      && (forall w :: w in d ==> r[w].Le(d[w]))
      && (forall x :: j <= x < |moves| ==> moves[x].to in r && r[moves[x].to].Le(d[u].Succ()))
    decreases |moves| - j
  {
    if j < |moves| {
      var d1 := Lower(d, moves[j].to, d[u].Succ());
      LowerFacts(d, moves[j].to, d[u].Succ(), u);
      RelaxMovesLowers(d1, u, moves, j + 1);
      var r := RelaxMoves(d1, u, moves, j + 1);
      assert RelaxMoves(d, u, moves, j) == r;
      RelaxMovesChain(d, d1, r, u, moves, j);
    }
  }

  /** The moves loop keeps finite entries lengths of walks. */
  lemma {:induction false} RelaxMovesSound(T: Table, s: Coord, d: Dists, u: Coord, j: nat)
    requires u in d && u in T && j <= |T[u]| && forall x :: j <= x < |T[u]| ==> T[u][x].to in d
    requires Sound(T, s, d)
    ensures Sound(T, s, RelaxMoves(d, u, T[u], j))
    decreases |T[u]| - j
  {
    if j < |T[u]| {
      var v, cand := T[u][j].to, d[u].Succ();
      if cand.Lt(d[v]) {
        ReachStep(T, s, d[u].n, u, j);
      }
      var d1 := Lower(d, v, cand);
      assert d1[u] == d[u];
      RelaxMovesSound(T, s, d1, u, j + 1);
    }
  }

  /** Chains one cell's moves loop with the loops of the later cells. */
  lemma RelaxCellsChain(t: Table, d: Dists, d1: Dists, r: Dists, cells: seq<Coord>, i: nat)
    requires i < |cells| && d1.Keys == d.Keys && r.Keys == d.Keys
    requires forall c :: c in cells ==> c in t && c in d
    requires forall w :: w in d ==> d1[w].Le(d[w])
    requires forall x :: 0 <= x < |t[cells[i]]| ==> t[cells[i]][x].to in d1 && d1[t[cells[i]][x].to].Le(d[cells[i]].Succ())
    requires forall w :: w in d1 ==> r[w].Le(d1[w])
    requires forall y, x :: i + 1 <= y < |cells| && 0 <= x < |t[cells[y]]| ==> t[cells[y]][x].to in r && r[t[cells[y]][x].to].Le(d1[cells[y]].Succ())
    ensures forall w :: w in d ==> r[w].Le(d[w])
    ensures forall y, x :: i <= y < |cells| && 0 <= x < |t[cells[y]]| ==> t[cells[y]][x].to in r && r[t[cells[y]][x].to].Le(d[cells[y]].Succ())
  {
    forall w | w in d ensures r[w].Le(d[w]) {
      LeTrans(r[w], d1[w], d[w]);
    }
    forall y, x | i <= y < |cells| && 0 <= x < |t[cells[y]]|
      ensures t[cells[y]][x].to in r && r[t[cells[y]][x].to].Le(d[cells[y]].Succ())
    {
      var v := t[cells[y]][x].to;
      if y == i {
        LeTrans(r[v], d1[v], d[cells[i]].Succ());
      } else {
        assert cells[y] in cells;
        assert d1[cells[y]].Succ().Le(d[cells[y]].Succ());
        LeTrans(r[v], d1[cells[y]].Succ(), d[cells[y]].Succ());
      }
    }
  }

  /** The loop over `cells[i..]`: no entry rises and every listed target ends at most one more than its cell's entry before. */
  lemma {:induction false} RelaxCellsLowers(t: Table, cols: nat, rows: nat, d: Dists, cells: seq<Coord>, i: nat)
    requires TotalOn(t, cols, rows) && Cells(cols, rows) <= d.Keys && i <= |cells|
    requires forall c :: c in cells ==> InBounds(cols, rows, c)
    ensures var r := RelaxCells(t, cols, rows, d, cells, i);
      && (forall w :: w in d ==> r[w].Le(d[w]))
      && (forall y, x :: i <= y < |cells| && 0 <= x < |t[cells[y]]| ==> t[cells[y]][x].to in r && r[t[cells[y]][x].to].Le(d[cells[y]].Succ()))
    decreases |cells| - i
  {
    if i < |cells| {
      var u := cells[i];
      assert InBounds(cols, rows, u);
      var d1 := RelaxMoves(d, u, t[u], 0);
      RelaxMovesLowers(d, u, t[u], 0);
      RelaxCellsLowers(t, cols, rows, d1, cells, i + 1);
      var r := RelaxCells(t, cols, rows, d1, cells, i + 1);
      assert RelaxCells(t, cols, rows, d, cells, i) == r;
      RelaxCellsChain(t, d, d1, r, cells, i);
    }
  }

  /** The loop over `cells[i..]` keeps finite entries lengths of walks. */
  lemma {:induction false} RelaxCellsSound(t: Table, T: Table, cols: nat, rows: nat, s: Coord, d: Dists, cells: seq<Coord>, i: nat)
    requires TotalOn(t, cols, rows) && Mirrors(t, T, cols, rows) && Cells(cols, rows) <= d.Keys && i <= |cells|
    requires forall c :: c in cells ==> InBounds(cols, rows, c)
    requires Sound(T, s, d)
    ensures Sound(T, s, RelaxCells(t, cols, rows, d, cells, i))
    decreases |cells| - i
  {
    if i < |cells| {
      var u := cells[i];
      assert InBounds(cols, rows, u);
      RelaxMovesSound(T, s, d, u, 0);
      RelaxCellsSound(t, T, cols, rows, s, RelaxMoves(d, u, t[u], 0), cells, i + 1);
    }
  }

  /**
   * One pass: no entry rises, the target of every listed move from an
   * on-board cell ends at most one more than that cell's entry before the
   * pass, and finite entries stay lengths of walks.
   */
  lemma RoundLowers(t: Table, T: Table, cols: nat, rows: nat, d: Dists)
    requires TotalOn(t, cols, rows) && Mirrors(t, T, cols, rows) && Cells(cols, rows) <= d.Keys
    ensures var r := Round(t, cols, rows, d);
      && (forall v :: v in d ==> r[v].Le(d[v]))
      && (forall u, x :: InBounds(cols, rows, u) && u in T && 0 <= x < |T[u]| ==> r[T[u][x].to].Le(d[u].Succ()))
  {
    var cl := CellList(cols, rows);
    CellListInBounds(cols, rows);
    RelaxCellsLowers(t, cols, rows, d, cl, 0);
    forall u, x | InBounds(cols, rows, u) && u in T && 0 <= x < |T[u]|
      ensures Round(t, cols, rows, d)[T[u][x].to].Le(d[u].Succ())
    {
      var y := CellIndex(cols, rows, u);
      assert T[u] == t[cl[y]];
    }
  }

  lemma RoundSound(t: Table, T: Table, cols: nat, rows: nat, s: Coord, d: Dists)
    requires TotalOn(t, cols, rows) && Mirrors(t, T, cols, rows) && Cells(cols, rows) <= d.Keys && Sound(T, s, d)
    ensures Sound(T, s, Round(t, cols, rows, d))
  {
    CellListInBounds(cols, rows);
    RelaxCellsSound(t, T, cols, rows, s, d, CellList(cols, rows), 0);
  }

  /** A cell first reached in `k + 1` moves is one move on from a cell reached in `k`. */
  lemma NewlyReached(T: Table, cols: nat, rows: nat, s: Coord, k: nat, v: Coord) returns (u: Coord, x: nat)
    requires WellFormed(T, cols, rows) && InBounds(cols, rows, s)
    requires v in Reach.Reach(T, s, k + 1) && v !in Reach.Reach(T, s, k)
    ensures u in Reach.Reach(T, s, k) && InBounds(cols, rows, u) && u in T && x < |T[u]| && T[u][x].to == v
  {
    u, x :| u in Reach.Reach(T, s, k) && u in T && 0 <= x < |T[u]| && T[u][x].to == v;
    ReachWithin(T, cols, rows, s, k);
  }

  lemma CompleteStep(T: Table, cols: nat, rows: nat, s: Coord, d: Dists, r: Dists, k: nat)
    requires WellFormed(T, cols, rows) && InBounds(cols, rows, s) && Complete(T, s, d, k)
    requires Cells(cols, rows) <= d.Keys && r.Keys == d.Keys && forall v :: v in d ==> r[v].Le(d[v])
    requires forall u, x :: InBounds(cols, rows, u) && u in T && 0 <= x < |T[u]| ==> r[T[u][x].to].Le(d[u].Succ())
    ensures Complete(T, s, r, k + 1)
  {
    forall j, v | 0 <= j <= k + 1 && v in Reach.Reach(T, s, j) ensures v in r && r[v].Le(Fin(j)) {
      if j <= k || v in Reach.Reach(T, s, k) {
        var j' := if j <= k then j else k;
        assert v in d && d[v].Le(Fin(j'));
      } else {
        var u, x := NewlyReached(T, cols, rows, s, k, v);
        assert d[u].Le(Fin(k));
      }
    }
  }

  lemma {:induction false} RoundsSound(t: Table, T: Table, cols: nat, rows: nat, s: Coord, d: Dists, k: nat)
    requires TotalOn(t, cols, rows) && Mirrors(t, T, cols, rows) && Cells(cols, rows) <= d.Keys && Sound(T, s, d)
    ensures Sound(T, s, Rounds(t, cols, rows, d, k))
    decreases k
  {
    if k > 0 {
      RoundSound(t, T, cols, rows, s, d);
      RoundsSound(t, T, cols, rows, s, Round(t, cols, rows, d), k - 1);
    }
  }

  lemma {:induction false} RoundsComplete(t: Table, T: Table, cols: nat, rows: nat, s: Coord, d: Dists, m: nat, k: nat)
    requires TotalOn(t, cols, rows) && Mirrors(t, T, cols, rows) && InBounds(cols, rows, s) && Cells(cols, rows) <= d.Keys
    requires Complete(T, s, d, m)
    ensures Complete(T, s, Rounds(t, cols, rows, d, k), m + k)
    decreases k, 1
  {
    if k > 0 {
      RoundComplete(t, T, cols, rows, s, d, m);
      RoundsCompleteAfter(t, T, cols, rows, s, d, Round(t, cols, rows, d), m, k);
    }
  }

  /** The remaining passes after the first, whose result `d1` is complete one move further. */
  lemma {:induction false} RoundsCompleteAfter(t: Table, T: Table, cols: nat, rows: nat, s: Coord, d: Dists, d1: Dists, m: nat, k: nat)
    requires TotalOn(t, cols, rows) && Mirrors(t, T, cols, rows) && InBounds(cols, rows, s) && Cells(cols, rows) <= d.Keys
    requires k > 0 && d1 == Round(t, cols, rows, d) && Complete(T, s, d1, m + 1)
    ensures Complete(T, s, Rounds(t, cols, rows, d, k), m + k)
    decreases k, 0
  {
    RoundsComplete(t, T, cols, rows, s, d1, m + 1, k - 1);
    assert Rounds(t, cols, rows, d, k) == Rounds(t, cols, rows, d1, k - 1);
  }

  /** A pass extends completeness by one move. */
  lemma RoundComplete(t: Table, T: Table, cols: nat, rows: nat, s: Coord, d: Dists, m: nat)
    requires TotalOn(t, cols, rows) && Mirrors(t, T, cols, rows) && InBounds(cols, rows, s) && Cells(cols, rows) <= d.Keys
    requires Complete(T, s, d, m)
    ensures Complete(T, s, Round(t, cols, rows, d), m + 1)
  {
    RoundLowers(t, T, cols, rows, d);
    CompleteStep(T, cols, rows, s, d, Round(t, cols, rows, d), m);
  }

  lemma InitDistFacts(T: Table, cols: nat, rows: nat, s: Coord)
    ensures Sound(T, s, InitDist(cols, rows, s)) && Complete(T, s, InitDist(cols, rows, s), 0)
  {
    var d := InitDist(cols, rows, s);
    forall v | v in d && d[v].Fin? ensures v in Reach.Reach(T, s, d[v].n) {
      assert v == s;
    }
  }

  /** A settled, sound and complete entry is the breadth-first distance. */
  lemma SettledEntry(T: Table, cols: nat, rows: nat, s: Coord, d: Dists, n: nat, v: Coord)
    requires WellFormed(T, cols, rows) && InBounds(cols, rows, s) && n + 1 == cols * rows
    requires v in d && Sound(T, s, d) && Complete(T, s, d, n)
    ensures d[v] == ToExt(ShortestDist(T, cols, rows, s, {v}))
  {
    var r := ShortestDist(T, cols, rows, s, {v});
    if r.Some? {
      assert v in Reach.Reach(T, s, r.value) * {v};
      if r.value > n {
        ReachSettles(T, cols, rows, s, n, r.value);
        assert false;
      }
      assert v in Reach.Reach(T, s, d[v].n) * {v};
    } else {
      NeverReached(T, cols, rows, s, v);
    }
  }

  /**
   * `bellmanFord` from an on-board start: an entry for every cell and no
   * other, 0 at the start, and at every cell the least number of table moves
   * from the start, infinity when there is none.
   */
  lemma BellmanFordExact(t: Table, cols: nat, rows: nat, s: Coord)
    requires TotalOn(t, cols, rows) && InBounds(cols, rows, s)
    ensures var d := BellmanFord(t, cols, rows, s);
      && d.Keys == Cells(cols, rows)
      && d[s] == Fin(0)
      && forall v :: InBounds(cols, rows, v) ==> d[v] == ToExt(ShortestDist(OnBoardPart(t, cols, rows), cols, rows, s, {v}))
  {
    var T := OnBoardPart(t, cols, rows);
    OnBoardPartMirrors(t, cols, rows);
    OnBoardStart(cols, rows, s);
    var n := cols * rows - 1;
    BellmanFordSound(t, cols, rows, s, n);
    BellmanFordComplete(t, cols, rows, s, n);
    var d := BellmanFord(t, cols, rows, s);
    assert s in Reach.Reach(T, s, 0);
    forall v | InBounds(cols, rows, v) ensures d[v] == ToExt(ShortestDist(T, cols, rows, s, {v})) {
      SettledEntry(T, cols, rows, s, d, n, v);
    }
  }

  /** After its passes every finite entry is the length of a walk. */
  lemma BellmanFordSound(t: Table, cols: nat, rows: nat, s: Coord, n: nat)
    requires TotalOn(t, cols, rows) && n + 1 == cols * rows
    ensures Sound(OnBoardPart(t, cols, rows), s, BellmanFord(t, cols, rows, s))
  {
    OnBoardPartMirrors(t, cols, rows);
    BellmanFordUnfold(t, cols, rows, s, n);
    InitDistFacts(OnBoardPart(t, cols, rows), cols, rows, s);
    RoundsSound(t, OnBoardPart(t, cols, rows), cols, rows, s, InitDist(cols, rows, s), n);
  }

  /** After its `cols * rows - 1` passes every cell reachable within that many moves has an entry at most its distance. */
  lemma BellmanFordComplete(t: Table, cols: nat, rows: nat, s: Coord, n: nat)
    requires TotalOn(t, cols, rows) && InBounds(cols, rows, s) && n + 1 == cols * rows
    ensures Complete(OnBoardPart(t, cols, rows), s, BellmanFord(t, cols, rows, s), n)
  {
    OnBoardPartMirrors(t, cols, rows);
    BellmanFordUnfold(t, cols, rows, s, n);
    InitDistFacts(OnBoardPart(t, cols, rows), cols, rows, s);
    RoundsComplete(t, OnBoardPart(t, cols, rows), cols, rows, s, InitDist(cols, rows, s), 0, n);
  }

  lemma OnBoardStart(cols: nat, rows: nat, s: Coord)
    requires InBounds(cols, rows, s)
    ensures s in Cells(cols, rows) && Cells(cols, rows) + {s} == Cells(cols, rows) && cols * rows >= 1
  {
    assert s in Cells(cols, rows);
  }

  lemma BellmanFordUnfold(t: Table, cols: nat, rows: nat, s: Coord, n: nat)
    requires TotalOn(t, cols, rows) && n + 1 == cols * rows
    ensures BellmanFord(t, cols, rows, s) == Rounds(t, cols, rows, InitDist(cols, rows, s), n)
  {
  }

  // ---- Floyd-Warshall ------------------------------------------------------------------

  type PairDists = map<(Coord, Coord), Ext>

  /** Every pair of `cs` has an entry. */
  predicate Covers(d: PairDists, cs: seq<Coord>) {
    forall a, b :: a in cs && b in cs ==> (a, b) in d
  }

  /** The table lists no move from a cell to itself. */
  ghost predicate NoSelfLoops(t: Table, cols: nat, rows: nat) {
    forall u, x :: InBounds(cols, rows, u) && u in t && 0 <= x < |t[u]| ==> t[u][x].to != u
  }

  /** `dist`: 0 on the diagonal and infinity elsewhere. */
  function FwInit(cs: seq<Coord>): (d: PairDists)
    ensures Covers(d, cs)
  {
    var d := map a, b | a in cs && b in cs :: (a, b) := if a == b then Fin(0) else Inf;
    assert forall a, b :: a in cs && b in cs ==> (a, b) in d by {
      forall a, b | a in cs && b in cs ensures (a, b) in d {
        assert (a, b).0 in cs && (a, b).1 in cs;
      }
    }
    d
  }

  lemma FwInitAt(cs: seq<Coord>, a: Coord, b: Coord)
    requires a in cs && b in cs
    ensures FwInit(cs)[(a, b)] == if a == b then Fin(0) else Inf
  {
  }

  /** The direct edges out of `u`, from its `j`-th move on: each target's entry becomes 1. */
  function EdgesAt(d: PairDists, u: Coord, moves: seq<PawnMove>, j: nat): (r: PairDists)
    requires j <= |moves| && forall x :: j <= x < |moves| ==> (u, moves[x].to) in d
    ensures r.Keys == d.Keys
    decreases |moves| - j
  {
    if j == |moves| then d else EdgesAt(d[(u, moves[j].to) := Fin(1)], u, moves, j + 1)
  }

  /** The direct-edge loop over `CellList(cols, rows)[i..]`. */
  function EdgesFrom(t: Table, cols: nat, rows: nat, d: PairDists, i: nat): (r: PairDists)
    requires TotalOn(t, cols, rows) && Covers(d, CellList(cols, rows)) && i <= cols * rows
    ensures r.Keys == d.Keys
    decreases cols * rows - i
  {
    var cs := CellList(cols, rows);
    if i == |cs| then d
    else
      CellListInBounds(cols, rows);
      var u := cs[i];
      EdgesFrom(t, cols, rows, EdgesAt(d, u, t[u], 0), i + 1)
  }

  /** The inner test: replace `dist[(a, b)]` when going through `k` is strictly shorter. */
  function Relax(d: PairDists, a: Coord, b: Coord, k: Coord): (r: PairDists)
    requires (a, b) in d && (a, k) in d && (k, b) in d
    ensures r.Keys == d.Keys
  {
    var via := d[(a, k)].Plus(d[(k, b)]);
    if via.Lt(d[(a, b)]) then d[(a, b) := via] else d
  }

  function ForJ(d: PairDists, cs: seq<Coord>, k: Coord, a: Coord, j: nat): (r: PairDists)
    requires Covers(d, cs) && k in cs && a in cs && j <= |cs|
    ensures r.Keys == d.Keys
    decreases |cs| - j
  {
    if j == |cs| then d else ForJ(Relax(d, a, cs[j], k), cs, k, a, j + 1)
  }

  function ForI(d: PairDists, cs: seq<Coord>, k: Coord, i: nat): (r: PairDists)
    requires Covers(d, cs) && k in cs && i <= |cs|
    ensures r.Keys == d.Keys
    decreases |cs| - i
  {
    if i == |cs| then d else ForI(ForJ(d, cs, k, cs[i], 0), cs, k, i + 1)
  }

  function ForK(d: PairDists, cs: seq<Coord>, m: nat): (r: PairDists)
    requires Covers(d, cs) && m <= |cs|
    ensures r.Keys == d.Keys
    decreases |cs| - m
  {
    if m == |cs| then d else ForK(ForI(d, cs, cs[m], 0), cs, m + 1)
  }

  /** `floydWarshall`: the diagonal, the direct edges, then every intermediate cell in column-major order. */
  function FloydWarshall(t: Table, cols: nat, rows: nat): (d: PairDists)
    requires TotalOn(t, cols, rows)
    ensures Covers(d, CellList(cols, rows))
  {
    var cs := CellList(cols, rows);
    ForK(EdgesFrom(t, cols, rows, FwInit(cs), 0), cs, 0)
  }

  // ---- Floyd-Warshall proofs ---------------------------------------------------

  lemma LeTrans(a: Ext, b: Ext, c: Ext)
    requires a.Le(b) && b.Le(c)
    ensures a.Le(c)
  {
  }

  lemma PlusMono(a: Ext, b: Ext, a': Ext, b': Ext)
    requires a'.Le(a) && b'.Le(b)
    ensures a'.Plus(b').Le(a.Plus(b))
  {
  }

  /** Some move from the `j`-th on ends at `q`. */
  predicate ListsTarget(moves: seq<PawnMove>, j: nat, q: Coord) {
    exists x :: j <= x < |moves| && moves[x].to == q
  }

  lemma {:induction false} EdgesAtFacts(d: PairDists, u: Coord, moves: seq<PawnMove>, j: nat)
    requires j <= |moves| && forall x :: j <= x < |moves| ==> (u, moves[x].to) in d
    ensures forall p, q :: (p, q) in d ==>
      EdgesAt(d, u, moves, j)[(p, q)] == (if p == u && ListsTarget(moves, j, q) then Fin(1) else d[(p, q)])
    decreases |moves| - j
  {
    if j < |moves| {
      var d1 := d[(u, moves[j].to) := Fin(1)];
      EdgesAtFacts(d1, u, moves, j + 1);
      forall p, q | (p, q) in d
        ensures EdgesAt(d, u, moves, j)[(p, q)] == (if p == u && ListsTarget(moves, j, q) then Fin(1) else d[(p, q)])
      {
        if p == u && q == moves[j].to {
          assert ListsTarget(moves, j, q);
        } else if p == u && ListsTarget(moves, j, q) {
          var x :| j <= x < |moves| && moves[x].to == q;
          assert x != j;
          assert ListsTarget(moves, j + 1, q);
        }
      }
    }
  }

  lemma {:induction false} EdgesFromFacts(t: Table, cols: nat, rows: nat, d: PairDists, i: nat)
    requires TotalOn(t, cols, rows) && Covers(d, CellList(cols, rows)) && i <= cols * rows
    ensures forall p, q :: (p, q) in d ==>
      EdgesFrom(t, cols, rows, d, i)[(p, q)] == (if p in CellList(cols, rows)[i..] && Linked(t, p, q) then Fin(1) else d[(p, q)])
    decreases cols * rows - i
  {
    var cs := CellList(cols, rows);
    if i < |cs| {
      CellListInBounds(cols, rows);
      var u := cs[i];
      var d1 := EdgesAt(d, u, t[u], 0);
      EdgesAtFacts(d, u, t[u], 0);
      EdgesFromFacts(t, cols, rows, d1, i + 1);
      assert cs[i..] == [u] + cs[i + 1..];
    }
  }

  /** After the diagonal and the direct edges: 1 for a listed move, else 0 on the diagonal, else infinity. */
  lemma EdgesExact(t: Table, cols: nat, rows: nat, a: Coord, b: Coord)
    requires TotalOn(t, cols, rows) && InBounds(cols, rows, a) && InBounds(cols, rows, b)
    ensures var d := EdgesFrom(t, cols, rows, FwInit(CellList(cols, rows)), 0);
      (a, b) in d && d[(a, b)] == if Linked(t, a, b) then Fin(1) else if a == b then Fin(0) else Inf
  {
    var cs := CellList(cols, rows);
    CellListInBounds(cols, rows);
    FwInitAt(cs, a, b);
    EdgesFromFacts(t, cols, rows, FwInit(cs), 0);
    assert cs[0..] == cs;
  }

  /** Every finite entry is the length of some walk in `T`. */
  ghost predicate Sound2(T: Table, d: PairDists) {
    forall a, b :: (a, b) in d && d[(a, b)].Fin? ==> b in Reach.Reach(T, a, d[(a, b)].n)
  }

  /** The walk's cells strictly between its ends are all in `S`. */
  ghost predicate InteriorIn(w: seq<Coord>, S: seq<Coord>) {
    forall x :: 0 < x < |w| - 1 ==> w[x] in S
  }

  /** Every walk between cells of `cs` through cells of `cs[..m]` only bounds the entry from above. */
  ghost predicate Complete2(T: Table, d: PairDists, cs: seq<Coord>, m: nat)
    requires m <= |cs|
  {
    forall a, b, w :: a in cs && b in cs && WalkTo(T, w, a, b) && InteriorIn(w, cs[..m]) ==>
      (a, b) in d && d[(a, b)].Le(Fin(|w| - 1))
  }

  /** One inner test: no entry rises and the pair ends at most its distance through `k`. */
  lemma RelaxLowers(d: PairDists, a: Coord, b: Coord, k: Coord)
    requires (a, b) in d && (a, k) in d && (k, b) in d
    ensures var d1 := Relax(d, a, b, k);
      && (forall p :: p in d ==> d1[p].Le(d[p]))
      && d1[(a, b)].Le(d[(a, k)].Plus(d[(k, b)]))
  {
  }

  /** One inner test keeps finite entries lengths of walks. */
  lemma RelaxSound(T: Table, d: PairDists, a: Coord, b: Coord, k: Coord)
    requires (a, b) in d && (a, k) in d && (k, b) in d && Sound2(T, d)
    ensures Sound2(T, Relax(d, a, b, k))
  {
    var via := d[(a, k)].Plus(d[(k, b)]);
    if via.Lt(d[(a, b)]) {
      ReachTrans(T, a, k, b, d[(a, k)].n, d[(k, b)].n);
    }
  }

  /** Chains one inner test with the tests of the later columns. */
  lemma ForJChain(d: PairDists, d1: PairDists, r: PairDists, cs: seq<Coord>, k: Coord, a: Coord, j: nat)
    requires Covers(d, cs) && k in cs && a in cs && j < |cs| && d1.Keys == d.Keys && r.Keys == d.Keys
    requires forall p :: p in d ==> d1[p].Le(d[p])
    requires d1[(a, cs[j])].Le(d[(a, k)].Plus(d[(k, cs[j])]))
    requires forall p :: p in d1 ==> r[p].Le(d1[p])
    requires forall y :: j + 1 <= y < |cs| ==> r[(a, cs[y])].Le(d1[(a, k)].Plus(d1[(k, cs[y])]))
    ensures forall p :: p in d ==> r[p].Le(d[p])
    ensures forall y :: j <= y < |cs| ==> r[(a, cs[y])].Le(d[(a, k)].Plus(d[(k, cs[y])]))
  {
    forall p | p in d ensures r[p].Le(d[p]) {
      LeTrans(r[p], d1[p], d[p]);
    }
    forall y | j <= y < |cs| ensures r[(a, cs[y])].Le(d[(a, k)].Plus(d[(k, cs[y])])) {
      var p := (a, cs[y]);
      var bound := d[(a, k)].Plus(d[(k, cs[y])]);
      if y == j {
        LeTrans(r[p], d1[p], bound);
      } else {
        PlusMono(d[(a, k)], d[(k, cs[y])], d1[(a, k)], d1[(k, cs[y])]);
        LeTrans(r[p], d1[(a, k)].Plus(d1[(k, cs[y])]), bound);
      }
    }
  }

  /** The `j` loop for row `a`: no entry rises and each pair of the row ends at most its distance through `k`. */
  lemma {:induction false} ForJLowers(d: PairDists, cs: seq<Coord>, k: Coord, a: Coord, j: nat)
    requires Covers(d, cs) && k in cs && a in cs && j <= |cs|
    ensures var r := ForJ(d, cs, k, a, j);
      && (forall p :: p in d ==> r[p].Le(d[p]))
      && (forall y :: j <= y < |cs| ==> r[(a, cs[y])].Le(d[(a, k)].Plus(d[(k, cs[y])])))
    decreases |cs| - j
  {
    if j < |cs| {
      var d1 := Relax(d, a, cs[j], k);
      RelaxLowers(d, a, cs[j], k);
      ForJLowers(d1, cs, k, a, j + 1);
      var r := ForJ(d1, cs, k, a, j + 1);
      assert ForJ(d, cs, k, a, j) == r;
      ForJChain(d, d1, r, cs, k, a, j);
    }
  }

  /** The `j` loop keeps finite entries lengths of walks. */
  lemma {:induction false} ForJSound(T: Table, d: PairDists, cs: seq<Coord>, k: Coord, a: Coord, j: nat)
    requires Covers(d, cs) && k in cs && a in cs && j <= |cs| && Sound2(T, d)
    ensures Sound2(T, ForJ(d, cs, k, a, j))
    decreases |cs| - j
  {
    if j < |cs| {
      RelaxSound(T, d, a, cs[j], k);
      ForJSound(T, Relax(d, a, cs[j], k), cs, k, a, j + 1);
    }
  }

  /** Chains one row's pass with the passes over the later rows. */
  lemma ForIChain(d: PairDists, d1: PairDists, r: PairDists, cs: seq<Coord>, k: Coord, i: nat)
    requires Covers(d, cs) && k in cs && i < |cs| && d1.Keys == d.Keys && r.Keys == d.Keys
    requires forall p :: p in d ==> d1[p].Le(d[p])
    requires forall z :: 0 <= z < |cs| ==> d1[(cs[i], cs[z])].Le(d[(cs[i], k)].Plus(d[(k, cs[z])]))
    requires forall p :: p in d1 ==> r[p].Le(d1[p])
    requires forall y, z :: i + 1 <= y < |cs| && 0 <= z < |cs| ==> r[(cs[y], cs[z])].Le(d1[(cs[y], k)].Plus(d1[(k, cs[z])]))
    ensures forall p :: p in d ==> r[p].Le(d[p])
    ensures forall y, z :: i <= y < |cs| && 0 <= z < |cs| ==> r[(cs[y], cs[z])].Le(d[(cs[y], k)].Plus(d[(k, cs[z])]))
  {
    forall p | p in d ensures r[p].Le(d[p]) {
      LeTrans(r[p], d1[p], d[p]);
    }
    forall y, z | i <= y < |cs| && 0 <= z < |cs| ensures r[(cs[y], cs[z])].Le(d[(cs[y], k)].Plus(d[(k, cs[z])])) {
      var p := (cs[y], cs[z]);
      var bound := d[(cs[y], k)].Plus(d[(k, cs[z])]);
      if y == i {
        LeTrans(r[p], d1[p], bound);
      } else {
        PlusMono(d[(cs[y], k)], d[(k, cs[z])], d1[(cs[y], k)], d1[(k, cs[z])]);
        LeTrans(r[p], d1[(cs[y], k)].Plus(d1[(k, cs[z])]), bound);
      }
    }
  }

  /** The `i` loop from row `i` on: no entry rises and each pair of those rows ends at most its distance through `k`. */
  lemma {:induction false} ForILowers(d: PairDists, cs: seq<Coord>, k: Coord, i: nat)
    requires Covers(d, cs) && k in cs && i <= |cs|
    ensures var r := ForI(d, cs, k, i);
      && (forall p :: p in d ==> r[p].Le(d[p]))
      && (forall y, z :: i <= y < |cs| && 0 <= z < |cs| ==> r[(cs[y], cs[z])].Le(d[(cs[y], k)].Plus(d[(k, cs[z])])))
    decreases |cs| - i
  {
    if i < |cs| {
      var d1 := ForJ(d, cs, k, cs[i], 0);
      ForJLowers(d, cs, k, cs[i], 0);
      ForILowers(d1, cs, k, i + 1);
      var r := ForI(d1, cs, k, i + 1);
      assert ForI(d, cs, k, i) == r;
      ForIChain(d, d1, r, cs, k, i);
    }
  }

  /** The `i` loop keeps finite entries lengths of walks. */
  lemma {:induction false} ForISound(T: Table, d: PairDists, cs: seq<Coord>, k: Coord, i: nat)
    requires Covers(d, cs) && k in cs && i <= |cs| && Sound2(T, d)
    ensures Sound2(T, ForI(d, cs, k, i))
    decreases |cs| - i
  {
    if i < |cs| {
      ForJSound(T, d, cs, k, cs[i], 0);
      ForISound(T, ForJ(d, cs, k, cs[i], 0), cs, k, i + 1);
    }
  }

  /** One intermediate cell `k`: no entry rises and every pair ends at most its distance through `k` before the pass. */
  lemma StepK(T: Table, d: PairDists, cs: seq<Coord>, k: Coord)
    requires Covers(d, cs) && k in cs && Sound2(T, d)
    ensures var r := ForI(d, cs, k, 0);
      && (forall p :: p in d ==> r[p].Le(d[p]))
      && (forall a, b :: a in cs && b in cs ==> r[(a, b)].Le(d[(a, k)].Plus(d[(k, b)])))
      && Sound2(T, r)
  {
    ForILowers(d, cs, k, 0);
    ForISound(T, d, cs, k, 0);
  }

  lemma FirstOccurrence(w: seq<Coord>, k: Coord) returns (p: nat)
    requires exists x :: 0 < x < |w| - 1 && w[x] == k
    ensures 0 < p < |w| - 1 && w[p] == k && forall x :: 0 < x < p ==> w[x] != k
  {
    p := 1;
    while w[p] != k
      invariant 0 < p < |w| - 1 && forall x :: 0 < x < p ==> w[x] != k
      decreases |w| - p
    {
      p := p + 1;
    }
  }

  lemma LastOccurrence(w: seq<Coord>, k: Coord) returns (q: nat)
    requires exists x :: 0 < x < |w| - 1 && w[x] == k
    ensures 0 < q < |w| - 1 && w[q] == k && forall x :: q < x < |w| - 1 ==> w[x] != k
  {
    q := |w| - 2;
    while w[q] != k
      invariant 0 < q < |w| - 1 && forall x :: q < x < |w| - 1 ==> w[x] != k
      decreases q
    {
      q := q - 1;
    }
  }

  lemma SubWalks(T: Table, w: seq<Coord>, a: Coord, b: Coord, p: nat, q: nat)
    requires WalkTo(T, w, a, b) && 0 < p <= q < |w| - 1
    ensures WalkTo(T, w[..p + 1], a, w[p]) && WalkTo(T, w[q..], w[q], b)
  {
    var w1, w2 := w[..p + 1], w[q..];
    forall x | 0 <= x < |w1| - 1 ensures Linked(T, w1[x], w1[x + 1]) {
      assert w1[x] == w[x] && w1[x + 1] == w[x + 1];
    }
    forall x | 0 <= x < |w2| - 1 ensures Linked(T, w2[x], w2[x + 1]) {
      assert w2[x] == w[q + x] && w2[x + 1] == w[q + x + 1];
    }
  }

  lemma CompleteStepK(T: Table, d: PairDists, r: PairDists, cs: seq<Coord>, m: nat)
    requires m < |cs| && Covers(d, cs) && Complete2(T, d, cs, m)
    requires r.Keys == d.Keys && (forall p :: p in d ==> r[p].Le(d[p]))
    requires forall a, b :: a in cs && b in cs ==> r[(a, b)].Le(d[(a, cs[m])].Plus(d[(cs[m], b)]))
    ensures Complete2(T, r, cs, m + 1)
  {
    var k := cs[m];
    assert cs[..m + 1] == cs[..m] + [k];
    forall a, b, w | a in cs && b in cs && WalkTo(T, w, a, b) && InteriorIn(w, cs[..m + 1])
      ensures (a, b) in r && r[(a, b)].Le(Fin(|w| - 1))
    {
      if exists x :: 0 < x < |w| - 1 && w[x] == k {
        var p := FirstOccurrence(w, k);
        var q := LastOccurrence(w, k);
        SubWalks(T, w, a, b, p, q);
        var w1, w2 := w[..p + 1], w[q..];
        assert InteriorIn(w1, cs[..m]) by {
          forall x | 0 < x < |w1| - 1 ensures w1[x] in cs[..m] {
            assert w1[x] == w[x] && w[x] in cs[..m + 1] && w[x] != k;
          }
        }
        assert InteriorIn(w2, cs[..m]) by {
          forall x | 0 < x < |w2| - 1 ensures w2[x] in cs[..m] {
            assert w2[x] == w[q + x] && w[q + x] in cs[..m + 1] && w[q + x] != k;
          }
        }
        assert d[(a, k)].Le(Fin(|w1| - 1));
        assert d[(k, b)].Le(Fin(|w2| - 1));
        PlusMono(Fin(|w1| - 1), Fin(|w2| - 1), d[(a, k)], d[(k, b)]);
      } else {
        assert InteriorIn(w, cs[..m]) by {
          forall x | 0 < x < |w| - 1 ensures w[x] in cs[..m] {
            assert w[x] in cs[..m + 1] && w[x] != k;
          }
        }
      }
    }
  }

  lemma {:induction false} ForKFacts(T: Table, d: PairDists, cs: seq<Coord>, m: nat)
    requires m <= |cs| && Covers(d, cs) && Sound2(T, d) && Complete2(T, d, cs, m)
    ensures Sound2(T, ForK(d, cs, m)) && Complete2(T, ForK(d, cs, m), cs, |cs|)
    decreases |cs| - m
  {
    if m < |cs| {
      var d1 := ForI(d, cs, cs[m], 0);
      StepK(T, d, cs, cs[m]);
      CompleteStepK(T, d, d1, cs, m);
      ForKFacts(T, d1, cs, m + 1);
    }
  }

  lemma LongInterior(w: seq<Coord>, S: seq<Coord>)
    ensures |w| > 2 && InteriorIn(w, S) ==> w[1] in S
  {
  }

  /** The table after the direct edges, seen through a mirror `T`. */
  lemma EdgesBase(t: Table, T: Table, cols: nat, rows: nat)
    requires TotalOn(t, cols, rows) && Mirrors(t, T, cols, rows) && NoSelfLoops(t, cols, rows)
    ensures var cs := CellList(cols, rows);
      var d := EdgesFrom(t, cols, rows, FwInit(cs), 0);
      Sound2(T, d) && Complete2(T, d, cs, 0)
  {
    var cs := CellList(cols, rows);
    var d := EdgesFrom(t, cols, rows, FwInit(cs), 0);
    CellListInBounds(cols, rows);
    assert d.Keys == FwInit(cs).Keys;
    forall a, b | (a, b) in d && d[(a, b)].Fin? ensures b in Reach.Reach(T, a, d[(a, b)].n) {
      assert a in cs && b in cs;
      EdgesExact(t, cols, rows, a, b);
      if Linked(t, a, b) {
        var x :| 0 <= x < |T[a]| && T[a][x].to == b;
        assert b in Succs(T, Reach.Reach(T, a, 0));
      }
    }
    forall a, b, w | a in cs && b in cs && WalkTo(T, w, a, b) && InteriorIn(w, cs[..0])
      ensures (a, b) in d && d[(a, b)].Le(Fin(|w| - 1))
    {
      EdgesExact(t, cols, rows, a, b);
      LongInterior(w, cs[..0]);
      if |w| == 2 {
        assert Linked(T, a, b);
      } else {
        assert !Linked(t, a, a);
      }
    }
  }

  /** A walk from an on-board cell in a well-formed table stays on the board. */
  lemma WalkOnBoard(T: Table, cols: nat, rows: nat, w: seq<Coord>, a: Coord, b: Coord)
    requires WellFormed(T, cols, rows) && InBounds(cols, rows, a) && WalkTo(T, w, a, b)
    ensures forall x :: 0 <= x < |w| ==> InBounds(cols, rows, w[x])
  {
    forall x | 0 < x < |w| ensures InBounds(cols, rows, w[x]) {
      assert Linked(T, w[x - 1], w[x]);
    }
  }

  /** A sound entry that bounds every walk is the breadth-first distance. */
  lemma ExactEntry(T: Table, cols: nat, rows: nat, a: Coord, b: Coord, e: Ext)
    requires WellFormed(T, cols, rows) && InBounds(cols, rows, a)
    requires e.Fin? ==> b in Reach.Reach(T, a, e.n)
    requires forall w :: WalkTo(T, w, a, b) ==> e.Le(Fin(|w| - 1))
    ensures e == ToExt(ShortestDist(T, cols, rows, a, {b}))
  {
    ShortestDistIsShortestWalk(T, cols, rows, a, {b});
    if e.Fin? {
      ReachIsWalks(T, a, e.n, b);
      var w :| WalkTo(T, w, a, b) && |w| <= e.n + 1;
    }
  }

  /**
   * `floydWarshall` on a table without moves to the same cell: an entry for
   * every pair of cells, each the least number of table moves between them,
   * infinity when there is none.
   */
  lemma FloydWarshallExact(t: Table, cols: nat, rows: nat)
    requires TotalOn(t, cols, rows) && NoSelfLoops(t, cols, rows)
    ensures var d := FloydWarshall(t, cols, rows);
      forall a, b :: InBounds(cols, rows, a) && InBounds(cols, rows, b) ==>
        (a, b) in d && d[(a, b)] == ToExt(ShortestDist(OnBoardPart(t, cols, rows), cols, rows, a, {b}))
  {
    var T := OnBoardPart(t, cols, rows);
    var cs := CellList(cols, rows);
    OnBoardPartMirrors(t, cols, rows);
    CellListInBounds(cols, rows);
    EdgesBase(t, T, cols, rows);
    ForKFacts(T, EdgesFrom(t, cols, rows, FwInit(cs), 0), cs, 0);
    var d := FloydWarshall(t, cols, rows);
    assert cs[..|cs|] == cs;
    forall a, b | InBounds(cols, rows, a) && InBounds(cols, rows, b)
      ensures (a, b) in d && d[(a, b)] == ToExt(ShortestDist(T, cols, rows, a, {b}))
    {
      forall w | WalkTo(T, w, a, b) ensures d[(a, b)].Le(Fin(|w| - 1)) {
        WalkOnBoard(T, cols, rows, w, a, b);
        assert InteriorIn(w, cs[..|cs|]);
      }
      ExactEntry(T, cols, rows, a, b, d[(a, b)]);
    }
  }

  /** The all-pairs table and the single-source table agree on every pair of cells. */
  lemma FloydWarshallMatchesBellmanFord(t: Table, cols: nat, rows: nat, s: Coord, v: Coord)
    requires TotalOn(t, cols, rows) && NoSelfLoops(t, cols, rows) && InBounds(cols, rows, s) && InBounds(cols, rows, v)
    ensures var d := FloydWarshall(t, cols, rows);
      (s, v) in d && v in BellmanFord(t, cols, rows, s) && d[(s, v)] == BellmanFord(t, cols, rows, s)[v]
  {
    FloydWarshallExact(t, cols, rows);
    BellmanFordExact(t, cols, rows, s);
  }

  // ---- on the stored pawn-blind table ---------------------------------------------

  /** A stored pawn-blind table that matches recomputation meets both loops' demands. */
  lemma ConsistentTableFits(t: Table, b: Board)
    requires Consistent(t, b, true)
    ensures TotalOn(t, b.cols, b.rows) && NoSelfLoops(t, b.cols, b.rows)
  {
    forall u, x | InBounds(b.cols, b.rows, u) && u in t && 0 <= x < |t[u]|
      ensures InBounds(b.cols, b.rows, t[u][x].to) && t[u][x].to != u
    {
      BlindMoveAt(t, b, u, x);
    }
  }

  /** A stored pawn-blind move from an on-board cell ends on another on-board cell. */
  lemma BlindMoveAt(t: Table, b: Board, u: Coord, x: nat)
    requires Consistent(t, b, true) && InBounds(b.cols, b.rows, u) && u in t && x < |t[u]|
    ensures InBounds(b.cols, b.rows, t[u][x].to) && t[u][x].to != u
  {
    var T := FullTable(b, true);
    FullTableWellFormed(b);
    assert u in Cells(b.cols, b.rows);
    assert t[u] == T[u];
    assert Linked(T, u, t[u][x].to);
    BlindLinks(b, u, t[u][x].to);
    forall d ensures Step(u, d) != u {
      StepDistances(u, d, d);
    }
  }

  /**
   * On `storedValidPawnMovesIgnoringPawns` kept consistent with the board,
   * both helpers give the breadth-first distance between any two cells.
   */
  lemma StoredDistances(t: Table, b: Board, s: Coord, v: Coord)
    requires Consistent(t, b, true) && InBoard(b, s) && InBoard(b, v)
    ensures TotalOn(t, b.cols, b.rows) && NoSelfLoops(t, b.cols, b.rows)
    ensures var bf := BellmanFord(t, b.cols, b.rows, s);
      v in bf && bf[v] == ToExt(BoardDist(b, s, {v}))
    ensures var fw := FloydWarshall(t, b.cols, b.rows);
      (s, v) in fw && fw[(s, v)] == ToExt(BoardDist(b, s, {v}))
  {
    ConsistentTableFits(t, b);
    BellmanFordExact(t, b.cols, b.rows, s);
    FloydWarshallExact(t, b.cols, b.rows);
    FullTableWellFormed(b);
    ShortestDistAgree(FullTable(b, true), OnBoardPart(t, b.cols, b.rows), b.cols, b.rows, s, {v});
  }
}

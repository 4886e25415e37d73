/**
 * The greedy strategy (src/algorithm/GreedyStrategy.py): `greedyMove`, the
 * first step of a shortest path; `greedyFencePlacing`, the first stored
 * placing of greatest immediate impact.
 */
module Greedy {
  import opened Grid
  import opened Fence
  import opened Board
  import opened Moves
  import opened Reach
  import opened Caches
  import opened Players
  import opened GameState
  import opened Veto
  import opened Scoring
  import opened DivConq
  import opened MergeSort
  import opened Seqs
  import opened Wrappers
  import opened Infinity

  // ---- greedyMove --------------------------------------------------------------------

  /** The first move listed at `s`, from index `k` on, whose destination lies `d` moves from a goal. */
  function FirstStepFrom(t: Table, cols: nat, rows: nat, s: Coord, goals: set<Coord>, d: nat, k: nat): (r: Option<PawnMove>)
    requires s in t
    ensures r.Some? ==> exists j :: && k <= j < |t[s]| && r.value == t[s][j] && ShortestDist(t, cols, rows, t[s][j].to, goals) == Some(d)
                                    && forall j' :: k <= j' < j ==> ShortestDist(t, cols, rows, t[s][j'].to, goals) != Some(d)
    ensures r.None? <==> forall j :: k <= j < |t[s]| ==> ShortestDist(t, cols, rows, t[s][j].to, goals) != Some(d)
    decreases |t[s]| - k
  {
    if k >= |t[s]| then None
    else if ShortestDist(t, cols, rows, t[s][k].to, goals) == Some(d) then Some(t[s][k])
    else FirstStepFrom(t, cols, rows, s, goals, d, k + 1)
  }

  /** `m` is the first of `moves` into a cell `d` moves from a goal on `t`. */
  predicate FirstCloser(t: Table, cols: nat, rows: nat, moves: seq<PawnMove>, goals: set<Coord>, d: nat, m: PawnMove) {
    exists j :: && 0 <= j < |moves| && m == moves[j] && ShortestDist(t, cols, rows, moves[j].to, goals) == Some(d)
                && forall j' :: 0 <= j' < j ==> ShortestDist(t, cols, rows, moves[j'].to, goals) != Some(d)
  }

  /**
   * `firstMove` of the path a breadth-first search returns: the first listed
   * move into a cell one move closer to a goal; None without a path, or
   * when the start is a goal already and the path has no move.
   */
  function FirstMove(t: Table, cols: nat, rows: nat, s: Coord, goals: set<Coord>): Option<PawnMove> {
    var d := ShortestDist(t, cols, rows, s, goals);
    if d.None? || d.value == 0 || s !in t then None else FirstStepFrom(t, cols, rows, s, goals, d.value - 1, 0)
  }

  /** `greedyMove`: the first move of a real-mode path, else of a pawn-blind path, else None. */
  function GreedyMove(st: State, i: nat): Option<PawnMove>
    requires i < |st.players| && PawnCoord(st.players, i).Some?
  {
    var s, goals := PawnCoord(st.players, i).value, Goals(st.players[i]);
    if ShortestDist(st.tables.pawnMoves, st.cols, st.rows, s, goals).Some? then FirstMove(st.tables.pawnMoves, st.cols, st.rows, s, goals)
    else FirstMove(st.tables.blindMoves, st.cols, st.rows, s, goals)
  }

  /** The distance is zero exactly on a goal. */
  lemma DistZero(t: Table, cols: nat, rows: nat, s: Coord, goals: set<Coord>)
    ensures ShortestDist(t, cols, rows, s, goals) == Some(0) <==> s in goals
  {
    assert Reach.Reach(t, s, 0) == {s};
    if s in goals {
      assert s in Reach.Reach(t, s, 0) * goals;
    }
  }

  /** Some listed move from a cell at distance `d + 1` enters a cell at distance `d`. */
  lemma StepCloser(t: Table, cols: nat, rows: nat, s: Coord, goals: set<Coord>, d: nat)
    requires WellFormed(t, cols, rows) && s in t
    requires ShortestDist(t, cols, rows, s, goals) == Some(d + 1)
    ensures exists j :: 0 <= j < |t[s]| && ShortestDist(t, cols, rows, t[s][j].to, goals) == Some(d)
  {
    ShortestDistIsShortestWalk(t, cols, rows, s, goals);
    var w, g :| g in goals && WalkTo(t, w, s, g) && |w| == d + 2;
    assert Linked(t, w[0], w[1]);
    var j :| 0 <= j < |t[s]| && t[s][j].to == w[1];
    var v := w[1];
    var w1 := w[1..];
    assert WalkTo(t, w1, v, g) by {
      forall m | 0 <= m < |w1| - 1 ensures Linked(t, w1[m], w1[m + 1]) {
        assert Linked(t, w[m + 1], w[m + 2]);
      }
    }
    ShortestDistIsShortestWalk(t, cols, rows, v, goals);
    var rv := ShortestDist(t, cols, rows, v, goals);
    assert rv.Some? && rv.value <= d;
    DistThroughMove(t, cols, rows, s, goals, j);
  }

  /** A cell is at most one move further from the goals than any cell it can move to. */
  lemma DistThroughMove(t: Table, cols: nat, rows: nat, s: Coord, goals: set<Coord>, j: nat)
    requires WellFormed(t, cols, rows) && s in t && j < |t[s]|
    requires ShortestDist(t, cols, rows, t[s][j].to, goals).Some?
    ensures ShortestDist(t, cols, rows, s, goals).Some?
    ensures ShortestDist(t, cols, rows, s, goals).value <= ShortestDist(t, cols, rows, t[s][j].to, goals).value + 1
  {
    var v := t[s][j].to;
    ShortestDistIsShortestWalk(t, cols, rows, v, goals);
    var w2, g2 :| g2 in goals && WalkTo(t, w2, v, g2) && |w2| == ShortestDist(t, cols, rows, v, goals).value + 1;
    var w3 := [s] + w2;
    assert WalkTo(t, w3, s, g2) by {
      assert Linked(t, s, v);
      forall m | 0 <= m < |w3| - 1 ensures Linked(t, w3[m], w3[m + 1]) {
        if m > 0 {
          assert w3[m] == w2[m - 1] && w3[m + 1] == w2[m];
        }
      }
    }
    ShortestDistIsShortestWalk(t, cols, rows, s, goals);
  }

  /**
   * On a table whose moves stay on the board, the first move is None exactly
   * without a path or on a goal; otherwise it is the first listed move into
   * a cell one move closer to a goal.
   */
  lemma FirstMoveCorrect(t: Table, cols: nat, rows: nat, s: Coord, goals: set<Coord>)
    requires WellFormed(t, cols, rows) && s in t
    ensures var d, r := ShortestDist(t, cols, rows, s, goals), FirstMove(t, cols, rows, s, goals);
      && (r.None? <==> d.None? || s in goals)
      && (r.Some? ==> d.Some? && d.value > 0 && FirstCloser(t, cols, rows, t[s], goals, d.value - 1, r.value))
  {
    DistZero(t, cols, rows, s, goals);
    var d := ShortestDist(t, cols, rows, s, goals);
    if d.Some? && d.value > 0 {
      StepCloser(t, cols, rows, s, goals, d.value - 1);
    }
  }

  /** Every real move from an on-board cell ends on the board. */
  lemma RealFullTableWellFormed(b: Board)
    ensures WellFormed(FullTable(b, false), b.cols, b.rows)
  {
    var t: map<Coord, seq<PawnMove>> := FullTable(b, false);
    forall u: Coord, i: int | u in t && 0 <= i < |t[u]| ensures InBounds(b.cols, b.rows, t[u][i].to) {
      RealMoveTargets(b, u);
      assert t[u][i] in ValidPawnMoves(b, u, false);
    }
  }

  /** A consistent stored table holds the recomputed moves at every on-board cell. */
  lemma ConsistentMatchesFull(t: Table, b: Board, ignorePawns: bool)
    requires Consistent(t, b, ignorePawns)
    ensures forall u :: InBounds(b.cols, b.rows, u) ==> (u in FullTable(b, ignorePawns) <==> u in t) && (u in FullTable(b, ignorePawns) ==> FullTable(b, ignorePawns)[u] == t[u])
  {
  }

  lemma {:induction false} FirstStepFromAgree(t1: Table, t2: Table, cols: nat, rows: nat, s: Coord, goals: set<Coord>, d: nat, k: nat)
    requires WellFormed(t1, cols, rows) && s in t1 && s in t2 && t1[s] == t2[s]
    requires forall u :: InBounds(cols, rows, u) ==> (u in t1 <==> u in t2) && (u in t1 ==> t1[u] == t2[u])
    ensures FirstStepFrom(t1, cols, rows, s, goals, d, k) == FirstStepFrom(t2, cols, rows, s, goals, d, k)
    decreases |t1[s]| - k
  {
    if k < |t1[s]| {
      ShortestDistAgree(t1, t2, cols, rows, t1[s][k].to, goals);
      FirstStepFromAgree(t1, t2, cols, rows, s, goals, d, k + 1);
    }
  }

  /** A stored table that agrees with `t1` on the board gives the same distance and first move from an on-board start. */
  lemma FirstMoveAgree(t1: Table, t2: Table, cols: nat, rows: nat, s: Coord, goals: set<Coord>)
    requires WellFormed(t1, cols, rows) && InBounds(cols, rows, s) && s in t1
    requires forall u :: InBounds(cols, rows, u) ==> (u in t1 <==> u in t2) && (u in t1 ==> t1[u] == t2[u])
    ensures ShortestDist(t1, cols, rows, s, goals) == ShortestDist(t2, cols, rows, s, goals)
    ensures FirstMove(t1, cols, rows, s, goals) == FirstMove(t2, cols, rows, s, goals)
  {
    ShortestDistAgree(t1, t2, cols, rows, s, goals);
    var d := ShortestDist(t1, cols, rows, s, goals);
    if d.Some? && d.value > 0 {
      FirstStepFromAgree(t1, t2, cols, rows, s, goals, d.value - 1, 0);
    }
  }

  /** From an on-board cell, a consistent stored table searches as the recomputed one, which keeps its moves on the board. */
  lemma StoredFirstMove(t: Table, b: Board, ignorePawns: bool, s: Coord, goals: set<Coord>)
    requires Consistent(t, b, ignorePawns) && InBoard(b, s)
    ensures var full := FullTable(b, ignorePawns);
      && s in full && full[s] == ValidPawnMoves(b, s, ignorePawns)
      && ShortestDist(t, b.cols, b.rows, s, goals) == ShortestDist(full, b.cols, b.rows, s, goals)
      && FirstMove(t, b.cols, b.rows, s, goals) == FirstMove(full, b.cols, b.rows, s, goals)
      && WellFormed(full, b.cols, b.rows)
  {
    if ignorePawns {
      FullTableWellFormed(b);
    } else {
      RealFullTableWellFormed(b);
    }
    ConsistentMatchesFull(t, b, ignorePawns);
    FirstMoveAgree(FullTable(b, ignorePawns), t, b.cols, b.rows, s, goals);
  }

  /**
   * `greedyMove` on a consistent game, in terms of the moves the rules allow:
   * None exactly when the pawn stands on a goal or no path exists in either
   * mode; otherwise the first move the rules list, real mode when a real
   * path exists and pawn-blind mode otherwise, into a cell one move closer
   * to a goal in that mode.
   */
  lemma GreedyMoveCorrect(st: State, i: nat)
    requires Inv(st) && i < |st.players| && PawnCoord(st.players, i).Some? && InBoard(BoardOf(st), PawnCoord(st.players, i).value)
    ensures var b, s, goals := BoardOf(st), PawnCoord(st.players, i).value, Goals(st.players[i]);
      var realDist := ShortestDist(FullTable(b, false), b.cols, b.rows, s, goals);
      var blindDist := ShortestDist(FullTable(b, true), b.cols, b.rows, s, goals);
      var r := GreedyMove(st, i);
      && (r.None? <==> s in goals || (realDist.None? && blindDist.None?))
      && (r.Some? ==>
            var mode := realDist.None?;
            var d := if mode then blindDist else realDist;
            var moves := ValidPawnMoves(b, s, mode);
            && d.Some? && d.value > 0
            && FirstCloser(FullTable(b, mode), b.cols, b.rows, moves, goals, d.value - 1, r.value))
  {
    var b, s, goals := BoardOf(st), PawnCoord(st.players, i).value, Goals(st.players[i]);
    StoredFirstMove(st.tables.pawnMoves, b, false, s, goals);
    StoredFirstMove(st.tables.blindMoves, b, true, s, goals);
    FirstMoveCorrect(FullTable(b, false), b.cols, b.rows, s, goals);
    FirstMoveCorrect(FullTable(b, true), b.cols, b.rows, s, goals);
    DistZero(FullTable(b, false), b.cols, b.rows, s, goals);
  }

  // ---- greedyFencePlacing --------------------------------------------------------

  /**
   * The loop body at one placing: the signed sum of the impact dict, or None
   * where the bare `except` skips the placing (the exception, and `items()`
   * on a None impact).
   */
  function GreedyScore(st: State, me: Option<string>, p: FencePlacing): (r: (Option<int>, State))
    requires AllPlaced(st)
    ensures r.1.players == st.players
  {
    var (impact, st1) := GetFencePlacingImpactOnPaths(st, p);
    if impact.Impacts? then (Some(SignedSum(impact.deltas, me)), st1) else (None, st1)
  }

  /** One scoring step: a placing in, its score (or None) and the state afterwards out. */
  type Scorer = (State, FencePlacing) -> (Option<int>, State)

  /** The scoring step for player `me`; the loop never meets a state with a pawn missing. */
  function ScorerFor(me: Option<string>): Scorer {
    (s: State, p: FencePlacing) => if AllPlaced(s) then GreedyScore(s, me, p) else (None, s)
  }

  /** `if score > best_score`: a scored placing replaces the best so far only when strictly greater. */
  function Keep(best: Option<(FencePlacing, int)>, p: FencePlacing, score: Option<int>): Option<(FencePlacing, int)> {
    if score.Some? && (best.None? || score.value > best.value.1) then Some((p, score.value)) else best
  }

  /** The loop from placing `i`, with the best placing and score so far. */
  function GreedyFrom(scorer: Scorer, st: State, ps: seq<FencePlacing>, i: nat, best: Option<(FencePlacing, int)>): (Option<FencePlacing>, State)
    decreases if i < |ps| then |ps| - i else 0
  {
    if i >= |ps| then (if best.Some? then Some(best.value.0) else None, st)
    else
      var scored := scorer(st, ps[i]);
      GreedyFrom(scorer, scored.1, ps, i + 1, Keep(best, ps[i], scored.0))
  }

  /** `greedyFencePlacing` over the stored placings. */
  function GreedyFencePlacing(st: State, me: Option<string>): (Option<FencePlacing>, State) {
    GreedyFrom(ScorerFor(me), st, st.tables.fencePlacings, 0, None)
  }

  /** Index `k` holds the first greatest score among the scored entries of `scores[..n]`. */
  predicate FirstBest(scores: seq<Option<int>>, n: nat, k: int)
    requires n <= |scores|
  {
    && 0 <= k < n && scores[k].Some?
    && (forall j :: 0 <= j < n && scores[j].Some? ==> scores[j].value <= scores[k].value)
    && (forall j :: 0 <= j < k && scores[j].Some? ==> scores[j].value < scores[k].value)
  }

  /** The best so far after `n` placings: nothing when none scored, else the first greatest. */
  predicate BestSoFar(ps: seq<FencePlacing>, scores: seq<Option<int>>, n: nat, best: Option<(FencePlacing, int)>)
    requires |scores| == |ps| && n <= |ps|
  {
    if best.None? then forall j :: 0 <= j < n ==> scores[j].None?
    else exists k :: 0 <= k < n && FirstBest(scores, n, k) && best.value == (ps[k], scores[k].value)
  }

  lemma BestStep(ps: seq<FencePlacing>, scores: seq<Option<int>>, i: nat, best: Option<(FencePlacing, int)>)
    requires |scores| == |ps| && i < |ps| && BestSoFar(ps, scores, i, best)
    ensures BestSoFar(ps, scores, i + 1, Keep(best, ps[i], scores[i]))
  {
    if best.Some? {
      var k :| 0 <= k < i && FirstBest(scores, i, k) && best.value == (ps[k], scores[k].value);
      if scores[i].Some? && scores[i].value > best.value.1 {
        assert FirstBest(scores, i + 1, i);
      } else {
        assert FirstBest(scores, i + 1, k);
      }
    } else if scores[i].Some? {
      assert FirstBest(scores, i + 1, i);
    }
  }

  /**
   * A faithful scorer makes the loop return None exactly when no placing is
   * scored, else the placing with the first greatest score; and keeps `ok`.
   */
  lemma {:induction false} GreedyFromFirstBest(scorer: Scorer, ok: State -> bool, st: State, ps: seq<FencePlacing>, scores: seq<Option<int>>, i: nat, best: Option<(FencePlacing, int)>)
    requires ok(st) && Faithful(scorer, ok, ps, scores) && i <= |ps| && BestSoFar(ps, scores, i, best)
    ensures var r := GreedyFrom(scorer, st, ps, i, best);
      && ok(r.1)
      && (r.0.None? <==> forall j :: 0 <= j < |ps| ==> scores[j].None?)
      && (r.0.Some? ==> exists k :: FirstBest(scores, |ps|, k) && r.0.value == ps[k])
    decreases |ps| - i
  {
    if i < |ps| {
      BestStep(ps, scores, i, best);
      GreedyFromFirstBest(scorer, ok, scorer(st, ps[i]).1, ps, scores, i + 1, Keep(best, ps[i], scores[i]));
    } else if best.Some? {
      var k :| 0 <= k < |ps| && FirstBest(scores, |ps|, k) && best.value == (ps[k], scores[k].value);
    }
  }

  /** The score each placing gets when scored on its own on `st0`. */
  function GreedyScores(st0: State, me: Option<string>, ps: seq<FencePlacing>): (r: seq<Option<int>>)
    requires AllPlaced(st0)
    ensures |r| == |ps| && forall k {:trigger r[k]} :: 0 <= k < |ps| ==> r[k] == GreedyScore(st0, me, ps[k]).0
  {
    seq(|ps|, k requires 0 <= k < |ps| => GreedyScore(st0, me, ps[k]).0)
  }

  /** Scoring on a state the game has not changed answers as on `st0`. */
  lemma GreedyScoreStable(st0: State, st: State, me: Option<string>, p: FencePlacing)
    requires Anchored(st0, st)
    ensures AllPlaced(st)
    ensures GreedyScore(st, me, p).0 == GreedyScore(st0, me, p).0 && Anchored(st0, GreedyScore(st, me, p).1)
  {
    ImpactStable(st0, st, p);
  }

  lemma ScorerForFaithful(st0: State, me: Option<string>, ps: seq<FencePlacing>)
    requires Inv(st0) && AllPlaced(st0) && AllOnBoard(st0)
    ensures Faithful(ScorerFor(me), AnchoredTo(st0), ps, GreedyScores(st0, me, ps))
  {
    var scores := GreedyScores(st0, me, ps);
    forall s, k | AnchoredTo(st0)(s) && 0 <= k < |ps|
      ensures AnchoredTo(st0)(ScorerFor(me)(s, ps[k]).1) && ScorerFor(me)(s, ps[k]).0 == scores[k]
    {
      GreedyScoreStable(st0, s, me, ps[k]);
    }
  }

  /**
   * `greedyFencePlacing` on a consistent game: None exactly when no stored
   * placing gets a score, else the first stored placing whose score, taken on
   * the game itself, is greatest. The state comes back as the game left it.
   */
  lemma GreedyFencePlacingCorrect(st: State, me: Option<string>)
    requires Inv(st) && AllPlaced(st) && AllOnBoard(st)
    ensures var ps := st.tables.fencePlacings;
      var scores := GreedyScores(st, me, ps);
      var r := GreedyFencePlacing(st, me);
      && SameGame(st, r.1)
      && (r.0.None? <==> forall j :: 0 <= j < |ps| ==> scores[j].None?)
      && (r.0.Some? ==> exists k :: FirstBest(scores, |ps|, k) && r.0.value == ps[k])
  {
    var ps := st.tables.fencePlacings;
    ScorerForFaithful(st, me, ps);
    GreedyFromFirstBest(ScorerFor(me), AnchoredTo(st), st, ps, GreedyScores(st, me, ps), 0, None);
  }

  /**
   * What a greedy score means: a placing is scored exactly when every player
   * reaches a goal both without and with the fence, and its score is the one
   * the divide-and-conquer search gives it.
   */
  lemma GreedyScoreMeaning(st: State, me: Option<string>, p: FencePlacing)
    requires Inv(st) && AllPlaced(st) && AllOnBoard(st)
    ensures var sc := GreedyScore(st, me, p).0;
      var b, b1 := BoardOf(st), BoardOf(WithFence(st, p));
      && (sc.Some? <==> forall i :: 0 <= i < |st.players| ==> Dist(st, b, i).Some? && Dist(st, b1, i).Some?)
      && (sc.Some? ==> Probe(st, me, p).0 == Pick(Some(p), Val(sc.value)))
  {
    ImpactExact(st, p);
  }

  /**
   * With distinct names, a greedy score is the others' change in path length
   * minus the player's own.
   */
  lemma GreedyScoreSum(st: State, me: Option<string>, p: FencePlacing)
    requires Inv(st) && AllPlaced(st) && AllOnBoard(st) && Distinct(Names(st.players))
    requires GreedyScore(st, me, p).0.Some?
    ensures var d0, d1 := Dists(st, BoardOf(st)), Dists(st, BoardOf(WithFence(st, p)));
      forall i :: 0 <= i < |st.players| ==> d0[i].Some? && d1[i].Some?
    ensures GreedyScore(st, me, p).0.value
      == ImpactSum(Names(st.players), Dists(st, BoardOf(st)), Dists(st, BoardOf(WithFence(st, p))), me, 0)
  {
    ImpactExact(st, p);
    ScoreMeaning(st, p, me);
  }
}

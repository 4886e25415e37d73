/**
 * The three incrementally maintained tables of the board
 * (`storedValidFencePlacings`, `storedValidPawnMoves`,
 * `storedValidPawnMovesIgnoringPawns`), their initialisation and the
 * fixed neighbourhoods refreshed after each mutation.
 */
module Caches {
  import opened Grid
  import opened Fence
  import opened Board
  import opened Moves
  import opened Reach
  import opened FenceRules
  import opened Wrappers

  datatype Tables = Tables(fencePlacings: seq<FencePlacing>, pawnMoves: Table, blindMoves: Table)

  /**
   * `updateStoredValidPawnMoves[IgnoringPawns]At` applied to every cell of
   * `R`: the listed cells get moves recomputed on `b`, and no other entry changes.
   */
  function Refresh(t: Table, b: Board, R: set<Coord>, ignorePawns: bool): (r: Table)
    ensures r.Keys == t.Keys + R
    ensures forall c :: c in R ==> r[c] == ValidPawnMoves(b, c, ignorePawns)
    ensures forall c :: c in t && c !in R ==> r[c] == t[c]
  {
    map c | c in t.Keys + R :: if c in R then ValidPawnMoves(b, c, ignorePawns) else t[c]
  }

  /** Every on-board cell outside `S` holds what a full recomputation on `b` gives. */
  ghost predicate Agrees(t: Table, b: Board, ignorePawns: bool, S: set<Coord>) {
    forall c :: InBoard(b, c) && c !in S ==> c in t && t[c] == ValidPawnMoves(b, c, ignorePawns)
  }

  ghost predicate Consistent(t: Table, b: Board, ignorePawns: bool) {
    Agrees(t, b, ignorePawns, {})
  }

  // ---- the neighbourhoods, as the source computes them ---------------------

  function PawnMoveCoords(from: Option<Coord>, to: Coord): (cs: seq<Coord>)
    ensures |cs| > 0
  {
    (if from.Some? then [from.value] else []) + [to]
  }

  /** `updateStoredValidPawnMovesAfterPawnMove`: on-board cells within Manhattan distance 2 of `from` (if any) or `to`. */
  function PawnRefreshSet(b: Board, from: Option<Coord>, to: Coord): set<Coord> {
    set c | c in Cells(b.cols, b.rows) && ManhattanMulti(c, PawnMoveCoords(from, to)) <= 2
  }

  function RingCorner(p: FencePlacing): Coord {
    if p.direction == Vertical then Coord(p.coord.col - 2, p.coord.row - 1)
    else Coord(p.coord.col - 1, p.coord.row - 2)
  }

  /** Inside the 4x4 box anchored at `RingCorner(p)` but not one of its corners. */
  predicate InRing(p: FencePlacing, c: Coord) {
    var m := RingCorner(p);
    m.col <= c.col <= m.col + 3 && m.row <= c.row <= m.row + 3
      && (m.col < c.col < m.col + 3 || m.row < c.row < m.row + 3)
  }

  /** `updateStoredValidPawnMovesAfterFencePlacing`: the 4x4 box minus its corners, off-board cells included. */
  function RingSet(p: FencePlacing): set<Coord> {
    var m := RingCorner(p);
    set col, row | m.col <= col <= m.col + 3 && m.row <= row <= m.row + 3
      && (m.col < col < m.col + 3 || m.row < row < m.row + 3) :: Coord(col, row)
  }

  /** `updateStoredValidPawnMovesIgnoringPawnsAfterFencePlacing`: a 2x2 block. */
  function BlindBlockSet(p: FencePlacing): set<Coord> {
    var m := if p.direction == Vertical then Coord(p.coord.col - 1, p.coord.row) else Coord(p.coord.col, p.coord.row - 1);
    set col, row | m.col <= col <= m.col + 1 && m.row <= row <= m.row + 1 :: Coord(col, row)
  }

  lemma RingMembers(p: FencePlacing, c: Coord)
    ensures c in RingSet(p) <==> InRing(p, c)
  {
    if InRing(p, c) {
      assert c == Coord(c.col, c.row);
    }
  }

  /** The blind 2x2 block is exactly the set of cells whose own sides the fence touches. */
  lemma BlindBlockIsBlock(p: FencePlacing)
    ensures BlindBlockSet(p) == Block(p)
  {
    var c := p.coord;
    forall y | y in Block(p) ensures y in BlindBlockSet(p) {
      assert y == Coord(y.col, y.row);
    }
  }

  /** The ring contains every cell at distance at most 1 from the fence's block. */
  lemma RingCoversBlockNeighbours(p: FencePlacing, c: Coord, y: Coord)
    requires y in Block(p) && Manhattan(c, y) <= 1
    ensures c in RingSet(p)
  {
    RingMembers(p, c);
  }

  /** The fence lists differ only in what they say about the cells of `p`'s block. */
  ghost predicate DifferOnlyAt(fs1: seq<Fence>, fs2: seq<Fence>, p: FencePlacing) {
    forall y, d :: y !in Block(p) ==> (FenceOn(fs1, y, d) <==> FenceOn(fs2, y, d))
  }

  /** Appending (placing) or popping one fence changes the fence queries only on its block. */
  lemma AppendDiffersOnlyAt(fs: seq<Fence>, f: Fence)
    ensures DifferOnlyAt(fs, fs + [f], f.Placing())
    ensures DifferOnlyAt(fs + [f], fs, f.Placing())
  {
    forall y, d | y !in Block(f.Placing()) ensures FenceOn(fs, y, d) <==> FenceOn(fs + [f], y, d) {
      FenceOnAppend(fs, f, y, d);
    }
  }

  // ---- soundness of the refreshes ---------------------------------------------

  /**
   * After a pawn moves from `from` to `to`, refreshing the real moves of the
   * on-board cells within distance 2 of those cells repairs every entry the
   * move can invalidate: only entries already out of date (`S`) and not
   * refreshed may still disagree.
   */
  lemma PawnRefreshSound(t: Table, b1: Board, b2: Board, from: Option<Coord>, to: Coord, S: set<Coord>)
    requires b1.cols == b2.cols && b1.rows == b2.rows && b1.fences == b2.fences
    requires forall y :: y != to && (from.None? || y != from.value) ==> (y in b1.occupied <==> y in b2.occupied)
    requires Agrees(t, b1, false, S)
    ensures Agrees(Refresh(t, b2, PawnRefreshSet(b2, from, to), false), b2, false, S - PawnRefreshSet(b2, from, to))
  {
    var R := PawnRefreshSet(b2, from, to);
    var r := Refresh(t, b2, R, false);
    forall c | InBoard(b2, c) && c !in S - R
      ensures c in r && r[c] == ValidPawnMoves(b2, c, false)
    {
      if c !in R {
        FarFromPawnMove(b1, b2, from, to, c);
      }
    }
  }

  /** A cell the refresh leaves out is more than two steps from both ends of the move, so its real moves stay. */
  lemma FarFromPawnMove(b1: Board, b2: Board, from: Option<Coord>, to: Coord, c: Coord)
    requires b1.cols == b2.cols && b1.rows == b2.rows && b1.fences == b2.fences
    requires forall y :: y != to && (from.None? || y != from.value) ==> (y in b1.occupied <==> y in b2.occupied)
    requires InBoard(b2, c) && c !in PawnRefreshSet(b2, from, to)
    ensures ValidPawnMoves(b1, c, false) == ValidPawnMoves(b2, c, false)
  {
    var cs := PawnMoveCoords(from, to);
    assert c in Cells(b2.cols, b2.rows);
    assert ManhattanMulti(c, cs) > 2;
    assert cs[|cs| - 1] == to;
    if from.Some? { assert cs[0] == from.value; }
    PawnLocality(b1, b2, c, false);
  }

  /** Pawn-blind entries never need refreshing after a pawn move. */
  lemma PawnMoveKeepsBlind(t: Table, b1: Board, b2: Board, S: set<Coord>)
    requires b1.cols == b2.cols && b1.rows == b2.rows && b1.fences == b2.fences
    requires Agrees(t, b1, true, S)
    ensures Agrees(t, b2, true, S)
  {
    forall c | InBoard(b2, c) && c !in S ensures ValidPawnMoves(b1, c, true) == ValidPawnMoves(b2, c, true) {
      BlindIgnoresPawns(b1, b2, c);
    }
  }

  /** After a fence goes down or comes up at `p`, refreshing the real moves of the ring repairs every entry it can invalidate. */
  lemma FenceRingSound(t: Table, b1: Board, b2: Board, p: FencePlacing, S: set<Coord>)
    requires b1.cols == b2.cols && b1.rows == b2.rows && b1.occupied == b2.occupied
    requires DifferOnlyAt(b1.fences, b2.fences, p)
    requires Agrees(t, b1, false, S)
    ensures Agrees(Refresh(t, b2, RingSet(p), false), b2, false, S - RingSet(p))
  {
    forall c | InBoard(b2, c) && c !in S && c !in RingSet(p)
      ensures ValidPawnMoves(b1, c, false) == ValidPawnMoves(b2, c, false)
    {
      forall y, d | Manhattan(c, y) <= 1 ensures FenceOn(b1.fences, y, d) <==> FenceOn(b2.fences, y, d) {
        if y in Block(p) {
          RingCoversBlockNeighbours(p, c, y);
        }
      }
      FenceLocality(b1, b2, c);
    }
  }

  /** After a fence goes down or comes up at `p`, refreshing the blind moves of the 2x2 block repairs every entry it can invalidate. */
  lemma FenceBlockSound(t: Table, b1: Board, b2: Board, p: FencePlacing, S: set<Coord>)
    requires b1.cols == b2.cols && b1.rows == b2.rows
    requires DifferOnlyAt(b1.fences, b2.fences, p)
    requires Agrees(t, b1, true, S)
    ensures Agrees(Refresh(t, b2, BlindBlockSet(p), true), b2, true, S - BlindBlockSet(p))
  {
    BlindBlockIsBlock(p);
    forall c | InBoard(b2, c) && c !in S && c !in BlindBlockSet(p)
      ensures ValidPawnMoves(b1, c, true) == ValidPawnMoves(b2, c, true)
    {
      BlindFenceLocality(b1, b2, c);
    }
  }

  // ---- initialisation -------------------------------------------------------

  /** The pawn-blind part of `initStoredValidActions`: a plain step in each direction not off the board. */
  function InitBlindAt(b: Board, c: Coord): seq<PawnMove> {
    (if c.col != b.FirstCol() then [PawnMove(c, Left(c), None)] else [])
      + (if c.col != b.LastCol() then [PawnMove(c, Right(c), None)] else [])
      + (if c.row != b.FirstRow() then [PawnMove(c, Top(c), None)] else [])
      + (if c.row != b.LastRow() then [PawnMove(c, Bottom(c), None)] else [])
  }

  /**
   * The real-move part of `initStoredValidActions`, as written: the jumps a
   * pawn standing on each of the four start squares would force.
   */
  function InitLeft(b: Board, c: Coord): seq<PawnMove> {
    if c.col == b.FirstCol() then []
    else if c.col == b.FirstCol() + 1 && c.row == b.MiddleRow() then
      [PawnMove(c, Top(Left(c)), Some(Left(c))), PawnMove(c, Bottom(Left(c)), Some(Left(c)))]
    else if c.col == b.MiddleCol() + 1 && (c.row == b.FirstRow() || c.row == b.LastRow()) then
      [PawnMove(c, Left(Left(c)), Some(Left(c)))]
    else [PawnMove(c, Left(c), None)]
  }

  function InitRight(b: Board, c: Coord): seq<PawnMove> {
    if c.col == b.LastCol() then []
    else if c.col == b.LastCol() - 1 && c.row == b.MiddleRow() then
      [PawnMove(c, Top(Right(c)), Some(Right(c))), PawnMove(c, Bottom(Right(c)), Some(Right(c)))]
    else if c.col == b.MiddleCol() - 1 && (c.row == b.FirstRow() || c.row == b.LastRow()) then
      [PawnMove(c, Right(Right(c)), Some(Right(c)))]
    else [PawnMove(c, Right(c), None)]
  }

  function InitTop(b: Board, c: Coord): seq<PawnMove> {
    if c.row == b.FirstRow() then []
    else if c.col == b.MiddleCol() && c.row == b.FirstRow() + 1 then
      [PawnMove(c, Left(Top(c)), Some(Top(c))), PawnMove(c, Right(Top(c)), Some(Top(c)))]
    else if (c.col == b.FirstCol() || c.col == b.LastCol()) && c.row == b.MiddleRow() + 1 then
      [PawnMove(c, Top(Top(c)), Some(Top(c)))]
    else [PawnMove(c, Top(c), None)]
  }

  function InitBottom(b: Board, c: Coord): seq<PawnMove> {
    if c.row == b.LastRow() then []
    else if c.col == b.MiddleCol() && c.row == b.LastRow() - 1 then
      [PawnMove(c, Left(Bottom(c)), Some(Bottom(c))), PawnMove(c, Right(Bottom(c)), Some(Bottom(c)))]
    else if (c.col == b.FirstCol() || c.col == b.LastCol()) && c.row == b.MiddleRow() - 1 then
      [PawnMove(c, Bottom(Bottom(c)), Some(Bottom(c)))]
    else [PawnMove(c, Bottom(c), None)]
  }

  function InitRealAt(b: Board, c: Coord): seq<PawnMove> {
    InitLeft(b, c) + InitRight(b, c) + InitTop(b, c) + InitBottom(b, c)
  }

  /** `initStoredValidActions` as written. */
  function InitTables(b: Board): Tables {
    Tables(InitialPlacings(b),
      map c | c in Cells(b.cols, b.rows) :: InitRealAt(b, c),
      map c | c in Cells(b.cols, b.rows) :: InitBlindAt(b, c))
  }

  /** `initStoredValidActions` with the real moves of the empty board: plain steps, like the blind ones. */
  function InitTablesFixed(b: Board): Tables {
    Tables(InitialPlacings(b),
      map c | c in Cells(b.cols, b.rows) :: InitBlindAt(b, c),
      map c | c in Cells(b.cols, b.rows) :: InitBlindAt(b, c))
  }

  /** The four start squares occupied. */
  function FourStarts(b: Board): set<Coord> {
    {StartPosition(b, 0), StartPosition(b, 1), StartPosition(b, 2), StartPosition(b, 3)}
  }

  /** With no fences, the plain steps are the pawn-blind moves. */
  lemma InitBlindIsFenceFree(b: Board, c: Coord)
    requires b.fences == [] && InBoard(b, c)
    ensures InitBlindAt(b, c) == ValidPawnMoves(b, c, true)
  {
  }

  /** With no fences and no pawn next to `c`, the plain steps are also the real moves. */
  lemma InitBlindIsRealWhenFree(b: Board, c: Coord)
    requires b.fences == [] && InBoard(b, c)
    requires forall d :: !HasPawn(b, Step(c, d))
    ensures InitBlindAt(b, c) == ValidPawnMoves(b, c, false)
  {
    FreeNeighboursRealIsBlind(b, c);
  }

  lemma InitLeftFourPawns(b: Board, c: Coord)
    requires b.fences == [] && b.cols >= 3 && b.rows >= 3 && b.occupied == FourStarts(b) && InBoard(b, c)
    ensures InitLeft(b, c) == DirMoves(b, c, West, false)
  {
  }

  lemma InitRightFourPawns(b: Board, c: Coord)
    requires b.fences == [] && b.cols >= 3 && b.rows >= 3 && b.occupied == FourStarts(b) && InBoard(b, c)
    ensures InitRight(b, c) == DirMoves(b, c, East, false)
  {
  }

  lemma InitTopFourPawns(b: Board, c: Coord)
    requires b.fences == [] && b.cols >= 3 && b.rows >= 3 && b.occupied == FourStarts(b) && InBoard(b, c)
    ensures InitTop(b, c) == DirMoves(b, c, North, false)
  {
  }

  lemma InitBottomFourPawns(b: Board, c: Coord)
    requires b.fences == [] && b.cols >= 3 && b.rows >= 3 && b.occupied == FourStarts(b) && InBoard(b, c)
    ensures InitBottom(b, c) == DirMoves(b, c, South, false)
  {
  }

  lemma InitRealAtFourPawns(b: Board, c: Coord)
    requires b.fences == [] && b.cols >= 3 && b.rows >= 3 && b.occupied == FourStarts(b) && InBoard(b, c)
    ensures InitRealAt(b, c) == ValidPawnMoves(b, c, false)
  {
    InitLeftFourPawns(b, c);
    InitRightFourPawns(b, c);
    InitTopFourPawns(b, c);
    InitBottomFourPawns(b, c);
  }

  /**
   * The hardcoded real moves are right for a fence-free board with a pawn on
   * each of the four start squares (boards of at least 3x3).
   */
  lemma InitRealFourPawns(b: Board)
    requires b.fences == [] && b.cols >= 3 && b.rows >= 3 && b.occupied == FourStarts(b)
    ensures Consistent(InitTables(b).pawnMoves, b, false)
    ensures Consistent(InitTables(b).blindMoves, b, true)
  {
    var t := InitTables(b);
    forall c | InBoard(b, c) ensures c in t.pawnMoves && t.pawnMoves[c] == ValidPawnMoves(b, c, false) {
      assert c in Cells(b.cols, b.rows);
      InitRealAtFourPawns(b, c);
    }
    forall c | InBoard(b, c) ensures c in t.blindMoves && t.blindMoves[c] == ValidPawnMoves(b, c, true) {
      assert c in Cells(b.cols, b.rows);
      InitBlindIsFenceFree(b, c);
    }
  }

  /** The corrected tables are right for a fence-free board with no pawns. */
  lemma InitFixedConsistent(b: Board)
    requires b.fences == [] && b.occupied == {}
    ensures Consistent(InitTablesFixed(b).pawnMoves, b, false)
    ensures Consistent(InitTablesFixed(b).blindMoves, b, true)
    ensures InitTablesFixed(b).fencePlacings == ValidAmong(b, AllSlots(b), {})
  {
    var t := InitTablesFixed(b);
    forall c | InBoard(b, c) ensures c in t.pawnMoves && t.pawnMoves[c] == ValidPawnMoves(b, c, false) {
      assert c in Cells(b.cols, b.rows);
      InitBlindIsRealWhenFree(b, c);
    }
    forall c | InBoard(b, c) ensures c in t.blindMoves && t.blindMoves[c] == ValidPawnMoves(b, c, true) {
      assert c in Cells(b.cols, b.rows);
      InitBlindIsFenceFree(b, c);
    }
    InitialPlacingsAreLocallyValid(b);
  }
}

/** Pawn-move generation (`Board.validPawnMoves`, `Board.isValidPawnMove`). */
module Moves {
  import opened Grid
  import opened Fence
  import opened Board
  import opened Wrappers

  /** The four directions, in the order the source tries them. */
  datatype Dir = West | East | North | South

  function Step(c: Coord, d: Dir): Coord {
    match d
    case West => Left(c)
    case East => Right(c)
    case North => Top(c)
    case South => Bottom(c)
  }

  /** The two sideways directions of a diagonal jump, in the order the source tries them. */
  function Sideways(d: Dir): (Dir, Dir) {
    if d == West || d == East then (North, South) else (West, East)
  }

  predicate AtEdge(b: Board, c: Coord, d: Dir) {
    match d
    case West => IsAtLeftEdge(b, c)
    case East => IsAtRightEdge(b, c)
    case North => IsAtTopEdge(b, c)
    case South => IsAtBottomEdge(b, c)
  }

  predicate FenceOn(fences: seq<Fence>, c: Coord, d: Dir) {
    match d
    case West => HasFenceAtLeft(fences, c)
    case East => HasFenceAtRight(fences, c)
    case North => HasFenceAtTop(fences, c)
    case South => HasFenceAtBottom(fences, c)
  }

  /** The guard `not isAt<d>Edge(c) and not hasFenceAt<d>(c)`. */
  predicate CanLeave(b: Board, c: Coord, d: Dir) {
    !AtEdge(b, c, d) && !FenceOn(b.fences, c, d)
  }

  /** `PawnMove(from, to, over)`: `over` is the jumped cell, if any. */
  datatype PawnMove = PawnMove(from: Coord, to: Coord, over: Option<Coord>)

  function SidewaysJump(b: Board, c: Coord, n: Coord, s: Dir): seq<PawnMove> {
    if CanLeave(b, n, s) && !HasPawn(b, Step(n, s)) then [PawnMove(c, Step(n, s), Some(n))] else []
  }

  /** The moves `validPawnMoves` contributes for one direction. */
  function DirMoves(b: Board, c: Coord, d: Dir, ignorePawns: bool): seq<PawnMove> {
    if !CanLeave(b, c, d) then []
    else
      var n := Step(c, d);
      if ignorePawns || !HasPawn(b, n) then [PawnMove(c, n, None)]
      else if CanLeave(b, n, d) && !HasPawn(b, Step(n, d)) then [PawnMove(c, Step(n, d), Some(n))]
      else SidewaysJump(b, c, n, Sideways(d).0) + SidewaysJump(b, c, n, Sideways(d).1)
  }

  /** `validPawnMoves(coord, ignorePawns)`: left, right, top, bottom. */
  function ValidPawnMoves(b: Board, c: Coord, ignorePawns: bool): seq<PawnMove> {
    DirMoves(b, c, West, ignorePawns) + DirMoves(b, c, East, ignorePawns)
      + DirMoves(b, c, North, ignorePawns) + DirMoves(b, c, South, ignorePawns)
  }

  /** `isValidPawnMove` against a given move list: some move ends on `to`. */
  predicate IsValidPawnMove(moves: seq<PawnMove>, to: Coord) {
    exists i :: 0 <= i < |moves| && moves[i].to == to
  }

  function Destinations(moves: seq<PawnMove>): set<Coord> {
    set m | m in moves :: m.to
  }

  // ---- the rule stated geometrically --------------------------------------

  /** The cell edge crossed when stepping from `c` towards `d`. */
  function Crossed(c: Coord, d: Dir): Edge {
    match d
    case West => LeftEdge(c)
    case East => LeftEdge(Right(c))
    case North => TopEdge(c)
    case South => TopEdge(Bottom(c))
  }

  /** A step towards `d` stays on the board and crosses no fence. */
  predicate Open(b: Board, c: Coord, d: Dir) {
    InBoard(b, Step(c, d)) && !Blocked(b.fences, Crossed(c, d))
  }

  predicate Perpendicular(d: Dir, s: Dir) {
    s == Sideways(d).0 || s == Sideways(d).1
  }

  /** A plain step onto a free neighbour. */
  predicate StepRule(b: Board, c: Coord, d: Dir, m: PawnMove) {
    Open(b, c, d) && !HasPawn(b, Step(c, d)) && m == PawnMove(c, Step(c, d), None)
  }

  /** A straight jump over an occupied neighbour onto the free cell behind it. */
  predicate JumpRule(b: Board, c: Coord, d: Dir, m: PawnMove) {
    var n := Step(c, d);
    Open(b, c, d) && HasPawn(b, n) && Open(b, n, d) && !HasPawn(b, Step(n, d))
      && m == PawnMove(c, Step(n, d), Some(n))
  }

  /** A diagonal jump: the straight jump is impossible, so the pawn turns sideways at the occupied neighbour. */
  predicate DiagonalRule(b: Board, c: Coord, d: Dir, s: Dir, m: PawnMove) {
    var n := Step(c, d);
    Perpendicular(d, s) && Open(b, c, d) && HasPawn(b, n)
      && !(Open(b, n, d) && !HasPawn(b, Step(n, d)))
      && Open(b, n, s) && !HasPawn(b, Step(n, s))
      && m == PawnMove(c, Step(n, s), Some(n))
  }

  /** A move the rule allows from `c`. */
  ghost predicate Legal(b: Board, c: Coord, m: PawnMove) {
    (exists d :: StepRule(b, c, d, m)) || (exists d :: JumpRule(b, c, d, m)) || (exists d, s :: DiagonalRule(b, c, d, s, m))
  }

  /** On the board, the source's edge-and-fence guard is exactly "the step is open". */
  lemma CanLeaveIsOpen(b: Board, c: Coord, d: Dir)
    requires InBoard(b, c)
    ensures CanLeave(b, c, d) <==> Open(b, c, d)
  {
    FenceQueriesAreEdges(b.fences, c);
  }

  /** One direction of the real rule: a plain step, a straight jump or a sideways jump, and nothing else. */
  lemma DirMovesExact(b: Board, c: Coord, d: Dir, m: PawnMove)
    requires InBoard(b, c)
    ensures m in DirMoves(b, c, d, false) <==>
      StepRule(b, c, d, m) || JumpRule(b, c, d, m) || DiagonalRule(b, c, d, Sideways(d).0, m) || DiagonalRule(b, c, d, Sideways(d).1, m)
  {
    CanLeaveIsOpen(b, c, d);
    var n := Step(c, d);
    if Open(b, c, d) {
      CanLeaveIsOpen(b, n, d);
      if HasPawn(b, n) && !(Open(b, n, d) && !HasPawn(b, Step(n, d))) {
        var (s0, s1) := Sideways(d);
        SidewaysJumpExact(b, c, d, s0, m);
        SidewaysJumpExact(b, c, d, s1, m);
        assert DirMoves(b, c, d, false) == SidewaysJump(b, c, n, s0) + SidewaysJump(b, c, n, s1);
      }
    }
  }

  /** Where the straight jump is impossible, the sideways jump towards `s` is the diagonal rule. */
  lemma SidewaysJumpExact(b: Board, c: Coord, d: Dir, s: Dir, m: PawnMove)
    requires InBoard(b, c) && Open(b, c, d) && Perpendicular(d, s)
    requires HasPawn(b, Step(c, d)) && !(Open(b, Step(c, d), d) && !HasPawn(b, Step(Step(c, d), d)))
    ensures m in SidewaysJump(b, c, Step(c, d), s) <==> DiagonalRule(b, c, d, s, m)
  {
    CanLeaveIsOpen(b, c, d);
    CanLeaveIsOpen(b, Step(c, d), s);
  }

  lemma DirMovesBlindExact(b: Board, c: Coord, d: Dir, m: PawnMove)
    requires InBoard(b, c)
    ensures m in DirMoves(b, c, d, true) <==> Open(b, c, d) && m == PawnMove(c, Step(c, d), None)
  {
    CanLeaveIsOpen(b, c, d);
  }

  lemma InValidPawnMoves(b: Board, c: Coord, ignorePawns: bool, m: PawnMove)
    ensures m in ValidPawnMoves(b, c, ignorePawns) <==> exists d :: m in DirMoves(b, c, d, ignorePawns)
  {
    if m in DirMoves(b, c, West, ignorePawns) {}
  }

  /**
   * Pawn-blind moves are exactly the plain steps to on-board orthogonal
   * neighbours across an uncovered edge.
   */
  lemma BlindMovesExact(b: Board, c: Coord)
    requires InBoard(b, c)
    ensures forall m :: m in ValidPawnMoves(b, c, true) <==>
      exists d :: Open(b, c, d) && m == PawnMove(c, Step(c, d), None)
  {
    forall m ensures m in ValidPawnMoves(b, c, true) <==> exists d :: Open(b, c, d) && m == PawnMove(c, Step(c, d), None) {
      InValidPawnMoves(b, c, true, m);
      forall d ensures m in DirMoves(b, c, d, true) <==> Open(b, c, d) && m == PawnMove(c, Step(c, d), None) {
        DirMovesBlindExact(b, c, d, m);
      }
    }
  }

  /** Real moves are exactly the steps, straight jumps and diagonal jumps of the rule. */
  lemma RealMovesExact(b: Board, c: Coord)
    requires InBoard(b, c)
    ensures forall m :: m in ValidPawnMoves(b, c, false) <==>
      (exists d :: StepRule(b, c, d, m)) || (exists d :: JumpRule(b, c, d, m)) || (exists d, s :: DiagonalRule(b, c, d, s, m))
  {
    forall m ensures m in ValidPawnMoves(b, c, false) <==>
      (exists d :: StepRule(b, c, d, m)) || (exists d :: JumpRule(b, c, d, m)) || (exists d, s :: DiagonalRule(b, c, d, s, m))
    {
      InValidPawnMoves(b, c, false, m);
      forall d ensures m in DirMoves(b, c, d, false) <==>
        StepRule(b, c, d, m) || JumpRule(b, c, d, m) || DiagonalRule(b, c, d, Sideways(d).0, m) || DiagonalRule(b, c, d, Sideways(d).1, m)
      {
        DirMovesExact(b, c, d, m);
      }
      if exists d, s :: DiagonalRule(b, c, d, s, m) {
        var d, s :| DiagonalRule(b, c, d, s, m);
        assert m in DirMoves(b, c, d, false);
      }
    }
  }

  /**
   * Every real destination is on the board, differs from the start, holds
   * no pawn, and lies one step away (a plain step) or two (a jump over `over`).
   */
  lemma RealMoveTargets(b: Board, c: Coord)
    requires InBoard(b, c)
    ensures forall m :: m in ValidPawnMoves(b, c, false) ==>
      && m.from == c && InBoard(b, m.to) && m.to != c && !HasPawn(b, m.to)
      && (m.over == None <==> Manhattan(c, m.to) == 1)
      && (m.over.Some? ==> Manhattan(c, m.to) == 2 && Manhattan(c, m.over.value) == 1 && HasPawn(b, m.over.value))
  {
    forall m | m in ValidPawnMoves(b, c, false)
      ensures && m.from == c && InBoard(b, m.to) && m.to != c && !HasPawn(b, m.to)
        && (m.over == None <==> Manhattan(c, m.to) == 1)
        && (m.over.Some? ==> Manhattan(c, m.to) == 2 && Manhattan(c, m.over.value) == 1 && HasPawn(b, m.over.value))
    {
      InValidPawnMoves(b, c, false, m);
      var d :| m in DirMoves(b, c, d, false);
      DirMovesExact(b, c, d, m);
      StepDistances(c, d, Sideways(d).0);
      StepDistances(c, d, Sideways(d).1);
    }
  }

  /** A fenced or off-board direction contributes nothing, in either mode. */
  lemma ClosedDirectionContributesNothing(b: Board, c: Coord, d: Dir, ignorePawns: bool)
    requires InBoard(b, c) && !Open(b, c, d)
    ensures DirMoves(b, c, d, ignorePawns) == []
  {
    CanLeaveIsOpen(b, c, d);
  }

  /**
   * An occupied neighbour yields the straight jump alone when the far side is
   * open and free, and otherwise only sideways jumps: never both, at most two.
   */
  lemma OccupiedNeighbourJumps(b: Board, c: Coord, d: Dir)
    requires InBoard(b, c) && Open(b, c, d) && HasPawn(b, Step(c, d))
    ensures var n := Step(c, d);
      if Open(b, n, d) && !HasPawn(b, Step(n, d)) then DirMoves(b, c, d, false) == [PawnMove(c, Step(n, d), Some(n))]
      else |DirMoves(b, c, d, false)| <= 2 && forall m :: m in DirMoves(b, c, d, false) ==> m.over == Some(n) && Manhattan(n, m.to) == 1 && m.to != Step(n, d)
  {
    var n := Step(c, d);
    CanLeaveIsOpen(b, c, d);
    CanLeaveIsOpen(b, n, d);
  }

  /** `isValidPawnMove` on a recomputed list: `to` is a destination of the rule. */
  lemma IsValidPawnMoveMeansLegal(b: Board, c: Coord, to: Coord)
    requires InBoard(b, c)
    ensures IsValidPawnMove(ValidPawnMoves(b, c, false), to) <==>
      exists m: PawnMove :: m.to == to && Legal(b, c, m)
  {
    RealMovesExact(b, c);
    var ms := ValidPawnMoves(b, c, false);
    if IsValidPawnMove(ms, to) {
      var i :| 0 <= i < |ms| && ms[i].to == to;
      assert ms[i] in ms;
    }
    if exists m: PawnMove :: m.to == to && Legal(b, c, m) {
      var m: PawnMove :| m.to == to && Legal(b, c, m);
      assert m in ms;
      var i :| 0 <= i < |ms| && ms[i] == m;
    }
  }

  // ---- locality: what a cell's moves depend on ------------------------------

  lemma StepDistances(c: Coord, d: Dir, s: Dir)
    ensures Manhattan(c, Step(c, d)) == 1
    ensures Manhattan(c, Step(Step(c, d), d)) == 2
    ensures Perpendicular(d, s) ==> Manhattan(c, Step(Step(c, d), s)) == 2
  {
  }

  /** Moves from `c` read pawn occupancy only at distance 1 and 2 from `c`. */
  lemma PawnLocality(b1: Board, b2: Board, c: Coord, ignorePawns: bool)
    requires b1.cols == b2.cols && b1.rows == b2.rows && b1.fences == b2.fences
    requires forall y :: 1 <= Manhattan(c, y) <= 2 ==> (y in b1.occupied <==> y in b2.occupied)
    ensures ValidPawnMoves(b1, c, ignorePawns) == ValidPawnMoves(b2, c, ignorePawns)
  {
    forall d ensures DirMoves(b1, c, d, ignorePawns) == DirMoves(b2, c, d, ignorePawns) {
      PawnLocalityDir(b1, b2, c, d, ignorePawns);
    }
  }

  lemma PawnLocalityDir(b1: Board, b2: Board, c: Coord, d: Dir, ignorePawns: bool)
    requires b1.cols == b2.cols && b1.rows == b2.rows && b1.fences == b2.fences
    requires forall y :: 1 <= Manhattan(c, y) <= 2 ==> (y in b1.occupied <==> y in b2.occupied)
    ensures DirMoves(b1, c, d, ignorePawns) == DirMoves(b2, c, d, ignorePawns)
  {
    var n := Step(c, d);
    StepDistances(c, d, Sideways(d).0);
    StepDistances(c, d, Sideways(d).1);
    assert HasPawn(b1, n) == HasPawn(b2, n);
    assert HasPawn(b1, Step(n, d)) == HasPawn(b2, Step(n, d));
    assert SidewaysJump(b1, c, n, Sideways(d).0) == SidewaysJump(b2, c, n, Sideways(d).0);
    assert SidewaysJump(b1, c, n, Sideways(d).1) == SidewaysJump(b2, c, n, Sideways(d).1);
  }

  /** Real moves from `c` read fences only on the sides of `c` and of its four neighbours. */
  lemma FenceLocality(b1: Board, b2: Board, c: Coord)
    requires b1.cols == b2.cols && b1.rows == b2.rows && b1.occupied == b2.occupied
    requires forall y, d :: Manhattan(c, y) <= 1 ==> (FenceOn(b1.fences, y, d) <==> FenceOn(b2.fences, y, d))
    ensures ValidPawnMoves(b1, c, false) == ValidPawnMoves(b2, c, false)
  {
    forall d ensures DirMoves(b1, c, d, false) == DirMoves(b2, c, d, false) {
      StepDistances(c, d, d);
      assert FenceOn(b1.fences, c, d) <==> FenceOn(b2.fences, c, d);
      var n := Step(c, d);
      forall s ensures FenceOn(b1.fences, n, s) <==> FenceOn(b2.fences, n, s) {}
    }
  }

  /** Pawn-blind moves from `c` read fences only on the four sides of `c`. */
  lemma BlindFenceLocality(b1: Board, b2: Board, c: Coord)
    requires b1.cols == b2.cols && b1.rows == b2.rows
    requires forall d :: FenceOn(b1.fences, c, d) <==> FenceOn(b2.fences, c, d)
    ensures ValidPawnMoves(b1, c, true) == ValidPawnMoves(b2, c, true)
  {
    forall d ensures DirMoves(b1, c, d, true) == DirMoves(b2, c, d, true) {
      assert FenceOn(b1.fences, c, d) <==> FenceOn(b2.fences, c, d);
    }
  }

  /** Pawn-blind moves do not read pawns at all. */
  lemma BlindIgnoresPawns(b1: Board, b2: Board, c: Coord)
    requires b1.cols == b2.cols && b1.rows == b2.rows && b1.fences == b2.fences
    ensures ValidPawnMoves(b1, c, true) == ValidPawnMoves(b2, c, true)
  {
  }

  /** With no neighbour occupied, real moves are the pawn-blind ones. */
  lemma FreeNeighboursRealIsBlind(b: Board, c: Coord)
    requires forall d :: !HasPawn(b, Step(c, d))
    ensures ValidPawnMoves(b, c, false) == ValidPawnMoves(b, c, true)
  {
    forall d ensures DirMoves(b, c, d, false) == DirMoves(b, c, d, true) {
      assert !HasPawn(b, Step(c, d));
    }
  }

  /** Appending a fence changes the occupancy queries only inside its block. */
  lemma FenceOnAppend(fences: seq<Fence>, f: Fence, y: Coord, d: Dir)
    requires y !in Block(f.Placing())
    ensures FenceOn(fences + [f], y, d) <==> FenceOn(fences, y, d)
  {
    AppendFenceQueries(fences, f, y);
  }
}

/**
 * The board as the rules see it (src/interface/Board.py): dimensions, the
 * fences in placement order, and the set of cells holding a pawn.
 */
module Board {
  import opened Grid
  import opened Fence
  import opened Wrappers

  datatype Board = Board(cols: nat, rows: nat, fences: seq<Fence>, occupied: set<Coord>) {
    function FirstCol(): int { 0 }
    function LastCol(): int { cols - 1 }
    function FirstRow(): int { 0 }
    function LastRow(): int { rows - 1 }
    function MiddleCol(): int { Middle(cols) }
    function MiddleRow(): int { Middle(rows) }
  }

  predicate InBoard(b: Board, c: Coord) { InBounds(b.cols, b.rows, c) }

  predicate HasPawn(b: Board, c: Coord) { c in b.occupied }

  // ---- fence occupancy, as queried by the source -------------------------

  predicate HasFenceAtLeft(fences: seq<Fence>, c: Coord) {
    exists i :: 0 <= i < |fences| && fences[i].direction == Vertical && (fences[i].coord == c || fences[i].coord == Top(c))
  }

  predicate HasFenceAtRight(fences: seq<Fence>, c: Coord) { HasFenceAtLeft(fences, Right(c)) }

  predicate HasFenceAtTop(fences: seq<Fence>, c: Coord) {
    exists i :: 0 <= i < |fences| && fences[i].direction == Horizontal && (fences[i].coord == c || fences[i].coord == Left(c))
  }

  predicate HasFenceAtBottom(fences: seq<Fence>, c: Coord) { HasFenceAtTop(fences, Bottom(c)) }

  predicate IsAtLeftEdge(b: Board, c: Coord) { c.col == b.FirstCol() }
  predicate IsAtRightEdge(b: Board, c: Coord) { c.col == b.LastCol() }
  predicate IsAtTopEdge(b: Board, c: Coord) { c.row == b.FirstRow() }
  predicate IsAtBottomEdge(b: Board, c: Coord) { c.row == b.LastRow() }

  // ---- fence occupancy, stated geometrically ------------------------------

  /** The edge between two cells; `a` is the left or upper cell. */
  datatype Edge = Edge(a: Coord, b: Coord)

  function LeftEdge(c: Coord): Edge { Edge(Left(c), c) }
  function TopEdge(c: Coord): Edge { Edge(Top(c), c) }

  /**
   * The two cell edges a fence covers: a vertical fence at (c, r) covers the
   * left edges of (c, r) and (c, r + 1); a horizontal one the top edges of
   * (c, r) and (c + 1, r).
   */
  function EdgesOf(p: FencePlacing): set<Edge> {
    if p.direction == Vertical then {LeftEdge(p.coord), LeftEdge(Bottom(p.coord))}
    else {TopEdge(p.coord), TopEdge(Right(p.coord))}
  }

  predicate Blocked(fences: seq<Fence>, e: Edge) {
    exists i :: 0 <= i < |fences| && e in EdgesOf(fences[i].Placing())
  }

  /** The four occupancy queries are exactly "the edge on that side is covered"; right and bottom are the neighbour's left and top. */
  lemma FenceQueriesAreEdges(fences: seq<Fence>, c: Coord)
    ensures HasFenceAtLeft(fences, c) <==> Blocked(fences, LeftEdge(c))
    ensures HasFenceAtRight(fences, c) <==> Blocked(fences, LeftEdge(Right(c)))
    ensures HasFenceAtTop(fences, c) <==> Blocked(fences, TopEdge(c))
    ensures HasFenceAtBottom(fences, c) <==> Blocked(fences, TopEdge(Bottom(c)))
  {
    forall x ensures HasFenceAtLeft(fences, x) <==> Blocked(fences, LeftEdge(x)) {
      if Blocked(fences, LeftEdge(x)) {
        var i :| 0 <= i < |fences| && LeftEdge(x) in EdgesOf(fences[i].Placing());
        assert fences[i].direction == Vertical;
        assert fences[i].coord == x || fences[i].coord == Top(x);
      }
      if HasFenceAtLeft(fences, x) {
        var i :| 0 <= i < |fences| && fences[i].direction == Vertical && (fences[i].coord == x || fences[i].coord == Top(x));
        assert LeftEdge(x) in EdgesOf(fences[i].Placing());
      }
    }
    forall x ensures HasFenceAtTop(fences, x) <==> Blocked(fences, TopEdge(x)) {
      if Blocked(fences, TopEdge(x)) {
        var i :| 0 <= i < |fences| && TopEdge(x) in EdgesOf(fences[i].Placing());
        assert fences[i].direction == Horizontal;
        assert fences[i].coord == x || fences[i].coord == Left(x);
      }
      if HasFenceAtTop(fences, x) {
        var i :| 0 <= i < |fences| && fences[i].direction == Horizontal && (fences[i].coord == x || fences[i].coord == Left(x));
        assert TopEdge(x) in EdgesOf(fences[i].Placing());
      }
    }
  }

  /** The 2x2 block of cells whose own edges a fence touches. */
  function Block(p: FencePlacing): set<Coord> {
    var c := p.coord;
    if p.direction == Vertical then {Left(c), c, Left(Bottom(c)), Bottom(c)}
    else {Top(c), Right(Top(c)), c, Right(c)}
  }

  /** Appending a fence changes the occupancy queries only at the cells of its block. */
  lemma AppendFenceQueries(fences: seq<Fence>, f: Fence, c: Coord)
    ensures HasFenceAtLeft(fences + [f], c) <==> HasFenceAtLeft(fences, c) || (f.direction == Vertical && (f.coord == c || f.coord == Top(c)))
    ensures HasFenceAtTop(fences + [f], c) <==> HasFenceAtTop(fences, c) || (f.direction == Horizontal && (f.coord == c || f.coord == Left(c)))
    ensures c !in Block(f.Placing()) ==>
      && (HasFenceAtLeft(fences + [f], c) <==> HasFenceAtLeft(fences, c))
      && (HasFenceAtRight(fences + [f], c) <==> HasFenceAtRight(fences, c))
      && (HasFenceAtTop(fences + [f], c) <==> HasFenceAtTop(fences, c))
      && (HasFenceAtBottom(fences + [f], c) <==> HasFenceAtBottom(fences, c))
  {
    var fs := fences + [f];
    forall x ensures HasFenceAtLeft(fs, x) <==> HasFenceAtLeft(fences, x) || (f.direction == Vertical && (f.coord == x || f.coord == Top(x))) {
      if HasFenceAtLeft(fences, x) {
        var i :| 0 <= i < |fences| && fences[i].direction == Vertical && (fences[i].coord == x || fences[i].coord == Top(x));
        assert fs[i] == fences[i];
      }
      if f.direction == Vertical && (f.coord == x || f.coord == Top(x)) {
        assert fs[|fences|] == f;
      }
    }
    forall x ensures HasFenceAtTop(fs, x) <==> HasFenceAtTop(fences, x) || (f.direction == Horizontal && (f.coord == x || f.coord == Left(x))) {
      if HasFenceAtTop(fences, x) {
        var i :| 0 <= i < |fences| && fences[i].direction == Horizontal && (fences[i].coord == x || fences[i].coord == Left(x));
        assert fs[i] == fences[i];
      }
      if f.direction == Horizontal && (f.coord == x || f.coord == Left(x)) {
        assert fs[|fences|] == f;
      }
    }
  }

  // ---- start squares and goal edges ---------------------------------------

  /** `startPosition`: middle of the top, bottom, left and right side for players 0..3. */
  function StartPosition(b: Board, playerIndex: nat): Coord
    requires playerIndex < 4
  {
    match playerIndex
    case 0 => Coord(b.MiddleCol(), b.FirstRow())
    case 1 => Coord(b.MiddleCol(), b.LastRow())
    case 2 => Coord(b.FirstCol(), b.MiddleRow())
    case 3 => Coord(b.LastCol(), b.MiddleRow())
  }

  function RowCells(cols: nat, row: int): (s: seq<Coord>)
    ensures |s| == cols && forall i :: 0 <= i < cols ==> s[i] == Coord(i, row)
  {
    seq(cols, i => Coord(i, row))
  }

  /** `endPositions`: the whole last row, first row, last column, first column for players 0..3. */
  function EndPositions(b: Board, playerIndex: nat): seq<Coord>
    requires playerIndex < 4
  {
    match playerIndex
    case 0 => RowCells(b.cols, b.LastRow())
    case 1 => RowCells(b.cols, b.FirstRow())
    case 2 => Column(b.LastCol(), b.rows)
    case 3 => Column(b.FirstCol(), b.rows)
  }

  datatype Side = TopSide | BottomSide | LeftSide | RightSide

  function Opposite(s: Side): Side {
    match s
    case TopSide => BottomSide
    case BottomSide => TopSide
    case LeftSide => RightSide
    case RightSide => LeftSide
  }

  predicate OnSide(b: Board, c: Coord, s: Side) {
    InBoard(b, c) &&
    match s
    case TopSide => c.row == 0
    case BottomSide => c.row == b.rows - 1
    case LeftSide => c.col == 0
    case RightSide => c.col == b.cols - 1
  }

  function StartSide(playerIndex: nat): Side
    requires playerIndex < 4
  {
    [TopSide, BottomSide, LeftSide, RightSide][playerIndex]
  }

  /**
   * On a non-empty board every start square lies on the player's own side,
   * and the goal cells are exactly the cells of the opposite side, each
   * listed once.
   */
  lemma GoalIsOppositeSide(b: Board, i: nat)
    requires i < 4 && b.cols > 0 && b.rows > 0
    ensures OnSide(b, StartPosition(b, i), StartSide(i))
    ensures forall c :: c in EndPositions(b, i) <==> OnSide(b, c, Opposite(StartSide(i)))
    ensures forall j, k :: 0 <= j < k < |EndPositions(b, i)| ==> EndPositions(b, i)[j] != EndPositions(b, i)[k]
    ensures |EndPositions(b, i)| > 0
  {
    var e := EndPositions(b, i);
    forall c | OnSide(b, c, Opposite(StartSide(i))) ensures c in e {
      if i <= 1 { assert e[c.col] == c; } else { assert e[c.row] == c; }
    }
  }
}

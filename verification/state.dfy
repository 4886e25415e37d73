/**
 * The mutable part of a game as one immutable value, and the committing
 * mutators: `Pawn.place`/`move`, `Fence.place`, `IPlayer.movePawn` and
 * `IPlayer.placeFence`, each followed by the board's cache update.
 */
module GameState {
  import opened Grid
  import opened Fence
  import opened Board
  import opened Moves
  import opened Reach
  import opened FenceRules
  import opened Caches
  import opened Players
  import opened Wrappers

  /**
   * `pawns` is `board.pawns` as player indices: every placement appends
   * again, so an index may occur more than once.
   */
  datatype State = State(
    cols: nat,
    rows: nat,
    totalFenceCount: nat,
    fences: seq<Fence>,
    pawns: seq<nat>,
    players: seq<Player>,
    tables: Tables)

  function PawnCoord(players: seq<Player>, i: nat): Option<Coord> {
    if i < |players| && players[i].pawn.Some? then players[i].pawn.value.coord else None
  }

  /** The cells `hasPawn` answers true for: the current squares of the pawns in `board.pawns`. */
  function Occupied(pawns: seq<nat>, players: seq<Player>): set<Coord> {
    set i | i in pawns && PawnCoord(players, i).Some? :: PawnCoord(players, i).value
  }

  function BoardOf(st: State): Board {
    Board(st.cols, st.rows, st.fences, Occupied(st.pawns, st.players))
  }

  /**
   * `getPawnAt`: the first pawn in `board.pawns` standing on `c`; None when
   * no listed pawn stands there.
   */
  function GetPawnAt(st: State, c: Coord, from: nat := 0): (r: Option<nat>)
    requires from <= |st.pawns|
    decreases |st.pawns| - from
    ensures r.Some? ==> r.value in st.pawns[from..] && PawnCoord(st.players, r.value) == Some(c)
    ensures r.Some? ==>
      exists j :: from <= j < |st.pawns| && st.pawns[j] == r.value &&
        forall j' :: from <= j' < j ==> PawnCoord(st.players, st.pawns[j']) != Some(c)
    ensures r.None? ==> forall j :: from <= j < |st.pawns| ==> PawnCoord(st.players, st.pawns[j]) != Some(c)
  {
    if from == |st.pawns| then None
    else if PawnCoord(st.players, st.pawns[from]) == Some(c) then Some(st.pawns[from])
    else GetPawnAt(st, c, from + 1)
  }

  /** `getPawnAt` finds a pawn exactly where `hasPawn` is true. */
  lemma GetPawnAtMatchesHasPawn(st: State, c: Coord)
    ensures GetPawnAt(st, c).Some? <==> HasPawn(BoardOf(st), c)
  {
    if HasPawn(BoardOf(st), c) {
      var i :| i in st.pawns && PawnCoord(st.players, i).Some? && PawnCoord(st.players, i).value == c;
      var j :| 0 <= j < |st.pawns| && st.pawns[j] == i;
    }
  }

  /**
   * `isValidPawnMove(from, to)` against the stored table; a missing key is
   * the source's `KeyError`, here None.
   */
  function IsValidPawnMoveStored(st: State, from: Coord, to: Coord, ignorePawns: bool): Option<bool> {
    var t := if ignorePawns then st.tables.blindMoves else st.tables.pawnMoves;
    if from !in t then None else Some(IsValidPawnMove(t[from], to))
  }

  // ---- committing mutators ---------------------------------------------------

  function SetPawnCoord(st: State, i: nat, c: Coord): State
    requires i < |st.players| && st.players[i].pawn.Some?
  {
    st.(players := st.players[i := st.players[i].(pawn := Some(Pawn(Some(c))))])
  }

  /**
   * `Pawn.place`: set the coordinate, append the pawn to `board.pawns`, then
   * refresh the real moves around the previous coordinate (None on the first
   * placement) and the new one.
   */
  function PawnPlace(st: State, i: nat, c: Coord): (r: State)
    requires i < |st.players| && st.players[i].pawn.Some?
    ensures |r.players| == |st.players| && r.players[i] == st.players[i].(pawn := Some(Pawn(Some(c))))
    ensures forall j :: 0 <= j < |st.players| && j != i ==> r.players[j] == st.players[j]
    ensures r.pawns == st.pawns + [i] && r.fences == st.fences
    ensures r.cols == st.cols && r.rows == st.rows && r.totalFenceCount == st.totalFenceCount
    ensures r.tables.fencePlacings == st.tables.fencePlacings && r.tables.blindMoves == st.tables.blindMoves
  {
    var from := st.players[i].pawn.value.coord;
    var st1 := SetPawnCoord(st, i, c).(pawns := st.pawns + [i]);
    var b1 := BoardOf(st1);
    st1.(tables := st1.tables.(pawnMoves := Refresh(st1.tables.pawnMoves, b1, PawnRefreshSet(b1, from, c), false)))
  }

  /**
   * `board.getSquareAt(coord)` is `self.grid[coord.col][coord.row]` on a grid of
   * `cols` lists of `rows` squares: it finds a square exactly when both indices
   * are in range for a Python list, negative ones counting from the end; an
   * unplaced pawn has no coordinate to look up.
   */
  predicate HasSquare(st: State, coord: Option<Coord>) {
    coord.Some? && -(st.cols as int) <= coord.value.col < st.cols && -(st.rows as int) <= coord.value.row < st.rows
  }

  /**
   * `Pawn.move` and `IPlayer.movePawn`: look up the old square (its redraw is
   * left out), then place the pawn on `c`; the lookup raises when the pawn
   * stands where the grid has no square.
   */
  function MovePawn(st: State, i: nat, c: Coord): (r: Result<State, PlaceError>)
    requires i < |st.players| && st.players[i].pawn.Some?
    ensures r.Failure? <==> !HasSquare(st, st.players[i].pawn.value.coord)
    ensures r.Failure? ==> r.error == NoSquare
    ensures r.Success? ==> r.value == PawnPlace(st, i, c)
  {
    if HasSquare(st, st.players[i].pawn.value.coord) then Success(PawnPlace(st, i, c))
    else Failure(NoSquare)
  }

  /**
   * `Fence.place`: record the placing, append the fence once, then update the
   * fence list, the real-move ring and the blind-move block for that placing.
   */
  function FencePlace(st: State, u: UnplacedFence, coord: Coord, direction: Direction): (r: State)
    ensures r.fences == st.fences + [Place(u, coord, direction)]
    ensures r.players == st.players && r.pawns == st.pawns
  {
    var f := Place(u, coord, direction);
    var p := f.Placing();
    var st1 := st.(fences := st.fences + [f]);
    var b1 := BoardOf(st1);
    st1.(tables := Tables(
      UpdateAfterFence(st.tables.fencePlacings, p),
      Refresh(st.tables.pawnMoves, b1, RingSet(p), false),
      Refresh(st.tables.blindMoves, b1, BlindBlockSet(p), true)))
  }

  /**
   * The exceptions a turn can raise: `pop` on an empty fence list, and the
   * grid lookup of `Pawn.move` for a pawn that stands off the grid
   * (IndexError) or was never placed.
   */
  datatype PlaceError = EmptyFencePool | NoSquare

  /** `IPlayer.placeFence`: pop the player's last unplaced fence and place it; `pop` fails on an empty list. */
  function PlaceFence(st: State, i: nat, coord: Coord, direction: Direction): (r: Result<State, PlaceError>)
    requires i < |st.players|
    ensures r.Failure? <==> st.players[i].fences == []
    ensures r.Success? ==>
      && var p := st.players[i];
      && |r.value.players| == |st.players|
      && r.value.players[i] == p.(fences := p.fences[..|p.fences| - 1])
      && RemainingFences(r.value.players[i]) == RemainingFences(p) - 1
      && (forall j :: 0 <= j < |st.players| && j != i ==> r.value.players[j] == st.players[j])
      && r.value.fences == st.fences + [Place(p.fences[|p.fences| - 1], coord, direction)]
  {
    var p := st.players[i];
    if p.fences == [] then Failure(EmptyFencePool)
    else
      var u := p.fences[|p.fences| - 1];
      var st1 := st.(players := st.players[i := p.(fences := p.fences[..|p.fences| - 1])]);
      Success(FencePlace(st1, u, coord, direction))
  }

  // ---- the cache invariant ---------------------------------------------------------

  /** The three stored tables equal a full recomputation on the current board (on-board keys). */
  ghost predicate Inv(st: State) {
    var b := BoardOf(st);
    && Consistent(st.tables.pawnMoves, b, false)
    && Consistent(st.tables.blindMoves, b, true)
    && st.tables.fencePlacings == ValidAmong(b, AllSlots(b), {})
  }

  /** A pawn placement changes occupancy only at its previous and new squares. */
  lemma PawnPlaceOccupancy(st: State, i: nat, c: Coord)
    requires i < |st.players| && st.players[i].pawn.Some?
    ensures var st1 := SetPawnCoord(st, i, c).(pawns := st.pawns + [i]);
      forall y :: y != c && (st.players[i].pawn.value.coord.None? || y != st.players[i].pawn.value.coord.value) ==>
        (y in Occupied(st.pawns, st.players) <==> y in Occupied(st1.pawns, st1.players))
  {
    var st1 := SetPawnCoord(st, i, c).(pawns := st.pawns + [i]);
    forall y | y != c && (st.players[i].pawn.value.coord.None? || y != st.players[i].pawn.value.coord.value)
      ensures y in Occupied(st.pawns, st.players) <==> y in Occupied(st1.pawns, st1.players)
    {
      if y in Occupied(st.pawns, st.players) {
        var j :| j in st.pawns && PawnCoord(st.players, j).Some? && PawnCoord(st.players, j).value == y;
        assert j != i;
        assert PawnCoord(st1.players, j) == PawnCoord(st.players, j);
      }
      if y in Occupied(st1.pawns, st1.players) {
        var j :| j in st1.pawns && PawnCoord(st1.players, j).Some? && PawnCoord(st1.players, j).value == y;
        assert j != i;
        assert PawnCoord(st1.players, j) == PawnCoord(st.players, j);
      }
    }
  }

  /** Agreement of the real-move table outside `S` survives a pawn placement, minus what it refreshes. */
  lemma PawnPlaceAgrees(st: State, i: nat, c: Coord, S: set<Coord>)
    requires i < |st.players| && st.players[i].pawn.Some?
    requires Agrees(st.tables.pawnMoves, BoardOf(st), false, S)
    ensures var r := PawnPlace(st, i, c);
      Agrees(r.tables.pawnMoves, BoardOf(r), false, S - PawnRefreshSet(BoardOf(r), st.players[i].pawn.value.coord, c))
  {
    PawnPlaceOccupancy(st, i, c);
    var st1 := SetPawnCoord(st, i, c).(pawns := st.pawns + [i]);
    PawnRefreshSound(st.tables.pawnMoves, BoardOf(st), BoardOf(st1), st.players[i].pawn.value.coord, c, S);
  }

  /** `Pawn.place` keeps all three tables equal to recomputation, wherever the pawn goes. */
  lemma PawnPlacePreservesInv(st: State, i: nat, c: Coord)
    requires i < |st.players| && st.players[i].pawn.Some?
    requires Inv(st)
    ensures Inv(PawnPlace(st, i, c))
  {
    var r := PawnPlace(st, i, c);
    PawnPlaceAgrees(st, i, c, {});
    assert {} - PawnRefreshSet(BoardOf(r), st.players[i].pawn.value.coord, c) == {};
    PawnMoveKeepsBlind(st.tables.blindMoves, BoardOf(st), BoardOf(r), {});
    ValidAmongIgnoresPawns(BoardOf(st), BoardOf(r), AllSlots(BoardOf(st)), {});
  }

  /** `Fence.place` keeps all three tables equal to recomputation, for any placing. */
  lemma FencePlacePreservesInv(st: State, u: UnplacedFence, coord: Coord, direction: Direction)
    requires Inv(st)
    ensures Inv(FencePlace(st, u, coord, direction))
  {
    var f := Place(u, coord, direction);
    var b := BoardOf(st);
    var r := FencePlace(st, u, coord, direction);
    assert BoardOf(r) == b.(fences := b.fences + [f]);
    AppendDiffersOnlyAt(b.fences, f);
    FenceRingSound(st.tables.pawnMoves, b, BoardOf(r), f.Placing(), {});
    FenceBlockSound(st.tables.blindMoves, b, BoardOf(r), f.Placing(), {});
    FenceListUpdate(b, f);
  }

  lemma PlaceFencePreservesInv(st: State, i: nat, coord: Coord, direction: Direction)
    requires i < |st.players| && Inv(st)
    ensures PlaceFence(st, i, coord, direction).Success? ==> Inv(PlaceFence(st, i, coord, direction).value)
  {
    var p := st.players[i];
    if p.fences != [] {
      var st1 := st.(players := st.players[i := p.(fences := p.fences[..|p.fences| - 1])]);
      assert BoardOf(st1) == BoardOf(st) by {
        forall j ensures PawnCoord(st1.players, j) == PawnCoord(st.players, j) {}
        assert Occupied(st1.pawns, st1.players) == Occupied(st.pawns, st.players);
      }
      FencePlacePreservesInv(st1, p.fences[|p.fences| - 1], coord, direction);
    }
  }

  /** With consistent tables, the stored `isValidPawnMove` answers by the rule itself. */
  lemma StoredPawnMoveIsLegal(st: State, from: Coord, to: Coord)
    requires Inv(st) && InBoard(BoardOf(st), from)
    ensures IsValidPawnMoveStored(st, from, to, false) ==
      Some(exists m: PawnMove :: m.to == to && Legal(BoardOf(st), from, m))
  {
    IsValidPawnMoveMeansLegal(BoardOf(st), from, to);
  }
}

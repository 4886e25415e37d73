/**
 * The game driver (src/Game.py): player-count normalisation and defaults in
 * the constructor, the per-round setup, the turn loop and the final ranking.
 * `play()` is the players' free choice, so a round is driven by a given
 * sequence of actions, and the random first player is a parameter.
 */
module Game {
  import opened Grid
  import opened Fence
  import opened Board
  import opened Moves
  import opened Reach
  import opened FenceRules
  import opened Caches
  import opened Players
  import opened GameState
  import opened Wrappers

  const DefaultNames: seq<string> := ["1", "2", "3", "4"]
  const DefaultColors: seq<Color> := [Red, Blue, Green, Orange]

  /** `min(int(n / 2) * 2, 4)`. */
  function PlayerCount(n: nat): (r: nat)
    ensures r % 2 == 0 && r <= 4 && r <= n
    ensures r + 2 > (if n < 4 then n else 4)
  {
    var even := n / 2 * 2;
    if even < 4 then even else 4
  }

  function EmptyBoard(cols: nat, rows: nat): Board {
    Board(cols, rows, [], {})
  }

  /** Player `i` as the constructor leaves it: defaults for a missing name or colour, a fresh pawn, start and goals. */
  function Seat(p: Player, i: nat, b: Board): Player
    requires i < 4
  {
    p.(name := if p.name.None? then Some(DefaultNames[i]) else p.name,
       color := if p.color.None? then Some(DefaultColors[i]) else p.color,
       pawn := Some(Pawn(None)),
       startPosition := Some(StartPosition(b, i)),
       endPositions := EndPositions(b, i))
  }

  /** `Game.__init__`: the first `PlayerCount` players, seated in order, on an empty board. */
  function NewGame(players: seq<Player>, cols: nat, rows: nat, totalFenceCount: nat): (st: State)
    ensures |st.players| == PlayerCount(|players|)
    ensures st.cols == cols && st.rows == rows && st.totalFenceCount == totalFenceCount
    ensures st.fences == [] && st.pawns == []
    ensures forall i :: 0 <= i < |st.players| ==>
      && st.players[i].name.Some? && st.players[i].color.Some?
      && (players[i].name.Some? ==> st.players[i].name == players[i].name)
      && (players[i].color.Some? ==> st.players[i].color == players[i].color)
      && st.players[i].pawn == Some(Pawn(None))
      && st.players[i].fences == players[i].fences && st.players[i].score == players[i].score
  {
    var b := EmptyBoard(cols, rows);
    var n := PlayerCount(|players|);
    State(cols, rows, totalFenceCount, [], [],
      seq(n, i requires 0 <= i < n => Seat(players[i], i, b)),
      Tables([], map[], map[]))
  }

  /** Seated players start on their own side and their goals are the whole opposite side; unnamed players get distinct names. */
  lemma NewGameSeats(players: seq<Player>, cols: nat, rows: nat, totalFenceCount: nat)
    requires cols > 0 && rows > 0
    ensures var st := NewGame(players, cols, rows, totalFenceCount);
      var b := EmptyBoard(cols, rows);
      && (forall i :: 0 <= i < |st.players| ==>
            && st.players[i].startPosition == Some(StartPosition(b, i))
            && OnSide(b, StartPosition(b, i), StartSide(i))
            && forall c :: c in st.players[i].endPositions <==> OnSide(b, c, Opposite(StartSide(i))))
      && ((forall i :: 0 <= i < |st.players| ==> players[i].name.None?) ==>
            forall i, j :: 0 <= i < j < |st.players| ==> st.players[i].name != st.players[j].name)
  {
    var st := NewGame(players, cols, rows, totalFenceCount);
    forall i | 0 <= i < |st.players| ensures OnSide(EmptyBoard(cols, rows), StartPosition(EmptyBoard(cols, rows), i), StartSide(i)) {
      GoalIsOppositeSide(EmptyBoard(cols, rows), i);
    }
  }

  // ---- the round setup --------------------------------------------------------------

  /** Every player has a pawn and a start square, as the constructor leaves them. */
  predicate Seated(st: State) {
    forall i :: 0 <= i < |st.players| ==> st.players[i].pawn.Some? && st.players[i].startPosition.Some?
  }

  function Tokens(owner: nat, k: nat): (r: seq<UnplacedFence>)
    ensures |r| == k && forall j :: 0 <= j < k ==> r[j] == UnplacedFence(Some(owner))
  {
    seq(k, _ => UnplacedFence(Some(owner)))
  }

  /** `k` new fences of player `i` appended to whatever they still hold. */
  function Allot(st: State, i: nat, k: nat): State
    requires i < |st.players|
  {
    st.(players := st.players[i := st.players[i].(fences := st.players[i].fences + Tokens(i, k))])
  }

  /** Place every pawn from player `i` on, each followed by its fence allotment. */
  function SeatAll(st: State, i: nat, k: nat): State
    requires Seated(st) && i <= |st.players|
    decreases |st.players| - i
  {
    if i == |st.players| then st
    else
      var st1 := Allot(PawnPlace(st, i, st.players[i].startPosition.value), i, k);
      assert Seated(st1);
      SeatAll(st1, i + 1, k)
  }

  /**
   * The round setup given the freshly initialised tables (`initStoredValidActions`
   * reads only the board's dimensions): clear fences and pawns, then place each
   * pawn on its start square and allot `int(totalFenceCount / playerCount)` fences.
   */
  function SetupWith(st: State, t: Tables): State
    requires Seated(st) && |st.players| > 0
  {
    SeatAll(st.(tables := t, fences := [], pawns := []), 0, st.totalFenceCount / |st.players|)
  }

  /** The round setup with the hardcoded four-pawn real-move table, as written. */
  function RoundSetupAsWritten(st: State): State
    requires Seated(st) && |st.players| > 0
  {
    SetupWith(st, InitTables(EmptyBoard(st.cols, st.rows)))
  }

  /** The round setup with the real-move table of the empty board. */
  function RoundSetup(st: State): State
    requires Seated(st) && |st.players| > 0
  {
    SetupWith(st, InitTablesFixed(EmptyBoard(st.cols, st.rows)))
  }

  function Range(i: nat, n: nat): (r: seq<nat>)
    requires i <= n
    ensures |r| == n - i && forall j :: 0 <= j < n - i ==> r[j] == i + j
  {
    seq(n - i, j => i + j)
  }

  /** One seat: the pawn on its start square, the allotment appended, nothing else of the game changed. */
  lemma SeatStep(st: State, i: nat, k: nat)
    requires Seated(st) && i < |st.players|
    ensures var st1 := Allot(PawnPlace(st, i, st.players[i].startPosition.value), i, k);
      && Seated(st1) && |st1.players| == |st.players| && st1.fences == st.fences && st1.pawns == st.pawns + [i]
      && st1.cols == st.cols && st1.rows == st.rows && st1.totalFenceCount == st.totalFenceCount
      && st1.players[i] == st.players[i].(pawn := Some(Pawn(st.players[i].startPosition)), fences := st.players[i].fences + Tokens(i, k))
      && forall j :: 0 <= j < |st.players| && j != i ==> st1.players[j] == st.players[j]
  {
  }

  lemma {:induction false} SeatAllShape(st: State, i: nat, k: nat)
    requires Seated(st) && i <= |st.players|
    ensures var r := SeatAll(st, i, k);
      && |r.players| == |st.players| && r.fences == st.fences && r.pawns == st.pawns + Range(i, |st.players|)
      && r.cols == st.cols && r.rows == st.rows && r.totalFenceCount == st.totalFenceCount
      && forall j :: 0 <= j < |st.players| ==>
           r.players[j] == if j < i then st.players[j]
             else st.players[j].(pawn := Some(Pawn(st.players[j].startPosition)), fences := st.players[j].fences + Tokens(j, k))
    decreases |st.players| - i
  {
    if i < |st.players| {
      var st1 := Allot(PawnPlace(st, i, st.players[i].startPosition.value), i, k);
      SeatStep(st, i, k);
      SeatAllShape(st1, i + 1, k);
      assert SeatAll(st, i, k) == SeatAll(st1, i + 1, k);
      SeatAllChain(st, st1, SeatAll(st1, i + 1, k), i, k);
    }
  }

  /** Chains one seat with the seats of the later players. */
  lemma SeatAllChain(st: State, st1: State, r: State, i: nat, k: nat)
    requires Seated(st) && i < |st.players|
    requires |st1.players| == |st.players| && st1.fences == st.fences && st1.pawns == st.pawns + [i]
    requires st1.cols == st.cols && st1.rows == st.rows && st1.totalFenceCount == st.totalFenceCount
    requires st1.players[i] == st.players[i].(pawn := Some(Pawn(st.players[i].startPosition)), fences := st.players[i].fences + Tokens(i, k))
    requires forall j :: 0 <= j < |st.players| && j != i ==> st1.players[j] == st.players[j]
    requires |r.players| == |st1.players| && r.fences == st1.fences && r.pawns == st1.pawns + Range(i + 1, |st1.players|)
    requires r.cols == st1.cols && r.rows == st1.rows && r.totalFenceCount == st1.totalFenceCount
    requires forall j :: 0 <= j < |st1.players| ==>
      r.players[j] == if j < i + 1 then st1.players[j]
        else st1.players[j].(pawn := Some(Pawn(st1.players[j].startPosition)), fences := st1.players[j].fences + Tokens(j, k))
    ensures && |r.players| == |st.players| && r.fences == st.fences && r.pawns == st.pawns + Range(i, |st.players|)
      && r.cols == st.cols && r.rows == st.rows && r.totalFenceCount == st.totalFenceCount
      && forall j :: 0 <= j < |st.players| ==>
           r.players[j] == if j < i then st.players[j]
             else st.players[j].(pawn := Some(Pawn(st.players[j].startPosition)), fences := st.players[j].fences + Tokens(j, k))
  {
    assert [i] + Range(i + 1, |st.players|) == Range(i, |st.players|);
  }

  /**
   * After the setup the board is empty of fences, every pawn stands on its
   * start square and `board.pawns` lists the players in order; each player's
   * fences are their leftovers plus the new allotment, and nothing else of
   * theirs changes.
   */
  lemma RoundSetupShape(st: State)
    requires Seated(st) && |st.players| > 0
    ensures var r := RoundSetup(st);
      var k := st.totalFenceCount / |st.players|;
      && |r.players| == |st.players| && r.fences == [] && r.pawns == Range(0, |st.players|)
      && forall j :: 0 <= j < |st.players| ==>
           && r.players[j].pawn == Some(Pawn(st.players[j].startPosition))
           && r.players[j].fences == st.players[j].fences + Tokens(j, k)
           && RemainingFences(r.players[j]) == RemainingFences(st.players[j]) + k
           && r.players[j].score == st.players[j].score && r.players[j].name == st.players[j].name
           && r.players[j].endPositions == st.players[j].endPositions
           && r.players[j].startPosition == st.players[j].startPosition
  {
    SeatAllShape(st.(tables := InitTablesFixed(EmptyBoard(st.cols, st.rows)), fences := [], pawns := []), 0, st.totalFenceCount / |st.players|);
  }

  /** An allotment touches no pawn, so the board and the tables are as before. */
  lemma AllotBoard(st: State, i: nat, k: nat)
    requires i < |st.players|
    ensures BoardOf(Allot(st, i, k)) == BoardOf(st) && Allot(st, i, k).tables == st.tables
  {
    var r := Allot(st, i, k);
    forall j ensures PawnCoord(r.players, j) == PawnCoord(st.players, j) {}
    assert Occupied(r.pawns, r.players) == Occupied(st.pawns, st.players);
  }

  lemma {:induction false} SeatAllInv(st: State, i: nat, k: nat)
    requires Seated(st) && i <= |st.players| && Inv(st)
    ensures Inv(SeatAll(st, i, k))
    decreases |st.players| - i
  {
    if i < |st.players| {
      var st0 := PawnPlace(st, i, st.players[i].startPosition.value);
      PawnPlacePreservesInv(st, i, st.players[i].startPosition.value);
      AllotBoard(st0, i, k);
      SeatAllInv(Allot(st0, i, k), i + 1, k);
    }
  }

  /** With the empty board's tables, the setup leaves all three tables equal to recomputation. */
  lemma RoundSetupInv(st: State)
    requires Seated(st) && |st.players| > 0
    ensures Inv(RoundSetup(st))
  {
    var e := EmptyBoard(st.cols, st.rows);
    var st0 := st.(tables := InitTablesFixed(e), fences := [], pawns := []);
    assert Occupied(st0.pawns, st0.players) == {};
    assert BoardOf(st0) == e;
    InitFixedConsistent(e);
    SeatAllInv(st0, 0, st.totalFenceCount / |st.players|);
  }

  // ---- the as-written setup with four players ------------------------------------------

  /** On-board cells within Manhattan distance 2 of `c`. */
  function Near(b: Board, c: Coord): set<Coord> {
    set y | y in Cells(b.cols, b.rows) && Manhattan(y, c) <= 2
  }

  /** On-board cells within distance 2 of the start squares of players `i`..3. */
  function NearStarts(b: Board, i: nat): set<Coord>
    decreases 4 - i
  {
    if i >= 4 then {} else Near(b, StartPosition(b, i)) + NearStarts(b, i + 1)
  }

  /** The tables agree with recomputation except for real moves inside `S`. */
  ghost predicate InvOutside(st: State, S: set<Coord>) {
    var b := BoardOf(st);
    && Agrees(st.tables.pawnMoves, b, false, S)
    && Consistent(st.tables.blindMoves, b, true)
    && st.tables.fencePlacings == ValidAmong(b, AllSlots(b), {})
  }

  lemma NearInRefresh(b: Board, from: Option<Coord>, to: Coord)
    ensures Near(b, to) <= PawnRefreshSet(b, from, to)
  {
    var cs := PawnMoveCoords(from, to);
    assert cs[|cs| - 1] == to;
  }

  lemma {:induction false} SeatAllFourPawns(st: State, i: nat, k: nat)
    requires Seated(st) && |st.players| == 4 && i <= 4
    requires forall j :: i <= j < 4 ==> st.players[j].startPosition == Some(StartPosition(BoardOf(st), j))
    requires InvOutside(st, NearStarts(BoardOf(st), i))
    ensures Inv(SeatAll(st, i, k))
    decreases 4 - i
  {
    if i == 4 {
      assert NearStarts(BoardOf(st), i) == {};
    } else {
      var st1 := Allot(PawnPlace(st, i, st.players[i].startPosition.value), i, k);
      SeatFourStep(st, i, k);
      SameDimensions(BoardOf(st), BoardOf(st1), i + 1);
      SeatAllFourPawns(st1, i + 1, k);
      assert SeatAll(st, i, k) == SeatAll(st1, i + 1, k);
    }
  }

  /** Seating player `i` of four clears the cells near its start square from the exceptions. */
  lemma SeatFourStep(st: State, i: nat, k: nat)
    requires Seated(st) && |st.players| == 4 && i < 4
    requires forall j :: i <= j < 4 ==> st.players[j].startPosition == Some(StartPosition(BoardOf(st), j))
    requires InvOutside(st, NearStarts(BoardOf(st), i))
    ensures var st1 := Allot(PawnPlace(st, i, st.players[i].startPosition.value), i, k);
      && Seated(st1) && |st1.players| == 4 && st1.cols == st.cols && st1.rows == st.rows
      && (forall j :: i + 1 <= j < 4 ==> st1.players[j].startPosition == Some(StartPosition(BoardOf(st), j)))
      && InvOutside(st1, NearStarts(BoardOf(st), i + 1))
  {
    var st0 := PawnPlace(st, i, StartPosition(BoardOf(st), i));
    PlaceFourStep(st, i);
    AllotBoard(st0, i, k);
    assert Seated(Allot(st0, i, k));
  }

  /** Placing pawn `i` on its start square refreshes every cell near it. */
  lemma PlaceFourStep(st: State, i: nat)
    requires Seated(st) && i < 4 && i < |st.players|
    requires InvOutside(st, NearStarts(BoardOf(st), i))
    ensures InvOutside(PawnPlace(st, i, StartPosition(BoardOf(st), i)), NearStarts(BoardOf(st), i + 1))
  {
    var b := BoardOf(st);
    var c := StartPosition(b, i);
    var S := NearStarts(b, i);
    var st0 := PawnPlace(st, i, c);
    var b0 := BoardOf(st0);
    var R := PawnRefreshSet(b0, st.players[i].pawn.value.coord, c);
    PawnPlaceAgrees(st, i, c, S);
    NearInRefresh(b0, st.players[i].pawn.value.coord, c);
    assert Near(b0, c) == Near(b, c);
    AgreesWiden(st0.tables.pawnMoves, b0, false, S - R, NearStarts(b, i + 1));
    assert b0.cols == b.cols && b0.rows == b.rows && b0.fences == b.fences;
    PawnMoveKeepsBlind(st.tables.blindMoves, b, b0, {});
    ValidAmongIgnoresPawns(b, b0, AllSlots(b), {});
  }

  lemma AgreesWiden(t: Table, b: Board, ignorePawns: bool, S: set<Coord>, S': set<Coord>)
    requires Agrees(t, b, ignorePawns, S) && S <= S'
    ensures Agrees(t, b, ignorePawns, S')
  {
  }

  /** Start squares and the cells near them depend on the dimensions only. */
  lemma {:induction false} SameDimensions(b1: Board, b2: Board, i: nat)
    requires b1.cols == b2.cols && b1.rows == b2.rows
    ensures NearStarts(b1, i) == NearStarts(b2, i)
    ensures forall j :: 0 <= j < 4 ==> StartPosition(b1, j) == StartPosition(b2, j)
    decreases 4 - i
  {
    if i < 4 {
      SameDimensions(b1, b2, i + 1);
    }
  }

  lemma {:induction false} NearStartsHas(b: Board, i: nat, j: nat, c: Coord)
    requires i <= j < 4 && c in Near(b, StartPosition(b, j))
    ensures c in NearStarts(b, i)
    decreases j - i
  {
    if i < j {
      NearStartsHas(b, i + 1, j, c);
    }
  }

  lemma StartFar(b: Board, c: Coord, j: nat)
    requires InBoard(b, c) && c !in NearStarts(b, 0) && j < 4
    ensures Manhattan(c, StartPosition(b, j)) > 2
  {
    if Manhattan(c, StartPosition(b, j)) <= 2 {
      assert c in Cells(b.cols, b.rows);
      NearStartsHas(b, 0, j, c);
    }
  }

  lemma FarFromStarts(b: Board, c: Coord, y: Coord)
    requires forall j :: 0 <= j < 4 ==> Manhattan(c, StartPosition(b, j)) > 2
    requires Manhattan(c, y) <= 2
    ensures y !in FourStarts(b)
  {
    assert Manhattan(c, StartPosition(b, 0)) > 2 && Manhattan(c, StartPosition(b, 1)) > 2;
    assert Manhattan(c, StartPosition(b, 2)) > 2 && Manhattan(c, StartPosition(b, 3)) > 2;
  }

  /** Away from every start square the four hardcoded pawns make no difference. */
  lemma InitRealOutsideStarts(b: Board, c: Coord)
    requires b.fences == [] && b.occupied == {} && b.cols >= 3 && b.rows >= 3
    requires InBoard(b, c) && c !in NearStarts(b, 0)
    ensures InitRealAt(b, c) == ValidPawnMoves(b, c, false)
  {
    var full := b.(occupied := FourStarts(b));
    SameDimensions(full, b, 0);
    assert FourStarts(full) == FourStarts(b);
    InitRealAtFourPawns(full, c);
    InitRealDims(full, b, c);
    StartsOutOfReach(b, c);
    PawnLocality(full, b, c, false);
  }

  /** The hardcoded real moves depend on the dimensions only. */
  lemma InitRealDims(b1: Board, b2: Board, c: Coord)
    requires b1.cols == b2.cols && b1.rows == b2.rows
    ensures InitRealAt(b1, c) == InitRealAt(b2, c)
  {
  }

  /** Away from every start square, no cell within distance 2 of `c` holds one of the four pawns. */
  lemma StartsOutOfReach(b: Board, c: Coord)
    requires InBoard(b, c) && c !in NearStarts(b, 0)
    ensures forall y :: 1 <= Manhattan(c, y) <= 2 ==> y !in FourStarts(b)
  {
    forall j | 0 <= j < 4 ensures Manhattan(c, StartPosition(b, j)) > 2 {
      StartFar(b, c, j);
    }
    forall y | 1 <= Manhattan(c, y) <= 2 ensures y !in FourStarts(b) {
      FarFromStarts(b, c, y);
    }
  }

  /** Outside the start neighbourhoods the hardcoded real moves are already those of the empty board. */
  lemma InitTablesOutsideStarts(b: Board)
    requires b.fences == [] && b.occupied == {} && b.cols >= 3 && b.rows >= 3
    ensures Agrees(InitTables(b).pawnMoves, b, false, NearStarts(b, 0))
    ensures Consistent(InitTables(b).blindMoves, b, true)
    ensures InitTables(b).fencePlacings == ValidAmong(b, AllSlots(b), {})
  {
    var t := InitTables(b);
    forall c | InBoard(b, c) && c !in NearStarts(b, 0)
      ensures c in t.pawnMoves && t.pawnMoves[c] == ValidPawnMoves(b, c, false)
    {
      assert c in Cells(b.cols, b.rows);
      InitRealOutsideStarts(b, c);
    }
    forall c | InBoard(b, c) ensures c in t.blindMoves && t.blindMoves[c] == ValidPawnMoves(b, c, true) {
      assert c in Cells(b.cols, b.rows);
      InitBlindIsFenceFree(b, c);
    }
    InitialPlacingsAreLocallyValid(b);
  }

  /**
   * With four players on a board of at least 3x3 the hardcoded table is
   * right by the end of the setup: every cell whose real moves it gets wrong
   * lies within distance 2 of a start square and is refreshed when that
   * pawn is placed.
   */
  lemma RoundSetupAsWrittenFourPlayers(st: State)
    requires Seated(st) && |st.players| == 4 && st.cols >= 3 && st.rows >= 3
    requires forall j :: 0 <= j < 4 ==> st.players[j].startPosition == Some(StartPosition(EmptyBoard(st.cols, st.rows), j))
    ensures Inv(RoundSetupAsWritten(st))
  {
    var e := EmptyBoard(st.cols, st.rows);
    var st0 := st.(tables := InitTables(e), fences := [], pawns := []);
    assert Occupied(st0.pawns, st0.players) == {};
    assert BoardOf(st0) == e;
    InitTablesOutsideStarts(e);
    SeatAllFourPawns(st0, 0, st.totalFenceCount / |st.players|);
  }

  // ---- the as-written setup with two players ---------------------------------------------

  /** Two unnamed players on the default 9x9 board with 20 fences. */
  function TwoPlayerGame(): State {
    NewGame([NewPlayer(None, None), NewPlayer(None, None)], 9, 9, 20)
  }

  /** A cell more than distance 2 from every placement keeps its initial real-move entry. */
  lemma {:induction false} SeatAllKeepsFar(st: State, i: nat, k: nat, c: Coord)
    requires Seated(st) && i <= |st.players| && c in st.tables.pawnMoves
    requires forall j :: i <= j < |st.players| ==>
      ManhattanMulti(c, PawnMoveCoords(st.players[j].pawn.value.coord, st.players[j].startPosition.value)) > 2
    ensures c in SeatAll(st, i, k).tables.pawnMoves && SeatAll(st, i, k).tables.pawnMoves[c] == st.tables.pawnMoves[c]
    decreases |st.players| - i
  {
    if i < |st.players| {
      var st1 := Allot(PawnPlace(st, i, st.players[i].startPosition.value), i, k);
      SeatKeepsFar(st, i, k, c);
      SeatAllKeepsFar(st1, i + 1, k, c);
      assert SeatAll(st, i, k) == SeatAll(st1, i + 1, k);
    }
  }

  /** One seat keeps the entry of `c` and leaves the later players' pawns where they were. */
  lemma SeatKeepsFar(st: State, i: nat, k: nat, c: Coord)
    requires Seated(st) && i < |st.players| && c in st.tables.pawnMoves
    requires ManhattanMulti(c, PawnMoveCoords(st.players[i].pawn.value.coord, st.players[i].startPosition.value)) > 2
    ensures var st1 := Allot(PawnPlace(st, i, st.players[i].startPosition.value), i, k);
      && Seated(st1) && |st1.players| == |st.players|
      && c in st1.tables.pawnMoves && st1.tables.pawnMoves[c] == st.tables.pawnMoves[c]
      && forall j :: i < j < |st.players| ==> st1.players[j] == st.players[j]
  {
    SeatStep(st, i, k);
    PawnPlaceKeepsFar(st, i, st.players[i].startPosition.value, c);
  }

  /** A placement keeps the real moves of a cell farther than 2 from both ends of the move. */
  lemma PawnPlaceKeepsFar(st: State, i: nat, to: Coord, c: Coord)
    requires i < |st.players| && st.players[i].pawn.Some? && c in st.tables.pawnMoves
    requires ManhattanMulti(c, PawnMoveCoords(st.players[i].pawn.value.coord, to)) > 2
    ensures c in PawnPlace(st, i, to).tables.pawnMoves
    ensures PawnPlace(st, i, to).tables.pawnMoves[c] == st.tables.pawnMoves[c]
  {
    var st1 := SetPawnCoord(st, i, to).(pawns := st.pawns + [i]);
    assert c !in PawnRefreshSet(BoardOf(st1), st.players[i].pawn.value.coord, to);
  }

  /** The hardcoded real moves of (1, 4) on the empty 9x9 board: two diagonals round (0, 4), and three steps. */
  lemma InitRealAtOneFour()
    ensures InitRealAt(EmptyBoard(9, 9), Coord(1, 4)) == [
      PawnMove(Coord(1, 4), Coord(0, 3), Some(Coord(0, 4))), PawnMove(Coord(1, 4), Coord(0, 5), Some(Coord(0, 4))),
      PawnMove(Coord(1, 4), Coord(2, 4), None), PawnMove(Coord(1, 4), Coord(1, 3), None),
      PawnMove(Coord(1, 4), Coord(1, 5), None)]
  {
    var e, c := EmptyBoard(9, 9), Coord(1, 4);
    assert e.MiddleRow() == 4 && e.MiddleCol() == 4;
    assert InitLeft(e, c) == [PawnMove(c, Coord(0, 3), Some(Coord(0, 4))), PawnMove(c, Coord(0, 5), Some(Coord(0, 4)))];
    assert InitRight(e, c) == [PawnMove(c, Coord(2, 4), None)];
    assert InitTop(e, c) == [PawnMove(c, Coord(1, 3), None)];
    assert InitBottom(e, c) == [PawnMove(c, Coord(1, 5), None)];
  }

  /** A 9x9 two-player game before its first round, pawns not yet placed, with 20 fences. */
  predicate FreshTwoPlayer(st: State) {
    && st.cols == 9 && st.rows == 9 && st.totalFenceCount == 20 && |st.players| == 2
    && st.players[0].pawn == Some(Pawn(None)) && st.players[0].startPosition == Some(Coord(4, 0))
    && st.players[1].pawn == Some(Pawn(None)) && st.players[1].startPosition == Some(Coord(4, 8))
  }

  lemma FreshTwoPlayerSeated(st: State)
    requires FreshTwoPlayer(st)
    ensures Seated(st)
  {
    forall j | 0 <= j < |st.players| ensures st.players[j].pawn.Some? && st.players[j].startPosition.Some? {
      assert j == 0 || j == 1;
    }
  }

  lemma TwoPlayerGameFresh()
    ensures FreshTwoPlayer(TwoPlayerGame())
  {
    var st := TwoPlayerGame();
    assert |st.players| == 2;
  }

  /** The as-written real-move table holds the hardcoded entry at every on-board cell. */
  lemma InitTablesAt(b: Board, c: Coord)
    requires InBounds(b.cols, b.rows, c)
    ensures c in InitTables(b).pawnMoves && InitTables(b).pawnMoves[c] == InitRealAt(b, c)
  {
    assert c in Cells(b.cols, b.rows);
  }

  /** Neither fresh pawn's placement reaches (1, 4). */
  lemma TwoPlayerFar(st: State)
    requires FreshTwoPlayer(st)
    ensures forall j :: 0 <= j < |st.players| ==>
      ManhattanMulti(Coord(1, 4), PawnMoveCoords(st.players[j].pawn.value.coord, st.players[j].startPosition.value)) > 2
  {
    assert ManhattanMulti(Coord(1, 4), PawnMoveCoords(None, Coord(4, 0))) == 7;
    assert ManhattanMulti(Coord(1, 4), PawnMoveCoords(None, Coord(4, 8))) == 7;
  }

  /** The two placements are too far from (1, 4) to refresh it. */
  lemma TwoPlayerCellKept(st: State)
    requires FreshTwoPlayer(st)
    ensures var r := RoundSetupAsWritten(st);
      Coord(1, 4) in r.tables.pawnMoves && r.tables.pawnMoves[Coord(1, 4)] == InitRealAt(EmptyBoard(st.cols, st.rows), Coord(1, 4))
  {
    FreshTwoPlayerSeated(st);
    var e, c := EmptyBoard(st.cols, st.rows), Coord(1, 4);
    var st0 := st.(tables := InitTables(e), fences := [], pawns := []);
    InitTablesAt(e, c);
    TwoPlayerFar(st);
    assert st0.players == st.players;
    SeatAllKeepsFar(st0, 0, st.totalFenceCount / |st.players|, c);
  }

  /** After the setup, whatever its tables, there are no fences and the pawns stand on (4, 0) and (4, 8) only. */
  lemma TwoPlayerBoard(st: State, t: Tables)
    requires FreshTwoPlayer(st)
    ensures var b := BoardOf(SetupWith(st, t));
      b.cols == 9 && b.rows == 9 && b.fences == [] && Coord(0, 4) !in b.occupied
  {
    FreshTwoPlayerSeated(st);
    var st0 := st.(tables := t, fences := [], pawns := []);
    var k := st.totalFenceCount / |st.players|;
    SeatAllShape(st0, 0, k);
    var r := SeatAll(st0, 0, k);
    assert r.pawns == [0, 1];
    forall i | i in r.pawns ensures PawnCoord(r.players, i) != Some(Coord(0, 4)) {
      assert r.players[i].pawn == Some(Pawn(st.players[i].startPosition));
    }
  }

  /** A table entry that differs from recomputation at an on-board cell breaks consistency. */
  lemma StaleEntryInconsistent(t: Table, b: Board, c: Coord, m: PawnMove)
    requires InBoard(b, c) && c in t && m in ValidPawnMoves(b, c, false) && m !in t[c]
    ensures !Consistent(t, b, false)
  {
  }

  /** On a 9x9 board without fences, (1, 4) may step onto (0, 4) whenever it is free. */
  lemma StepOntoFreeCell(b: Board)
    requires b.cols == 9 && b.rows == 9 && b.fences == [] && Coord(0, 4) !in b.occupied
    ensures PawnMove(Coord(1, 4), Coord(0, 4), None) in ValidPawnMoves(b, Coord(1, 4), false)
  {
    var c, m := Coord(1, 4), PawnMove(Coord(1, 4), Coord(0, 4), None);
    assert StepRule(b, c, West, m);
    DirMovesExact(b, c, West, m);
    InValidPawnMoves(b, c, false, m);
  }

  /**
   * With two players the as-written setup leaves a stale real-move entry:
   * (1, 4) keeps the diagonal jumps round a pawn on (0, 4) that was never
   * placed, and lacks the plain step onto the empty (0, 4).
   */
  lemma AsWrittenSetupStaleForTwoPlayers(st: State)
    requires FreshTwoPlayer(st)
    ensures var r := RoundSetupAsWritten(st);
      var c, m := Coord(1, 4), PawnMove(Coord(1, 4), Coord(0, 4), None);
      && c in r.tables.pawnMoves
      && m in ValidPawnMoves(BoardOf(r), c, false)
      && m !in r.tables.pawnMoves[c]
      && !Inv(r)
  {
    var e := EmptyBoard(st.cols, st.rows);
    var r := RoundSetupAsWritten(st);
    TwoPlayerCellKept(st);
    OneFourLacksStep(e);
    TwoPlayerBoard(st, InitTables(e));
    assert r == SetupWith(st, InitTables(e));
    StepOntoFreeCell(BoardOf(r));
    StaleEntryInconsistent(r.tables.pawnMoves, BoardOf(r), Coord(1, 4), PawnMove(Coord(1, 4), Coord(0, 4), None));
  }

  /** On a 9x9 board the hardcoded real moves of (1, 4) have no plain step onto (0, 4). */
  lemma OneFourLacksStep(b: Board)
    requires b.cols == 9 && b.rows == 9
    ensures PawnMove(Coord(1, 4), Coord(0, 4), None) !in InitRealAt(b, Coord(1, 4))
  {
    var c := Coord(1, 4);
    assert b.MiddleRow() == 4 && b.MiddleCol() == 4;
    assert InitLeft(b, c) == [PawnMove(c, Coord(0, 3), Some(Coord(0, 4))), PawnMove(c, Coord(0, 5), Some(Coord(0, 4)))];
    assert InitRight(b, c) == [PawnMove(c, Coord(2, 4), None)];
    assert InitTop(b, c) == [PawnMove(c, Coord(1, 3), None)];
    assert InitBottom(b, c) == [PawnMove(c, Coord(1, 5), None)];
  }

  // ---- turns -------------------------------------------------------------------------

  /** What a player's `play()` may return. */
  datatype Action = MovePawnTo(to: Coord) | PlaceFenceAt(coord: Coord, direction: Direction) | Quit | NoAction

  datatype Outcome = Outcome(st: State, finished: bool, won: bool)

  function AddPoint(st: State, i: nat): State
    requires i < |st.players|
  {
    st.(players := st.players[i := st.players[i].(score := st.players[i].score + 1)])
  }

  /** `movePawn`, then `hasWon`: a win scores a point and finishes the round. */
  function MoveTurn(st: State, i: nat, to: Coord): Result<Outcome, PlaceError>
    requires i < |st.players| && Seated(st)
  {
    match MovePawn(st, i, to)
    case Failure(e) => Failure(e)
    case Success(st1) =>
      if Won(st1.players[i]) then Success(Outcome(AddPoint(st1, i), true, true))
      else Success(Outcome(st1, false, false))
  }

  /** One pass of the loop body: act, and on a winning pawn move add one to the mover's score. */
  function Turn(st: State, i: nat, a: Action): Result<Outcome, PlaceError>
    requires i < |st.players| && Seated(st)
  {
    match a
    case MovePawnTo(to) => MoveTurn(st, i, to)
    case PlaceFenceAt(coord, direction) =>
      (match PlaceFence(st, i, coord, direction)
       case Failure(e) => Failure(e)
       case Success(st1) => Success(Outcome(st1, false, false)))
    case Quit => Success(Outcome(st, true, false))
    case NoAction => Success(Outcome(st, false, false))
  }

  /**
   * A turn ends the round exactly on Quit or on a pawn move onto one of the
   * mover's end positions, and the mover scores exactly in the second case;
   * it fails exactly on a fence from an empty pool or on a move of a pawn
   * the grid has no square for; nobody else's score changes.
   */
  lemma TurnFacts(st: State, i: nat, a: Action)
    requires i < |st.players| && Seated(st)
    ensures var r := Turn(st, i, a);
      && (r.Failure? <==>
            || (a.PlaceFenceAt? && st.players[i].fences == [])
            || (a.MovePawnTo? && !HasSquare(st, st.players[i].pawn.value.coord)))
      && (r.Failure? ==> r.error == if a.PlaceFenceAt? then EmptyFencePool else NoSquare)
      && (r.Success? ==>
            && (r.value.won <==> a.MovePawnTo? && a.to in st.players[i].endPositions)
            && (r.value.finished <==> a.Quit? || r.value.won)
            && Seated(r.value.st) && |r.value.st.players| == |st.players|
            && r.value.st.players[i].score == st.players[i].score + (if r.value.won then 1 else 0)
            && forall j :: 0 <= j < |st.players| && j != i ==> r.value.st.players[j].score == st.players[j].score)
  {
  }

  /** A score changes no square, so the tables stay consistent. */
  lemma AddPointKeepsInv(st: State, i: nat)
    requires i < |st.players| && Inv(st)
    ensures Inv(AddPoint(st, i))
  {
    var st1 := AddPoint(st, i);
    forall j ensures PawnCoord(st1.players, j) == PawnCoord(st.players, j) {}
    assert Occupied(st1.pawns, st1.players) == Occupied(st.pawns, st.players);
    assert BoardOf(st1) == BoardOf(st);
  }

  lemma MoveTurnKeepsInv(st: State, i: nat, to: Coord)
    requires i < |st.players| && Seated(st) && Inv(st)
    ensures MoveTurn(st, i, to).Success? ==> Inv(MoveTurn(st, i, to).value.st)
  {
    PawnPlacePreservesInv(st, i, to);
    AddPointKeepsInv(PawnPlace(st, i, to), i);
  }

  lemma FenceTurnKeepsInv(st: State, i: nat, coord: Coord, direction: Direction)
    requires i < |st.players| && Seated(st) && Inv(st)
    ensures Turn(st, i, PlaceFenceAt(coord, direction)).Success? ==> Inv(Turn(st, i, PlaceFenceAt(coord, direction)).value.st)
  {
    PlaceFencePreservesInv(st, i, coord, direction);
  }

  lemma TurnPreservesInv(st: State, i: nat, a: Action)
    requires i < |st.players| && Seated(st) && Inv(st)
    ensures Turn(st, i, a).Success? ==> Inv(Turn(st, i, a).value.st)
  {
    match a
    case MovePawnTo(to) => MoveTurnKeepsInv(st, i, to);
    case PlaceFenceAt(coord, direction) => FenceTurnKeepsInv(st, i, coord, direction);
    case Quit =>
    case NoAction =>
  }

  // ---- the round loop ------------------------------------------------------------------

  /** How a round's loop stops: a win or a quit, the actions running out, or an exception. */
  datatype RoundEnd =
    | Finished(st: State, next: nat, played: nat, won: bool)
    | Pending(st: State, next: nat)
    | Crashed(error: PlaceError, played: nat)

  /** The `while not finished` loop from player `i`, the index advancing after every action. */
  function Play(st: State, i: nat, actions: seq<Action>): RoundEnd
    requires i < |st.players| && Seated(st)
    decreases |actions|
  {
    if actions == [] then Pending(st, i)
    else
      TurnFacts(st, i, actions[0]);
      match Turn(st, i, actions[0])
      case Failure(e) => Crashed(e, 1)
      case Success(o) =>
        var j := (i + 1) % |st.players|;
        if o.finished then Finished(o.st, j, 1, o.won)
        else
          match Play(o.st, j, actions[1..])
          case Finished(s, n, k, w) => Finished(s, n, k + 1, w)
          case Pending(s, n) => Pending(s, n)
          case Crashed(e, k) => Crashed(e, k + 1)
  }

  /** One pass of the loop, then the rest of the round from the next player. */
  lemma PlayUnfold(st: State, i: nat, actions: seq<Action>)
    requires i < |st.players| && Seated(st) && actions != []
    ensures var t := Turn(st, i, actions[0]);
      var p := Play(st, i, actions);
      && (t.Failure? ==> p == Crashed(t.error, 1))
      && (t.Success? && t.value.finished ==> p == Finished(t.value.st, (i + 1) % |st.players|, 1, t.value.won))
      && (t.Success? && !t.value.finished ==>
            && Seated(t.value.st) && |t.value.st.players| == |st.players|
            && var r := Play(t.value.st, (i + 1) % |st.players|, actions[1..]);
               && (r.Finished? ==> p == Finished(r.st, r.next, r.played + 1, r.won))
               && (r.Pending? ==> p == r)
               && (r.Crashed? ==> p == Crashed(r.error, r.played + 1)))
  {
    UnfoldStopped(st, i, actions);
    UnfoldContinued(st, i, actions);
  }

  /** A first turn that raises or finishes the round ends it. */
  lemma UnfoldStopped(st: State, i: nat, actions: seq<Action>)
    requires i < |st.players| && Seated(st) && actions != []
    ensures var t := Turn(st, i, actions[0]);
      var p := Play(st, i, actions);
      && (t.Failure? ==> p == Crashed(t.error, 1))
      && (t.Success? && t.value.finished ==> p == Finished(t.value.st, (i + 1) % |st.players|, 1, t.value.won))
  {
    TurnFacts(st, i, actions[0]);
  }

  /** A first turn that neither raises nor finishes hands the round on to the next player. */
  lemma UnfoldContinued(st: State, i: nat, actions: seq<Action>)
    requires i < |st.players| && Seated(st) && actions != []
    ensures var t := Turn(st, i, actions[0]);
      var p := Play(st, i, actions);
      t.Success? && !t.value.finished ==>
        && Seated(t.value.st) && |t.value.st.players| == |st.players|
        && var r := Play(t.value.st, (i + 1) % |st.players|, actions[1..]);
           && (r.Finished? ==> p == Finished(r.st, r.next, r.played + 1, r.won))
           && (r.Pending? ==> p == r)
           && (r.Crashed? ==> p == Crashed(r.error, r.played + 1))
  {
    TurnFacts(st, i, actions[0]);
    var t := Turn(st, i, actions[0]);
    if t.Success? && !t.value.finished {
      UnfoldRest(st, i, actions, t.value);
    }
  }

  /** The round after an unfinished first turn `o` is the rest of the round from the next player. */
  lemma UnfoldRest(st: State, i: nat, actions: seq<Action>, o: Outcome)
    requires i < |st.players| && Seated(st) && actions != []
    requires Turn(st, i, actions[0]) == Success(o) && !o.finished
    requires Seated(o.st) && |o.st.players| == |st.players|
    ensures var p := Play(st, i, actions);
      var r := Play(o.st, (i + 1) % |st.players|, actions[1..]);
      && (r.Finished? ==> p == Finished(r.st, r.next, r.played + 1, r.won))
      && (r.Pending? ==> p == r)
      && (r.Crashed? ==> p == Crashed(r.error, r.played + 1))
  {
  }

  function TotalScore(players: seq<Player>): nat {
    if players == [] then 0 else players[0].score + TotalScore(players[1..])
  }

  lemma {:induction false} TotalScoreOneChange(p1: seq<Player>, p2: seq<Player>, i: nat)
    requires |p1| == |p2| && i < |p1|
    requires forall j :: 0 <= j < |p1| && j != i ==> p1[j].score == p2[j].score
    ensures TotalScore(p2) == TotalScore(p1) - p1[i].score + p2[i].score
  {
    if i > 0 {
      TotalScoreOneChange(p1[1..], p2[1..], i - 1);
    } else {
      TotalScoreSame(p1[1..], p2[1..]);
    }
  }

  lemma {:induction false} TotalScoreSame(p1: seq<Player>, p2: seq<Player>)
    requires |p1| == |p2| && forall j :: 0 <= j < |p1| ==> p1[j].score == p2[j].score
    ensures TotalScore(p1) == TotalScore(p2)
  {
    if p1 != [] {
      TotalScoreSame(p1[1..], p2[1..]);
    }
  }

  lemma MulSmallIsZero(d: int, n: int)
    requires n > 0 && -n < d * n < n
    ensures d == 0
  {
  }

  /** Division with remainder has only one answer. */
  lemma ModUnique(a: int, n: int, q: int, r: int)
    requires n > 0 && 0 <= r < n && a == q * n + r
    ensures a % n == r
  {
    var q0, r0 := a / n, a % n;
    assert (q - q0) * n == r0 - r by {
      assert a == q0 * n + r0;
      assert (q - q0) * n == q * n - q0 * n;
    }
    MulSmallIsZero(q - q0, n);
  }

  lemma ModStep(i: nat, k: nat, n: nat)
    requires n > 0
    ensures ((i + 1) % n + k) % n == (i + 1 + k) % n
  {
    var a := i + 1;
    var q, r := a / n, a % n;
    var q1, r1 := (r + k) / n, (r + k) % n;
    assert a + k == (q + q1) * n + r1 by {
      assert a == q * n + r && r + k == q1 * n + r1;
      assert (q + q1) * n == q * n + q1 * n;
    }
    ModUnique(a + k, n, q + q1, r1);
  }

  /**
   * A finished round: it stopped on its `played`-th action, a Quit or a
   * winning pawn move, after no earlier Quit; the next index is the start
   * advanced once per action played, modulo the player count; the total
   * score grew by one exactly on a win.
   */
  predicate FinishedAsPromised(st: State, i: nat, actions: seq<Action>, r: RoundEnd)
    requires |st.players| > 0
  {
    var n := |st.players|;
    r.Finished? ==>
      && 1 <= r.played <= |actions| && r.next == (i + r.played) % n
      && (if r.won then actions[r.played - 1].MovePawnTo? else actions[r.played - 1].Quit?)
      && (forall k :: 0 <= k < r.played - 1 ==> !actions[k].Quit?)
      && |r.st.players| == n && Seated(r.st)
      && TotalScore(r.st.players) == TotalScore(st.players) + (if r.won then 1 else 0)
  }

  /** Actions that run out leave the round unfinished: none was a Quit, and nobody scored. */
  predicate PendingAsPromised(st: State, i: nat, actions: seq<Action>, r: RoundEnd)
    requires |st.players| > 0
  {
    var n := |st.players|;
    r.Pending? ==>
      && r.next == (i + |actions|) % n && (forall k :: 0 <= k < |actions| ==> !actions[k].Quit?)
      && |r.st.players| == n && Seated(r.st) && TotalScore(r.st.players) == TotalScore(st.players)
  }

  lemma {:induction false} PlayFinished(st: State, i: nat, actions: seq<Action>)
    requires i < |st.players| && Seated(st)
    ensures FinishedAsPromised(st, i, actions, Play(st, i, actions))
    decreases |actions|
  {
    var n := |st.players|;
    if actions != [] {
      TurnFacts(st, i, actions[0]);
      PlayUnfold(st, i, actions);
      match Turn(st, i, actions[0])
      case Failure(e) =>
      case Success(o) =>
        TotalScoreOneChange(st.players, o.st.players, i);
        var j := (i + 1) % n;
        if !o.finished {
          PlayFinished(o.st, j, actions[1..]);
          var r := Play(o.st, j, actions[1..]);
          if r.Finished? {
            FinishedChain(st, i, actions, o.st, r);
          }
        }
    }
  }

  /** Chains an unfinished first turn with a round finished from the next player. */
  lemma FinishedChain(st: State, i: nat, actions: seq<Action>, s1: State, r: RoundEnd)
    requires |st.players| > 0 && |s1.players| == |st.players| && actions != [] && !actions[0].Quit?
    requires TotalScore(s1.players) == TotalScore(st.players)
    requires r.Finished? && FinishedAsPromised(s1, (i + 1) % |st.players|, actions[1..], r)
    ensures FinishedAsPromised(st, i, actions, Finished(r.st, r.next, r.played + 1, r.won))
  {
    ModStep(i, r.played, |st.players|);
    assert forall k :: 1 <= k < r.played + 1 ==> actions[k] == actions[1..][k - 1];
  }

  lemma {:induction false} PlayPending(st: State, i: nat, actions: seq<Action>)
    requires i < |st.players| && Seated(st)
    ensures PendingAsPromised(st, i, actions, Play(st, i, actions))
    decreases |actions|
  {
    var n := |st.players|;
    if actions == [] {
      ModUnique(i, n, 0, i);
    } else {
      TurnFacts(st, i, actions[0]);
      PlayUnfold(st, i, actions);
      match Turn(st, i, actions[0])
      case Failure(e) =>
      case Success(o) =>
        TotalScoreOneChange(st.players, o.st.players, i);
        var j := (i + 1) % n;
        if !o.finished {
          PlayPending(o.st, j, actions[1..]);
          var r := Play(o.st, j, actions[1..]);
          if r.Pending? {
            PendingChain(st, i, actions, o.st, r);
          }
        }
    }
  }

  /** Chains an unfinished first turn with a round left pending from the next player. */
  lemma PendingChain(st: State, i: nat, actions: seq<Action>, s1: State, r: RoundEnd)
    requires |st.players| > 0 && |s1.players| == |st.players| && actions != [] && !actions[0].Quit?
    requires TotalScore(s1.players) == TotalScore(st.players)
    requires r.Pending? && PendingAsPromised(s1, (i + 1) % |st.players|, actions[1..], r)
    ensures PendingAsPromised(st, i, actions, r)
  {
    ModStep(i, |actions| - 1, |st.players|);
    assert forall k :: 1 <= k < |actions| ==> actions[k] == actions[1..][k - 1];
  }

  /** Only a fence from an empty pool, or a move of a pawn the grid has no square for, raises. */
  lemma {:induction false} PlayCrashed(st: State, i: nat, actions: seq<Action>)
    requires i < |st.players| && Seated(st)
    ensures var r := Play(st, i, actions);
      r.Crashed? ==>
        && 1 <= r.played <= |actions|
        && (|| (actions[r.played - 1].PlaceFenceAt? && r.error == EmptyFencePool)
            || (actions[r.played - 1].MovePawnTo? && r.error == NoSquare))
    decreases |actions|
  {
    if actions != [] {
      TurnFacts(st, i, actions[0]);
      PlayUnfold(st, i, actions);
      match Turn(st, i, actions[0])
      case Failure(e) =>
      case Success(o) =>
        if !o.finished {
          PlayCrashed(o.st, (i + 1) % |st.players|, actions[1..]);
        }
    }
  }

  lemma {:induction false} PlayPreservesInv(st: State, i: nat, actions: seq<Action>)
    requires i < |st.players| && Seated(st) && Inv(st)
    ensures Play(st, i, actions).Finished? ==> Inv(Play(st, i, actions).st)
    ensures Play(st, i, actions).Pending? ==> Inv(Play(st, i, actions).st)
    decreases |actions|
  {
    if actions != [] {
      TurnFacts(st, i, actions[0]);
      PlayUnfold(st, i, actions);
      TurnPreservesInv(st, i, actions[0]);
      match Turn(st, i, actions[0])
      case Failure(e) =>
      case Success(o) =>
        if !o.finished {
          PlayPreservesInv(o.st, (i + 1) % |st.players|, actions[1..]);
        }
    }
  }

  // ---- rounds and the ranking ----------------------------------------------------------

  /** A round: its random first player and the actions its players choose. */
  datatype Round = Round(first: nat, actions: seq<Action>)

  /**
   * How `start` ends. `NoPlayers` is the ZeroDivisionError of
   * `int(self.totalFenceCount/playerCount)` when the game seated nobody.
   */
  datatype GameEnd = Completed(st: State) | Stalled(st: State, round: nat) | Aborted(error: PlaceError) | NoPlayers

  /**
   * Which initial real-move table each round starts from: the hardcoded one
   * `initStoredValidActions` installs, or the empty board's recomputed table.
   */
  datatype Setup = AsWritten | Corrected

  function SetupRound(st: State, setup: Setup): State
    requires Seated(st) && |st.players| > 0
  {
    match setup
    case AsWritten => RoundSetupAsWritten(st)
    case Corrected => RoundSetup(st)
  }

  /** The random first players are seat indices; with nobody seated, the setup fails first. */
  predicate FirstsSeated(st: State, rounds: seq<Round>) {
    |st.players| == 0 || forall k :: 0 <= k < |rounds| ==> rounds[k].first < |st.players|
  }

  /** `Game.start`: the rounds in turn, each set up afresh and played until it finishes. */
  function Start(st: State, rounds: seq<Round>, setup: Setup): GameEnd
    requires Seated(st) && FirstsSeated(st, rounds)
    decreases |rounds|
  {
    if rounds == [] then Completed(st)
    else if |st.players| == 0 then NoPlayers
    else
      var s0 := SetupRound(st, setup);
      SetupSameSeats(st, setup);
      PlayFinished(s0, rounds[0].first, rounds[0].actions);
      match Play(s0, rounds[0].first, rounds[0].actions)
      case Finished(s1, _, _, _) =>
        (match Start(s1, rounds[1..], setup)
         case Stalled(s2, k) => Stalled(s2, k + 1)
         case other => other)
      case Pending(s1, _) => Stalled(s1, 0)
      case Crashed(e, _) => Aborted(e)
  }

  /** The board's dimensions, the seat count and every start square are the same in `b` as in `a`. */
  predicate SameSeats(a: State, b: State) {
    && a.cols == b.cols && a.rows == b.rows && |a.players| == |b.players|
    && forall j :: 0 <= j < |a.players| ==> b.players[j].startPosition == a.players[j].startPosition
  }

  /** Four players whose start squares are the board's four start positions, on a board of at least 3x3. */
  predicate FourOnStarts(st: State) {
    && |st.players| == 4 && st.cols >= 3 && st.rows >= 3
    && forall j :: 0 <= j < 4 ==> st.players[j].startPosition == Some(StartPosition(EmptyBoard(st.cols, st.rows), j))
  }

  lemma SameSeatsKeepFour(a: State, b: State)
    requires SameSeats(a, b) && FourOnStarts(a)
    ensures FourOnStarts(b)
  {
    assert forall j :: 0 <= j < 4 ==> b.players[j].startPosition == a.players[j].startPosition;
  }

  lemma SetupSameSeats(st: State, setup: Setup)
    requires Seated(st) && |st.players| > 0
    ensures Seated(SetupRound(st, setup)) && SameSeats(st, SetupRound(st, setup))
  {
    var k := st.totalFenceCount / |st.players|;
    match setup
    case AsWritten =>
      SeatAllShape(st.(tables := InitTables(EmptyBoard(st.cols, st.rows)), fences := [], pawns := []), 0, k);
    case Corrected =>
      SeatAllShape(st.(tables := InitTablesFixed(EmptyBoard(st.cols, st.rows)), fences := [], pawns := []), 0, k);
  }

  lemma TurnSameSeats(st: State, i: nat, a: Action)
    requires i < |st.players| && Seated(st)
    ensures Turn(st, i, a).Success? ==> SameSeats(st, Turn(st, i, a).value.st)
  {
  }

  /** A round moves pawns, places fences and scores, but changes neither the board's size nor a start square. */
  lemma {:induction false} PlaySameSeats(st: State, i: nat, actions: seq<Action>)
    requires i < |st.players| && Seated(st)
    ensures var r := Play(st, i, actions); (r.Finished? || r.Pending?) ==> SameSeats(st, r.st)
    decreases |actions|
  {
    if actions != [] {
      TurnFacts(st, i, actions[0]);
      TurnSameSeats(st, i, actions[0]);
      PlayUnfold(st, i, actions);
      match Turn(st, i, actions[0])
      case Failure(e) =>
      case Success(o) =>
        if !o.finished {
          PlaySameSeats(o.st, (i + 1) % |st.players|, actions[1..]);
        }
    }
  }

  /**
   * The outcome of `start`: it fails for want of players exactly when a
   * round is due and nobody is seated; each completed round adds at most
   * one point in total; after at least one round the tables equal
   * recomputation with the corrected initial table, and with the hardcoded
   * one when four players start on the four start squares of a board of at
   * least 3x3.
   */
  lemma {:induction false} StartFacts(st: State, rounds: seq<Round>, setup: Setup)
    requires Seated(st) && FirstsSeated(st, rounds)
    ensures Start(st, rounds, setup).NoPlayers? <==> rounds != [] && |st.players| == 0
    ensures Start(st, rounds, setup).Completed? ==>
      && |Start(st, rounds, setup).st.players| == |st.players|
      && TotalScore(st.players) <= TotalScore(Start(st, rounds, setup).st.players) <= TotalScore(st.players) + |rounds|
      && (rounds != [] && setup == Corrected ==> Inv(Start(st, rounds, setup).st))
      && (rounds != [] && setup == AsWritten && FourOnStarts(st) ==> Inv(Start(st, rounds, setup).st))
    decreases |rounds|
  {
    if rounds != [] && |st.players| > 0 {
      RoundFacts(st, rounds[0], setup);
      var r := Play(SetupRound(st, setup), rounds[0].first, rounds[0].actions);
      if r.Finished? {
        if FourOnStarts(st) {
          SameSeatsKeepFour(st, r.st);
        }
        StartFacts(r.st, rounds[1..], setup);
      }
    }
  }

  /** One round of `start`: a finished round keeps the seats and adds at most one point. */
  lemma RoundFacts(st: State, round: Round, setup: Setup)
    requires Seated(st) && |st.players| > 0 && round.first < |st.players|
    ensures var s0 := SetupRound(st, setup);
      && Seated(s0) && |s0.players| == |st.players|
      && var r := Play(s0, round.first, round.actions);
      && (r.Finished? ==>
            && Seated(r.st) && SameSeats(st, r.st)
            && TotalScore(st.players) <= TotalScore(r.st.players) <= TotalScore(st.players) + 1)
      && (r.Finished? && (setup == Corrected || FourOnStarts(st)) ==> Inv(r.st))
  {
    var s0 := SetupRound(st, setup);
    SetupSameSeats(st, setup);
    SetupScores(st, setup);
    TotalScoreSame(st.players, s0.players);
    PlayFinished(s0, round.first, round.actions);
    PlaySameSeats(s0, round.first, round.actions);
    if setup == Corrected || FourOnStarts(st) {
      RoundInv(st, round, setup);
    }
  }

  /** A finished round leaves the tables consistent whenever its setup made them so. */
  lemma RoundInv(st: State, round: Round, setup: Setup)
    requires Seated(st) && |st.players| > 0 && round.first < |st.players|
    requires setup == Corrected || FourOnStarts(st)
    ensures var s0 := SetupRound(st, setup);
      Seated(s0) && |s0.players| == |st.players| &&
      (Play(s0, round.first, round.actions).Finished? ==> Inv(Play(s0, round.first, round.actions).st))
  {
    SetupSameSeats(st, setup);
    var s0 := SetupRound(st, setup);
    match setup {
      case Corrected => RoundSetupInv(st);
      case AsWritten => RoundSetupAsWrittenFourPlayers(st);
    }
    PlayPreservesInv(s0, round.first, round.actions);
  }

  /** The setup keeps every score. */
  lemma SetupScores(st: State, setup: Setup)
    requires Seated(st) && |st.players| > 0
    ensures |SetupRound(st, setup).players| == |st.players|
    ensures forall j :: 0 <= j < |st.players| ==> SetupRound(st, setup).players[j].score == st.players[j].score
  {
    var k := st.totalFenceCount / |st.players|;
    match setup
    case AsWritten =>
      SeatAllShape(st.(tables := InitTables(EmptyBoard(st.cols, st.rows)), fences := [], pawns := []), 0, k);
    case Corrected =>
      SeatAllShape(st.(tables := InitTablesFixed(EmptyBoard(st.cols, st.rows)), fences := [], pawns := []), 0, k);
  }

  /**
   * The final ranking: the first player whose score is strictly greater than
   * all before. None is the IndexError of `self.players[0]` when nobody is seated.
   */
  method BestPlayer(players: seq<Player>) returns (best: Option<nat>)
    ensures best.None? <==> |players| == 0
    ensures best.Some? ==> best.value < |players|
    ensures best.Some? ==> forall j :: 0 <= j < |players| ==> players[j].score <= players[best.value].score
    ensures best.Some? ==> forall j :: 0 <= j < best.value ==> players[j].score < players[best.value].score
  {
    if |players| == 0 {
      return None;
    }
    var b := 0;
    var i := 0;
    while i < |players|
      invariant 0 <= i <= |players| && b < |players| && b <= i
      invariant forall j :: 0 <= j < i ==> players[j].score <= players[b].score
      invariant forall j :: 0 <= j < b ==> players[j].score < players[b].score
    {
      if players[i].score > players[b].score {
        b := i;
      }
      i := i + 1;
    }
    best := Some(b);
  }
}

/** A player's own state (src/player/IPlayer.py) and its pawn (src/interface/Pawn.py). */
module Players {
  import opened Grid
  import opened Fence
  import opened Wrappers

  datatype Color = Red | Blue | Green | Orange

  /** A pawn; `coord` is None until it is first placed. */
  datatype Pawn = Pawn(coord: Option<Coord>)

  datatype Player = Player(
    name: Option<string>,
    color: Option<Color>,
    pawn: Option<Pawn>,
    fences: seq<UnplacedFence>,
    score: nat,
    startPosition: Option<Coord>,
    endPositions: seq<Coord>)

  /** The `IPlayer` constructor. */
  function NewPlayer(name: Option<string>, color: Option<Color>): (p: Player)
    ensures p.name == name && p.color == color
    ensures p.pawn == None && p.fences == [] && p.score == 0
    ensures p.startPosition == None && p.endPositions == []
  {
    Player(name, color, None, [], 0, None, [])
  }

  function RemainingFences(p: Player): nat {
    |p.fences|
  }

  /** The pawn stands on one of the player's end positions. */
  predicate Won(p: Player)
    requires p.pawn.Some?
  {
    p.pawn.value.coord.Some? && p.pawn.value.coord.value in p.endPositions
  }

  /** `hasWon`: scan the end positions for the pawn's square. */
  method HasWon(p: Player) returns (won: bool)
    requires p.pawn.Some?
    ensures won == Won(p)
  {
    var i := 0;
    while i < |p.endPositions|
      invariant 0 <= i <= |p.endPositions|
      invariant forall j :: 0 <= j < i ==> p.pawn.value.coord != Some(p.endPositions[j])
    {
      if p.pawn.value.coord == Some(p.endPositions[i]) {
        return true;
      }
      i := i + 1;
    }
    return false;
  }

}

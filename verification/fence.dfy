/** Fences and fence placings (src/interface/Fence.py, the FencePlacing action). */
module Fence {
  import opened Grid
  import opened Wrappers

  /** `Fence.DIRECTION`: exactly two orientations. */
  datatype Direction = Horizontal | Vertical

  /** A candidate or committed placement: a slot and an orientation. */
  datatype FencePlacing = FencePlacing(coord: Coord, direction: Direction)

  /** A fence still in a player's pool; `owner` is the player index, `None` for the board's probe fences. */
  datatype UnplacedFence = UnplacedFence(owner: Option<nat>)

  /** A fence standing on the board. The owner is cosmetic. */
  datatype Fence = Fence(owner: Option<nat>, coord: Coord, direction: Direction) {
    function Placing(): FencePlacing { FencePlacing(coord, direction) }
  }

  /** `Fence.place` as far as the fence itself is concerned: it records the slot and the orientation. */
  function Place(u: UnplacedFence, coord: Coord, direction: Direction): (f: Fence)
    ensures f.Placing() == FencePlacing(coord, direction)
    ensures f.owner == u.owner
  {
    Fence(u.owner, coord, direction)
  }

  const Infix: string := "-fence at "

  /** `Fence.__str__`, given the text of the coordinate (GridCoordinates.__str__ is not part of this model). */
  function ToString(f: Fence, coordText: string): string {
    (if f.direction == Vertical then "V" else "H") + Infix + coordText
  }

  /** Reads the orientation back from a rendered fence. */
  function DirectionOfText(s: string): Option<Direction> {
    if |s| > 0 && s[0] == 'V' then Some(Vertical)
    else if |s| > 0 && s[0] == 'H' then Some(Horizontal)
    else None
  }

  /** The rendering can be read back: the first letter is the orientation and the tail is the coordinate. */
  lemma ToStringReadsBack(f: Fence, coordText: string)
    ensures DirectionOfText(ToString(f, coordText)) == Some(f.direction)
    ensures ToString(f, coordText)[1 + |Infix|..] == coordText
    ensures ToString(f, coordText)[1..1 + |Infix|] == Infix
  {
  }
}

/**
 * Grid coordinates. `GridCoordinates` itself is not part of this model; a
 * coordinate is an integer pair whose neighbours are plain offsets, so that
 * `Left` of column 0 is column -1 (the board, not the coordinate, knows the
 * edges).
 */
module Grid {

  datatype Coord = Coord(col: int, row: int)

  function Left(c: Coord): Coord { Coord(c.col - 1, c.row) }
  function Right(c: Coord): Coord { Coord(c.col + 1, c.row) }
  function Top(c: Coord): Coord { Coord(c.col, c.row - 1) }
  function Bottom(c: Coord): Coord { Coord(c.col, c.row + 1) }

  predicate InBounds(cols: nat, rows: nat, c: Coord) {
    0 <= c.col < cols && 0 <= c.row < rows
  }

  function Abs(x: int): nat { if x < 0 then -x else x }

  function Manhattan(a: Coord, b: Coord): nat {
    Abs(a.col - b.col) + Abs(a.row - b.row)
  }

  /** Distance from `c` to the nearest coordinate of `cs`. */
  function ManhattanMulti(c: Coord, cs: seq<Coord>): (r: nat)
    requires |cs| > 0
    ensures exists k :: 0 <= k < |cs| && r == Manhattan(c, cs[k])
    ensures forall k :: 0 <= k < |cs| ==> r <= Manhattan(c, cs[k])
  {
    if |cs| == 1 then Manhattan(c, cs[0])
    else
      var rest := ManhattanMulti(c, cs[1..]);
      assert forall k :: 1 <= k < |cs| ==> cs[k] == cs[1..][k - 1];
      if Manhattan(c, cs[0]) <= rest then Manhattan(c, cs[0]) else rest
  }

  /** `int((n - 1) / 2)`: Python's float division truncated toward zero. */
  function Middle(n: nat): nat {
    if n == 0 then 0 else (n - 1) / 2
  }

  /** The cells of one column, top to bottom. */
  function Column(col: int, rows: nat): (s: seq<Coord>)
    ensures |s| == rows
    ensures forall i :: 0 <= i < rows ==> s[i] == Coord(col, i)
  {
    seq(rows, i => Coord(col, i))
  }

  /**
   * All cells in the order of the source's `for col in range(cols): for row
   * in range(rows)` loops.
   */
  function CellList(cols: nat, rows: nat): (s: seq<Coord>)
    ensures |s| == cols * rows
  {
    if cols == 0 then [] else CellList(cols - 1, rows) + Column(cols - 1, rows)
  }

  lemma {:induction false} CellListMembers(cols: nat, rows: nat, c: Coord)
    ensures c in CellList(cols, rows) <==> InBounds(cols, rows, c)
  {
    if cols > 0 {
      CellListMembers(cols - 1, rows, c);
      if c.col == cols - 1 && 0 <= c.row < rows {
        assert Column(cols - 1, rows)[c.row] == c;
      }
    }
  }

  lemma {:induction false} CellListDistinct(cols: nat, rows: nat)
    ensures forall i, j :: 0 <= i < j < |CellList(cols, rows)| ==> CellList(cols, rows)[i] != CellList(cols, rows)[j]
  {
    if cols > 0 {
      CellListDistinct(cols - 1, rows);
      var prev := CellList(cols - 1, rows);
      forall i | 0 <= i < |prev| ensures prev[i].col < cols - 1 {
        CellListMembers(cols - 1, rows, prev[i]);
      }
    }
  }

  /** The set of in-bounds cells. */
  function Cells(cols: nat, rows: nat): (s: set<Coord>)
    ensures forall c :: c in s <==> InBounds(cols, rows, c)
  {
    var s := set c | c in CellList(cols, rows);
    forall c ensures c in s <==> InBounds(cols, rows, c) {
      CellListMembers(cols, rows, c);
    }
    s
  }

  lemma {:induction false} SetOfSeqSize<T>(s: seq<T>)
    ensures |set x | x in s| <= |s|
  {
    if |s| > 0 {
      SetOfSeqSize(s[1..]);
      assert (set x | x in s) == (set x | x in s[1..]) + {s[0]};
    }
  }

  lemma CellsSize(cols: nat, rows: nat)
    ensures |Cells(cols, rows)| <= cols * rows
  {
    SetOfSeqSize(CellList(cols, rows));
  }
}

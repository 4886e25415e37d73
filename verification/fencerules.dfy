/**
 * Local fence legality (`Board.isValidFencePlacing` up to the reachability
 * veto) and the stored list of locally valid placings
 * (`storedValidFencePlacings`, its initialisation and its update).
 */
module FenceRules {
  import opened Grid
  import opened Fence
  import opened Board
  import opened Seqs

  predicate HasFenceSlot(fences: seq<Fence>, c: Coord, d: Direction) {
    exists i :: 0 <= i < |fences| && fences[i].coord == c && fences[i].direction == d
  }

  /** The edge test: a horizontal fence may not start on the top row or last column, a vertical one on the first column or last row. */
  predicate OnEdgeSlot(b: Board, p: FencePlacing) {
    match p.direction
    case Horizontal => IsAtTopEdge(b, p.coord) || IsAtRightEdge(b, p.coord)
    case Vertical => IsAtLeftEdge(b, p.coord) || IsAtBottomEdge(b, p.coord)
  }

  /** The three local tests of `isValidFencePlacing`, in the source's order: edge, overlap, crossing. */
  predicate IsLocallyValid(b: Board, p: FencePlacing) {
    var c := p.coord;
    !OnEdgeSlot(b, p) &&
    match p.direction
    case Horizontal =>
      !(HasFenceAtTop(b.fences, c) || HasFenceAtTop(b.fences, Right(c)))
      && !HasFenceSlot(b.fences, Right(Top(c)), Vertical)
    case Vertical =>
      !(HasFenceAtLeft(b.fences, c) || HasFenceAtLeft(b.fences, Bottom(c)))
      && !HasFenceSlot(b.fences, Left(Bottom(c)), Horizontal)
  }

  /**
   * The slots a placing rules out: itself, its two same-orientation overlaps,
   * and the perpendicular slot crossing it. These are also the four slots
   * `updateStoredValidFencePlacingsAfterFencePlacing` removes.
   */
  function Conflicts(p: FencePlacing): set<FencePlacing> {
    var c := p.coord;
    if p.direction == Vertical then
      {p, FencePlacing(Top(c), Vertical), FencePlacing(Bottom(c), Vertical), FencePlacing(Left(Bottom(c)), Horizontal)}
    else
      {p, FencePlacing(Left(c), Horizontal), FencePlacing(Right(c), Horizontal), FencePlacing(Right(Top(c)), Vertical)}
  }

  lemma ConflictsSymmetric(p: FencePlacing, q: FencePlacing)
    ensures q in Conflicts(p) <==> p in Conflicts(q)
  {
  }

  /** The local tests reject exactly the edge slots and the placings conflicting with a fence already down. */
  lemma LocallyValidIsConflictFree(b: Board, p: FencePlacing)
    ensures IsLocallyValid(b, p) <==>
      !OnEdgeSlot(b, p) && forall i :: 0 <= i < |b.fences| ==> b.fences[i].Placing() !in Conflicts(p)
  {
    var fs := b.fences;
    if !(forall i :: 0 <= i < |fs| ==> fs[i].Placing() !in Conflicts(p)) {
      var i :| 0 <= i < |fs| && fs[i].Placing() in Conflicts(p);
      assert fs[i].coord == fs[i].Placing().coord;
    }
  }

  // ---- the same tests stated geometrically --------------------------------

  /** The centre point of a fence, named by the cell whose top-left corner it is. */
  function Midpoint(p: FencePlacing): Coord {
    if p.direction == Vertical then Bottom(p.coord) else Right(p.coord)
  }

  /** Two fences clash when they share a covered edge or cross at their centres. */
  predicate Clash(p: FencePlacing, q: FencePlacing) {
    EdgesOf(p) * EdgesOf(q) != {} || (p.direction != q.direction && Midpoint(p) == Midpoint(q))
  }

  lemma ConflictIsClash(p: FencePlacing, q: FencePlacing)
    ensures q in Conflicts(p) <==> Clash(p, q)
  {
    var c := p.coord;
    if q in Conflicts(p) {
      if p.direction == Vertical {
        if q == p { assert LeftEdge(c) in EdgesOf(p) * EdgesOf(q); }
        else if q == FencePlacing(Top(c), Vertical) { assert LeftEdge(c) in EdgesOf(p) * EdgesOf(q); }
        else if q == FencePlacing(Bottom(c), Vertical) { assert LeftEdge(Bottom(c)) in EdgesOf(p) * EdgesOf(q); }
      } else {
        if q == p { assert TopEdge(c) in EdgesOf(p) * EdgesOf(q); }
        else if q == FencePlacing(Left(c), Horizontal) { assert TopEdge(c) in EdgesOf(p) * EdgesOf(q); }
        else if q == FencePlacing(Right(c), Horizontal) { assert TopEdge(Right(c)) in EdgesOf(p) * EdgesOf(q); }
      }
    }
    if Clash(p, q) && EdgesOf(p) * EdgesOf(q) != {} {
      var e :| e in EdgesOf(p) && e in EdgesOf(q);
      var d := q.coord;
      if p.direction == Vertical {
        assert e == LeftEdge(c) || e == LeftEdge(Bottom(c));
        if q.direction == Vertical {
          assert e == LeftEdge(d) || e == LeftEdge(Bottom(d));
          assert d == c || d == Top(c) || d == Bottom(c);
        }
      } else {
        assert e == TopEdge(c) || e == TopEdge(Right(c));
        if q.direction == Horizontal {
          assert e == TopEdge(d) || e == TopEdge(Right(d));
          assert d == c || d == Left(c) || d == Right(c);
        }
      }
    }
  }

  /** For an on-board anchor, the edge test passes exactly when both covered edges lie between on-board cells. */
  lemma InteriorSlot(b: Board, p: FencePlacing)
    requires InBoard(b, p.coord)
    ensures !OnEdgeSlot(b, p) <==> forall e :: e in EdgesOf(p) ==> InBoard(b, e.a) && InBoard(b, e.b)
  {
    var c := p.coord;
    if p.direction == Vertical {
      assert LeftEdge(c) in EdgesOf(p) && LeftEdge(Bottom(c)) in EdgesOf(p);
    } else {
      assert TopEdge(c) in EdgesOf(p) && TopEdge(Right(c)) in EdgesOf(p);
    }
  }

  /** Local validity: both edges interior, and no clash with any fence on the board. */
  lemma LocallyValidGeometric(b: Board, p: FencePlacing)
    requires InBoard(b, p.coord)
    ensures IsLocallyValid(b, p) <==>
      (forall e :: e in EdgesOf(p) ==> InBoard(b, e.a) && InBoard(b, e.b))
      && forall i :: 0 <= i < |b.fences| ==> !Clash(p, b.fences[i].Placing())
  {
    LocallyValidIsConflictFree(b, p);
    InteriorSlot(b, p);
    forall i | 0 <= i < |b.fences| ensures b.fences[i].Placing() in Conflicts(p) <==> Clash(p, b.fences[i].Placing()) {
      ConflictIsClash(p, b.fences[i].Placing());
    }
  }

  /** Appending fence `f` invalidates exactly the placings conflicting with `f`. */
  lemma AppendFenceValidity(b: Board, f: Fence, q: FencePlacing)
    ensures IsLocallyValid(b.(fences := b.fences + [f]), q) <==> IsLocallyValid(b, q) && q !in Conflicts(f.Placing())
  {
    var b' := b.(fences := b.fences + [f]);
    LocallyValidIsConflictFree(b, q);
    LocallyValidIsConflictFree(b', q);
    ConflictsSymmetric(f.Placing(), q);
    assert b'.fences[|b.fences|] == f;
    forall i | 0 <= i < |b.fences| ensures b'.fences[i] == b.fences[i] {}
  }

  // ---- the stored list ------------------------------------------------------

  /** Both orientations at each cell, horizontal first, in the order the source visits them. */
  function SlotsOf(cells: seq<Coord>): (r: seq<FencePlacing>)
    ensures |r| == 2 * |cells|
  {
    if cells == [] then []
    else [FencePlacing(cells[0], Horizontal), FencePlacing(cells[0], Vertical)] + SlotsOf(cells[1..])
  }

  function AllSlots(b: Board): seq<FencePlacing> {
    SlotsOf(CellList(b.cols, b.rows))
  }

  /** The fence part of `initStoredValidActions`, per cell. */
  function InitialSlotsOf(b: Board, cells: seq<Coord>): seq<FencePlacing> {
    if cells == [] then []
    else
      var c := cells[0];
      (if c.col != b.LastCol() && c.row != b.FirstRow() then [FencePlacing(c, Horizontal)] else [])
        + (if c.col != b.FirstCol() && c.row != b.LastRow() then [FencePlacing(c, Vertical)] else [])
        + InitialSlotsOf(b, cells[1..])
  }

  function InitialPlacings(b: Board): seq<FencePlacing> {
    InitialSlotsOf(b, CellList(b.cols, b.rows))
  }

  /** The slots of `s`, in order, that are locally valid on `b` and not in `excluded`. */
  function ValidAmong(b: Board, s: seq<FencePlacing>, excluded: set<FencePlacing>): seq<FencePlacing> {
    if s == [] then []
    else (if IsLocallyValid(b, s[0]) && s[0] !in excluded then [s[0]] else []) + ValidAmong(b, s[1..], excluded)
  }

  lemma {:induction false} ValidAmongMembers(b: Board, s: seq<FencePlacing>, excluded: set<FencePlacing>, p: FencePlacing)
    ensures p in ValidAmong(b, s, excluded) <==> p in s && IsLocallyValid(b, p) && p !in excluded
  {
    if s != [] {
      ValidAmongMembers(b, s[1..], excluded, p);
      assert s == [s[0]] + s[1..];
    }
  }

  lemma {:induction false} ValidAmongIsFilter(b: Board, s: seq<FencePlacing>, excluded: set<FencePlacing>, keep: FencePlacing -> bool)
    requires forall p :: keep(p) == (IsLocallyValid(b, p) && p !in excluded)
    ensures ValidAmong(b, s, excluded) == Filter(s, keep)
  {
    if s != [] {
      ValidAmongIsFilter(b, s[1..], excluded, keep);
      FilterCons(s, keep);
    }
  }

  /** `updateStoredValidFencePlacingsAfterFencePlacing`: the four removals in the source's order. */
  function UpdateAfterFence(stored: seq<FencePlacing>, p: FencePlacing): seq<FencePlacing> {
    var c := p.coord;
    var v := p.direction == Vertical;
    var s1 := RemoveIfExist(stored, p);
    var s2 := RemoveIfExist(s1, FencePlacing(if v then Top(c) else Left(c), p.direction));
    var s3 := RemoveIfExist(s2, FencePlacing(if v then Bottom(c) else Right(c), p.direction));
    RemoveIfExist(s3, if v then FencePlacing(Left(Bottom(c)), Horizontal) else FencePlacing(Right(Top(c)), Vertical))
  }

  lemma {:induction false} SlotsOfMembers(cells: seq<Coord>, p: FencePlacing)
    ensures p in SlotsOf(cells) <==> p.coord in cells
  {
    if cells != [] {
      SlotsOfMembers(cells[1..], p);
      assert cells == [cells[0]] + cells[1..];
      if p.coord == cells[0] {
        if p.direction == Horizontal { assert SlotsOf(cells)[0] == p; } else { assert SlotsOf(cells)[1] == p; }
      }
    }
  }

  lemma {:induction false} SlotsOfDistinct(cells: seq<Coord>)
    requires Distinct(cells)
    ensures Distinct(SlotsOf(cells))
  {
    if cells != [] {
      var t := cells[1..];
      assert Distinct(t) by {
        forall i, j | 0 <= i < j < |t| ensures t[i] != t[j] { assert t[i] == cells[i + 1] && t[j] == cells[j + 1]; }
      }
      SlotsOfDistinct(t);
      var s := SlotsOf(cells);
      forall i, j | 0 <= i < j < |s| ensures s[i] != s[j] {
        if i < 2 && j >= 2 {
          SlotsOfMembers(t, s[j]);
          assert s[j] == SlotsOf(t)[j - 2];
        } else if i >= 2 {
          assert s[i] == SlotsOf(t)[i - 2] && s[j] == SlotsOf(t)[j - 2];
        }
      }
    }
  }

  lemma AllSlotsDistinct(b: Board)
    ensures Distinct(AllSlots(b))
  {
    CellListDistinct(b.cols, b.rows);
    SlotsOfDistinct(CellList(b.cols, b.rows));
  }

  lemma EmptyBoardValid(b: Board, p: FencePlacing)
    requires b.fences == []
    ensures IsLocallyValid(b, p) <==> !OnEdgeSlot(b, p)
  {
    LocallyValidIsConflictFree(b, p);
  }

  lemma {:induction false} InitialSlotsAreValid(b: Board, cells: seq<Coord>)
    requires b.fences == []
    ensures InitialSlotsOf(b, cells) == ValidAmong(b, SlotsOf(cells), {})
  {
    if cells != [] {
      var c := cells[0];
      var h, v := FencePlacing(c, Horizontal), FencePlacing(c, Vertical);
      InitialSlotsAreValid(b, cells[1..]);
      EmptyBoardValid(b, h);
      EmptyBoardValid(b, v);
      var s := SlotsOf(cells);
      assert s[0] == h && s[1..][0] == v;
      assert s[1..][1..] == SlotsOf(cells[1..]);
      assert ValidAmong(b, s[1..], {}) == (if IsLocallyValid(b, v) then [v] else []) + ValidAmong(b, SlotsOf(cells[1..]), {});
      assert ValidAmong(b, s, {}) == (if IsLocallyValid(b, h) then [h] else []) + ValidAmong(b, s[1..], {});
    }
  }

  /** The list starts as exactly the locally valid placings of the empty board, in slot order. */
  lemma InitialPlacingsAreLocallyValid(b: Board)
    requires b.fences == []
    ensures InitialPlacings(b) == ValidAmong(b, AllSlots(b), {})
    ensures forall p :: p in InitialPlacings(b) <==> InBoard(b, p.coord) && IsLocallyValid(b, p)
  {
    InitialSlotsAreValid(b, CellList(b.cols, b.rows));
    forall p ensures p in InitialPlacings(b) <==> InBoard(b, p.coord) && IsLocallyValid(b, p) {
      ValidAmongMembers(b, AllSlots(b), {}, p);
      SlotsOfMembers(CellList(b.cols, b.rows), p);
      CellListMembers(b.cols, b.rows, p.coord);
    }
  }

  /** Local validity reads only the dimensions and the fences, never the pawns. */
  lemma {:induction false} ValidAmongIgnoresPawns(b1: Board, b2: Board, s: seq<FencePlacing>, excluded: set<FencePlacing>)
    requires b1.cols == b2.cols && b1.rows == b2.rows && b1.fences == b2.fences
    ensures ValidAmong(b1, s, excluded) == ValidAmong(b2, s, excluded)
  {
    if s != [] {
      ValidAmongIgnoresPawns(b1, b2, s[1..], excluded);
    }
  }

  /** On a duplicate-free list, removing a slot from the filtered list is filtering it out. */
  lemma RemoveFromValidAmong(b: Board, s: seq<FencePlacing>, excluded: set<FencePlacing>, x: FencePlacing)
    requires Distinct(s)
    ensures RemoveIfExist(ValidAmong(b, s, excluded), x) == ValidAmong(b, s, excluded + {x})
  {
    var keep := p => IsLocallyValid(b, p) && p !in excluded;
    var keep' := p => IsLocallyValid(b, p) && p !in excluded + {x};
    ValidAmongIsFilter(b, s, excluded, keep);
    ValidAmongIsFilter(b, s, excluded + {x}, keep');
    RemoveFromFilter(s, keep, x, keep');
  }

  lemma {:induction false} ValidAmongAfterAppend(b: Board, f: Fence, s: seq<FencePlacing>, excluded: set<FencePlacing>)
    ensures ValidAmong(b.(fences := b.fences + [f]), s, excluded) == ValidAmong(b, s, excluded + Conflicts(f.Placing()))
  {
    if s != [] {
      AppendFenceValidity(b, f, s[0]);
      ValidAmongAfterAppend(b, f, s[1..], excluded);
    }
  }

  /** The four removals of `UpdateAfterFence` take the conflicts of `p` out of a list of valid slots. */
  lemma RemoveConflicts(b: Board, s: seq<FencePlacing>, p: FencePlacing)
    requires Distinct(s)
    ensures UpdateAfterFence(ValidAmong(b, s, {}), p) == ValidAmong(b, s, Conflicts(p))
  {
    var c := p.coord;
    var v := p.direction == Vertical;
    var x2 := FencePlacing(if v then Top(c) else Left(c), p.direction);
    var x3 := FencePlacing(if v then Bottom(c) else Right(c), p.direction);
    var x4 := if v then FencePlacing(Left(Bottom(c)), Horizontal) else FencePlacing(Right(Top(c)), Vertical);
    var e0: set<FencePlacing> := {};
    var e1 := e0 + {p};
    var e2 := e1 + {x2};
    var e3 := e2 + {x3};
    RemoveFromValidAmong(b, s, e0, p);
    RemoveFromValidAmong(b, s, e1, x2);
    RemoveFromValidAmong(b, s, e2, x3);
    RemoveFromValidAmong(b, s, e3, x4);
    assert e3 + {x4} == Conflicts(p);
  }

  /**
   * The four removals keep the stored list equal to the locally valid slots:
   * if it held them before fence `f` was appended, it holds them after.
   */
  lemma FenceListUpdate(b: Board, f: Fence)
    ensures UpdateAfterFence(ValidAmong(b, AllSlots(b), {}), f.Placing())
      == ValidAmong(b.(fences := b.fences + [f]), AllSlots(b), {})
  {
    var s := AllSlots(b);
    AllSlotsDistinct(b);
    RemoveConflicts(b, s, f.Placing());
    ValidAmongAfterAppend(b, f, s, {});
    assert {} + Conflicts(f.Placing()) == Conflicts(f.Placing());
  }
}

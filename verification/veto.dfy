/**
 * The reachability checks of the board: `isValidFencePlacing` (local tests
 * plus the veto), `isFencePlacingBlocking`, `validFencePlacings` and
 * `getFencePlacingImpactOnPaths`. Each probes by appending a fence,
 * refreshing the pawn-blind block, searching, then popping the fence and
 * refreshing again.
 */
module Veto {
  import opened Grid
  import opened Fence
  import opened Board
  import opened Moves
  import opened Reach
  import opened FenceRules
  import opened Caches
  import opened Players
  import opened GameState
  import opened Seqs
  import opened Wrappers

  /** The table a full recomputation gives: every on-board cell. */
  function FullTable(b: Board, ignorePawns: bool): Table {
    map c | c in Cells(b.cols, b.rows) :: ValidPawnMoves(b, c, ignorePawns)
  }

  lemma FullTableWellFormed(b: Board)
    ensures WellFormed(FullTable(b, true), b.cols, b.rows)
  {
    var t: map<Coord, seq<PawnMove>> := FullTable(b, true);
    forall u: Coord, i: int | u in t && 0 <= i < |t[u]| ensures InBounds(b.cols, b.rows, t[u][i].to) {
      BlindMovesExact(b, u);
      var m: PawnMove := t[u][i];
      assert m in ValidPawnMoves(b, u, true);
    }
  }

  /** A link of the recomputed blind table is one open step between on-board cells. */
  lemma BlindLinks(b: Board, u: Coord, v: Coord)
    ensures Linked(FullTable(b, true), u, v) <==> InBoard(b, u) && exists d :: Open(b, u, d) && v == Step(u, d)
  {
    var t := FullTable(b, true);
    if InBoard(b, u) {
      BlindMovesExact(b, u);
      if exists d :: Open(b, u, d) && v == Step(u, d) {
        var d :| Open(b, u, d) && v == Step(u, d);
        var m := PawnMove(u, Step(u, d), None);
        assert m in t[u];
        var i :| 0 <= i < |t[u]| && t[u][i] == m;
      }
      if Linked(t, u, v) {
        var i :| 0 <= i < |t[u]| && t[u][i].to == v;
        assert t[u][i] in t[u];
      }
    }
  }

  /** A consistent stored blind table gives the same distances as a full recomputation. */
  lemma ConsistentDist(t: Table, b: Board, s: Coord, goals: set<Coord>)
    requires Consistent(t, b, true) && InBoard(b, s)
    ensures ShortestDist(t, b.cols, b.rows, s, goals) == ShortestDist(FullTable(b, true), b.cols, b.rows, s, goals)
  {
    FullTableWellFormed(b);
    ShortestDistAgree(FullTable(b, true), t, b.cols, b.rows, s, goals);
  }

  // ---- players' searches -------------------------------------------------------

  predicate AllPlaced(st: State) {
    forall i :: 0 <= i < |st.players| ==> PawnCoord(st.players, i).Some?
  }

  ghost predicate AllOnBoard(st: State)
    requires AllPlaced(st)
  {
    forall i :: 0 <= i < |st.players| ==> InBoard(BoardOf(st), PawnCoord(st.players, i).value)
  }

  function Goals(p: Player): set<Coord> {
    set c | c in p.endPositions
  }

  /** `len(BreadthFirstSearch(board, pawn.coord, endPositions, ignorePawns=True).moves)`, or None. */
  function PlayerDist(st: State, t: Table, i: nat): Option<nat>
    requires AllPlaced(st) && i < |st.players|
  {
    ShortestDist(t, st.cols, st.rows, PawnCoord(st.players, i).value, Goals(st.players[i]))
  }

  predicate AllHavePath(st: State, t: Table)
    requires AllPlaced(st)
  {
    forall i :: 0 <= i < |st.players| ==> PlayerDist(st, t, i).Some?
  }

  /** Some walk of open steps on `b` leads from `s` into `goals`. */
  ghost predicate HasPath(b: Board, s: Coord, goals: set<Coord>) {
    exists w, g :: g in goals && WalkTo(FullTable(b, true), w, s, g)
  }

  // ---- the probe -----------------------------------------------------------------

  function ProbeFence(p: FencePlacing): Fence {
    Fence(None, p.coord, p.direction)
  }

  function WithFence(st: State, p: FencePlacing): State {
    st.(fences := st.fences + [ProbeFence(p)])
  }

  /** The blind table after the probe fence is appended and its block refreshed. */
  function ProbeTable(st: State, p: FencePlacing): Table {
    Refresh(st.tables.blindMoves, BoardOf(WithFence(st, p)), BlindBlockSet(p), true)
  }

  /** The state after the fence is popped again and the block refreshed once more. */
  function Restored(st: State, p: FencePlacing): State {
    st.(tables := st.tables.(blindMoves := Refresh(ProbeTable(st, p), BoardOf(st), BlindBlockSet(p), true)))
  }

  /** `isValidFencePlacing`: the local tests, then the veto; the flag and the state afterwards. */
  function IsValidFencePlacing(st: State, p: FencePlacing): (bool, State)
    requires AllPlaced(st)
  {
    if !IsLocallyValid(BoardOf(st), p) then (false, st)
    else (AllHavePath(st, ProbeTable(st, p)), Restored(st, p))
  }

  /** `isFencePlacingBlocking`: the veto alone, true when some player would be stranded. */
  function IsFencePlacingBlocking(st: State, p: FencePlacing): (bool, State)
    requires AllPlaced(st)
  {
    (!AllHavePath(st, ProbeTable(st, p)), Restored(st, p))
  }

  lemma WithFenceBoard(st: State, p: FencePlacing)
    ensures BoardOf(WithFence(st, p)) == BoardOf(st).(fences := BoardOf(st).fences + [ProbeFence(p)])
    ensures WithFence(st, p).players == st.players
  {
  }

  /** The probe table is the recomputed blind table of the board with the fence added. */
  lemma ProbeTableConsistent(st: State, p: FencePlacing)
    requires Consistent(st.tables.blindMoves, BoardOf(st), true)
    ensures Consistent(ProbeTable(st, p), BoardOf(WithFence(st, p)), true)
  {
    var b := BoardOf(st);
    WithFenceBoard(st, p);
    AppendDiffersOnlyAt(b.fences, ProbeFence(p));
    FenceBlockSound(st.tables.blindMoves, b, BoardOf(WithFence(st, p)), p, {});
  }

  /** Popping the probe leaves the fences as they were and the tables consistent. */
  lemma RestoredKeepsInv(st: State, p: FencePlacing)
    requires Inv(st)
    ensures Restored(st, p).fences == st.fences && BoardOf(Restored(st, p)) == BoardOf(st)
    ensures Inv(Restored(st, p))
  {
    var b := BoardOf(st);
    var b1 := BoardOf(WithFence(st, p));
    ProbeTableConsistent(st, p);
    WithFenceBoard(st, p);
    AppendDiffersOnlyAt(b.fences, ProbeFence(p));
    FenceBlockSound(ProbeTable(st, p), b1, b, p, {});
  }

  /** When the block lies on the board, popping the probe restores the state exactly. */
  lemma RestoredIsIdentity(st: State, p: FencePlacing)
    requires Inv(st)
    requires forall y :: y in Block(p) ==> InBoard(BoardOf(st), y)
    ensures Restored(st, p) == st
  {
    var b, R := BoardOf(st), BlindBlockSet(p);
    BlindBlockIsBlock(p);
    forall c | c in R ensures c in st.tables.blindMoves && st.tables.blindMoves[c] == ValidPawnMoves(b, c, true) {
      assert InBoard(b, c);
    }
    RefreshRestores(st.tables.blindMoves, BoardOf(WithFence(st, p)), b, R);
  }

  /** Refreshing a set of entries that already held the recomputed moves, after any other refresh of them, restores the table. */
  lemma RefreshRestores(t0: Table, b1: Board, b: Board, R: set<Coord>)
    requires forall c :: c in R ==> c in t0 && t0[c] == ValidPawnMoves(b, c, true)
    ensures Refresh(Refresh(t0, b1, R, true), b, R, true) == t0
  {
    var t2 := Refresh(Refresh(t0, b1, R, true), b, R, true);
    assert t2.Keys == t0.Keys;
    forall c | c in t0 ensures t2[c] == t0[c] {
      if c !in R {
        assert Refresh(t0, b1, R, true)[c] == t0[c];
      }
    }
  }

  /** The players' searches on the probe table are searches on the board with the fence added. */
  lemma ProbeDist(st: State, p: FencePlacing, i: nat)
    requires Inv(st) && AllPlaced(st) && AllOnBoard(st) && i < |st.players|
    ensures PlayerDist(st, ProbeTable(st, p), i).Some? <==>
      HasPath(BoardOf(WithFence(st, p)), PawnCoord(st.players, i).value, Goals(st.players[i]))
  {
    var b1 := BoardOf(WithFence(st, p));
    var s := PawnCoord(st.players, i).value;
    ProbeTableConsistent(st, p);
    ConsistentDist(ProbeTable(st, p), b1, s, Goals(st.players[i]));
    FullTableWellFormed(b1);
    ShortestDistIsShortestWalk(FullTable(b1, true), b1.cols, b1.rows, s, Goals(st.players[i]));
  }

  /**
   * The veto: a placing is accepted exactly when it passes the local tests
   * and every player still has a walk of open steps to a goal with the fence
   * added. Afterwards the fences are as before and the tables consistent.
   */
  lemma IsValidFencePlacingExact(st: State, p: FencePlacing)
    requires Inv(st) && AllPlaced(st) && AllOnBoard(st)
    ensures var (ok, st') := IsValidFencePlacing(st, p);
      && (ok <==> (IsLocallyValid(BoardOf(st), p) &&
            forall i :: 0 <= i < |st.players| ==> HasPath(BoardOf(WithFence(st, p)), PawnCoord(st.players, i).value, Goals(st.players[i]))))
      && st'.fences == st.fences && BoardOf(st') == BoardOf(st) && Inv(st')
  {
    forall i | 0 <= i < |st.players| ensures PlayerDist(st, ProbeTable(st, p), i).Some? <==>
      HasPath(BoardOf(WithFence(st, p)), PawnCoord(st.players, i).value, Goals(st.players[i]))
    {
      ProbeDist(st, p, i);
    }
    RestoredKeepsInv(st, p);
  }

  /** An on-board, locally valid placing has its block on the board, so the probe leaves no trace. */
  lemma IsValidFencePlacingRestores(st: State, p: FencePlacing)
    requires Inv(st) && AllPlaced(st) && InBoard(BoardOf(st), p.coord)
    ensures IsValidFencePlacing(st, p).1 == st
  {
    if IsLocallyValid(BoardOf(st), p) {
      LocallyValidBlockOnBoard(BoardOf(st), p);
      RestoredIsIdentity(st, p);
    }
  }

  /** A locally valid placing at an on-board cell is off the far edges, so its whole block is on the board. */
  lemma LocallyValidBlockOnBoard(b: Board, p: FencePlacing)
    requires InBoard(b, p.coord) && IsLocallyValid(b, p)
    ensures forall y :: y in Block(p) ==> InBoard(b, y)
  {
    assert !OnEdgeSlot(b, p);
  }

  /** `isFencePlacingBlocking` is the negated veto, with the same revert. */
  lemma IsFencePlacingBlockingExact(st: State, p: FencePlacing)
    requires Inv(st) && AllPlaced(st) && AllOnBoard(st)
    ensures var (blocking, st') := IsFencePlacingBlocking(st, p);
      && (blocking <==> (exists i :: 0 <= i < |st.players| && !HasPath(BoardOf(WithFence(st, p)), PawnCoord(st.players, i).value, Goals(st.players[i]))))
      && st'.fences == st.fences && Inv(st')
  {
    forall i | 0 <= i < |st.players| ensures PlayerDist(st, ProbeTable(st, p), i).Some? <==>
      HasPath(BoardOf(WithFence(st, p)), PawnCoord(st.players, i).value, Goals(st.players[i]))
    {
      ProbeDist(st, p, i);
    }
    RestoredKeepsInv(st, p);
  }

  /** The two checks agree on locally valid placings. */
  lemma ValidIsLocalAndNotBlocking(st: State, p: FencePlacing)
    requires AllPlaced(st)
    ensures IsValidFencePlacing(st, p).0 <==> IsLocallyValid(BoardOf(st), p) && !IsFencePlacingBlocking(st, p).0
  {
  }

  // ---- validFencePlacings ------------------------------------------------------------

  /** The full check of one slot on the unchanged board. */
  ghost predicate Accepted(st: State, p: FencePlacing)
    requires AllPlaced(st)
  {
    IsLocallyValid(BoardOf(st), p) &&
      forall i :: 0 <= i < |st.players| ==> HasPath(BoardOf(WithFence(st, p)), PawnCoord(st.players, i).value, Goals(st.players[i]))
  }

  /** `validFencePlacings` over `slots`, threading the state through each check. */
  function ValidFencePlacingsOf(st: State, slots: seq<FencePlacing>): (seq<FencePlacing>, State)
    requires AllPlaced(st)
    decreases |slots|
  {
    if slots == [] then ([], st)
    else
      var probe := IsValidFencePlacing(st, slots[0]);
      assert probe.1.players == st.players;
      var rest := ValidFencePlacingsOf(probe.1, slots[1..]);
      ((if probe.0 then [slots[0]] else []) + rest.0, rest.1)
  }

  /** `validFencePlacings`: every slot, horizontal first at each cell, in column-major order. */
  function ValidFencePlacings(st: State): (seq<FencePlacing>, State)
    requires AllPlaced(st)
  {
    ValidFencePlacingsOf(st, AllSlots(BoardOf(st)))
  }

  ghost function AcceptedAmong(st: State, slots: seq<FencePlacing>): seq<FencePlacing>
    requires AllPlaced(st)
  {
    if slots == [] then [] else (if Accepted(st, slots[0]) then [slots[0]] else []) + AcceptedAmong(st, slots[1..])
  }

  lemma AcceptedSameBoard(st1: State, st2: State, slots: seq<FencePlacing>)
    requires AllPlaced(st1) && BoardOf(st1) == BoardOf(st2) && st1.players == st2.players
    ensures AllPlaced(st2) && AcceptedAmong(st1, slots) == AcceptedAmong(st2, slots)
  {
    if slots != [] {
      assert BoardOf(WithFence(st1, slots[0])) == BoardOf(WithFence(st2, slots[0]));
      AcceptedSameBoard(st1, st2, slots[1..]);
    }
  }

  lemma {:induction false} ValidFencePlacingsOfExact(st: State, slots: seq<FencePlacing>)
    requires Inv(st) && AllPlaced(st) && AllOnBoard(st)
    ensures ValidFencePlacingsOf(st, slots).0 == AcceptedAmong(st, slots)
    ensures BoardOf(ValidFencePlacingsOf(st, slots).1) == BoardOf(st) && Inv(ValidFencePlacingsOf(st, slots).1)
    decreases |slots|
  {
    if slots != [] {
      var probe := IsValidFencePlacing(st, slots[0]);
      IsValidFencePlacingExact(st, slots[0]);
      assert probe.0 == Accepted(st, slots[0]);
      var st1 := probe.1;
      assert st1.players == st.players && BoardOf(st1) == BoardOf(st);
      assert AllOnBoard(st1);
      ValidFencePlacingsOfExact(st1, slots[1..]);
      AcceptedSameBoard(st, st1, slots[1..]);
    }
  }

  /** `validFencePlacings` lists, in slot order, exactly the placings the full check accepts, and changes no fence. */
  lemma ValidFencePlacingsExact(st: State)
    requires Inv(st) && AllPlaced(st) && AllOnBoard(st)
    ensures ValidFencePlacings(st).0 == AcceptedAmong(st, AllSlots(BoardOf(st)))
    ensures ValidFencePlacings(st).1.fences == st.fences && Inv(ValidFencePlacings(st).1)
  {
    ValidFencePlacingsOfExact(st, AllSlots(BoardOf(st)));
  }

  // ---- getFencePlacingImpactOnPaths -------------------------------------------------

  /** One entry of a Python dict keyed by player name. */
  datatype Entry = Entry(key: Option<string>, value: int)

  /** A dict as its insertion-ordered entries. */
  type Dict = seq<Entry>

  function Keys(d: Dict): set<Option<string>> {
    set e | e in d :: e.key
  }

  lemma KeysCons(d: Dict)
    requires d != []
    ensures Keys(d) == {d[0].key} + Keys(d[1..])
  {
    assert d == [d[0]] + d[1..];
  }

  /** `d[k]`, or None where Python raises KeyError. */
  function DictGet(d: Dict, k: Option<string>): (r: Option<int>)
    ensures r.Some? <==> k in Keys(d)
  {
    if d == [] then None
    else
      KeysCons(d);
      if d[0].key == k then Some(d[0].value) else DictGet(d[1..], k)
  }

  /** `d[k] = v`: an existing key keeps its place, a new one goes last. */
  function DictPut(d: Dict, k: Option<string>, v: int): Dict {
    if d == [] then [Entry(k, v)]
    else if d[0].key == k then [Entry(k, v)] + d[1..]
    else [d[0]] + DictPut(d[1..], k, v)
  }

  /** Writing a key sets it, leaves every other key alone and adds only that key. */
  lemma {:induction false} DictPutGet(d: Dict, k: Option<string>, v: int, k': Option<string>)
    ensures DictGet(DictPut(d, k, v), k') == if k' == k then Some(v) else DictGet(d, k')
    ensures Keys(DictPut(d, k, v)) == Keys(d) + {k}
  {
    var r := DictPut(d, k, v);
    KeysCons(r);
    if d != [] {
      KeysCons(d);
      if d[0].key != k {
        DictPutGet(d[1..], k, v, k');
        assert r[1..] == DictPut(d[1..], k, v);
      } else {
        assert r[1..] == d[1..];
      }
    }
  }

  function KeysFrom<T>(s: seq<T>, i: nat): set<T> {
    set j | i <= j < |s| :: s[j]
  }

  lemma KeysFromStep<T>(s: seq<T>, i: nat)
    requires i < |s|
    ensures KeysFrom(s, i) == {s[i]} + KeysFrom(s, i + 1)
  {
  }

  /**
   * The first loop, over the players' names and search results in turn:
   * the dict of path lengths, or None at the first player already blocked.
   */
  function LengthsBefore(names: seq<Option<string>>, dists: seq<Option<nat>>, i: nat, acc: Dict): Option<Dict>
    requires |names| == |dists| && i <= |names|
    decreases |names| - i
  {
    if i == |names| then Some(acc)
    else match dists[i]
      case None => None
      case Some(n) => LengthsBefore(names, dists, i + 1, DictPut(acc, names[i], n))
  }

  /**
   * The second loop: the dict of changes in path length, or the index of
   * the first player stranded.
   */
  function Deltas(names: seq<Option<string>>, dists: seq<Option<nat>>, before: Dict, i: nat, acc: Dict): Result<Dict, nat>
    requires |names| == |dists| && i <= |names|
    requires KeysFrom(names, i) <= Keys(before)
    decreases |names| - i
  {
    if i == |names| then Success(acc)
    else
      KeysFromStep(names, i);
      match dists[i]
      case None => Failure(i)
      case Some(n) => Deltas(names, dists, before, i + 1, DictPut(acc, names[i], n - DictGet(before, names[i]).value))
  }

  lemma {:induction false} LengthsBeforeSome(names: seq<Option<string>>, dists: seq<Option<nat>>, i: nat, acc: Dict)
    requires |names| == |dists| && i <= |names|
    ensures LengthsBefore(names, dists, i, acc).Some? <==> forall j :: i <= j < |dists| ==> dists[j].Some?
    decreases |names| - i
  {
    if i < |names| && dists[i].Some? {
      LengthsBeforeSome(names, dists, i + 1, DictPut(acc, names[i], dists[i].value));
    }
  }

  lemma {:induction false} LengthsBeforeKeys(names: seq<Option<string>>, dists: seq<Option<nat>>, i: nat, acc: Dict)
    requires |names| == |dists| && i <= |names|
    requires LengthsBefore(names, dists, i, acc).Some?
    ensures Keys(LengthsBefore(names, dists, i, acc).value) == Keys(acc) + KeysFrom(names, i)
    decreases |names| - i
  {
    if i < |names| {
      KeysFromStep(names, i);
      DictPutGet(acc, names[i], dists[i].value, names[i]);
      LengthsBeforeKeys(names, dists, i + 1, DictPut(acc, names[i], dists[i].value));
    }
  }

  lemma {:induction false} LengthsBeforeValues(names: seq<Option<string>>, dists: seq<Option<nat>>, i: nat, acc: Dict, j: nat)
    requires |names| == |dists| && i <= |names| && j < |names| && Distinct(names)
    requires LengthsBefore(names, dists, i, acc).Some?
    ensures DictGet(LengthsBefore(names, dists, i, acc).value, names[j]) == if j < i then DictGet(acc, names[j]) else dists[j]
    decreases |names| - i
  {
    if i < |names| {
      var n := dists[i].value;
      DictPutGet(acc, names[i], n, names[j]);
      LengthsBeforeValues(names, dists, i + 1, DictPut(acc, names[i], n), j);
    }
  }

  lemma {:induction false} DeltasSuccess(names: seq<Option<string>>, dists: seq<Option<nat>>, before: Dict, i: nat, acc: Dict)
    requires |names| == |dists| && i <= |names| && KeysFrom(names, i) <= Keys(before)
    ensures Deltas(names, dists, before, i, acc).Success? <==> forall j :: i <= j < |dists| ==> dists[j].Some?
    decreases |names| - i
  {
    if i < |names| {
      KeysFromStep(names, i);
      if dists[i].Some? {
        var v := dists[i].value - DictGet(before, names[i]).value;
        DeltasSuccess(names, dists, before, i + 1, DictPut(acc, names[i], v));
      }
    }
  }

  lemma {:induction false} DeltasFailure(names: seq<Option<string>>, dists: seq<Option<nat>>, before: Dict, i: nat, acc: Dict)
    requires |names| == |dists| && i <= |names| && KeysFrom(names, i) <= Keys(before)
    requires Deltas(names, dists, before, i, acc).Failure?
    ensures var k := Deltas(names, dists, before, i, acc).error;
      i <= k < |dists| && dists[k].None? && forall j :: i <= j < k ==> dists[j].Some?
    decreases |names| - i
  {
    KeysFromStep(names, i);
    if dists[i].Some? {
      var v := dists[i].value - DictGet(before, names[i]).value;
      DeltasFailure(names, dists, before, i + 1, DictPut(acc, names[i], v));
    }
  }

  lemma {:induction false} DeltasKeys(names: seq<Option<string>>, dists: seq<Option<nat>>, before: Dict, i: nat, acc: Dict)
    requires |names| == |dists| && i <= |names| && KeysFrom(names, i) <= Keys(before)
    requires Deltas(names, dists, before, i, acc).Success?
    ensures Keys(Deltas(names, dists, before, i, acc).value) == Keys(acc) + KeysFrom(names, i)
    decreases |names| - i
  {
    if i < |names| {
      KeysFromStep(names, i);
      var v := dists[i].value - DictGet(before, names[i]).value;
      var acc1 := DictPut(acc, names[i], v);
      assert Deltas(names, dists, before, i, acc) == Deltas(names, dists, before, i + 1, acc1);
      DictPutGet(acc, names[i], v, names[i]);
      DeltasKeys(names, dists, before, i + 1, acc1);
    }
  }

  lemma {:induction false} DeltasValues(names: seq<Option<string>>, dists: seq<Option<nat>>, before: Dict, i: nat, acc: Dict, j: nat)
    requires |names| == |dists| && i <= |names| && j < |names| && Distinct(names)
    requires KeysFrom(names, 0) <= Keys(before)
    requires Deltas(names, dists, before, i, acc).Success?
    ensures names[j] in Keys(before) && (i <= j ==> dists[j].Some?)
    ensures DictGet(Deltas(names, dists, before, i, acc).value, names[j]) ==
      if j < i then DictGet(acc, names[j]) else Some(dists[j].value - DictGet(before, names[j]).value)
    decreases |names| - i
  {
    assert names[j] in KeysFrom(names, 0);
    assert KeysFrom(names, i) <= KeysFrom(names, 0);
    DeltasSuccess(names, dists, before, i, acc);
    if i < |names| {
      KeysFromStep(names, i);
      var v := dists[i].value - DictGet(before, names[i]).value;
      var acc1 := DictPut(acc, names[i], v);
      assert Deltas(names, dists, before, i, acc) == Deltas(names, dists, before, i + 1, acc1);
      DictPutGet(acc, names[i], v, names[j]);
      DeltasValues(names, dists, before, i + 1, acc1, j);
    }
  }

  /** Why `getFencePlacingImpactOnPaths` returns: None, the exception, or the dict of changes. */
  datatype Impact = AlreadyBlocked | Obstructed(player: nat) | Impacts(deltas: Dict)

  function Names(players: seq<Player>): (r: seq<Option<string>>)
    ensures |r| == |players| && forall i :: 0 <= i < |players| ==> r[i] == players[i].name
  {
    seq(|players|, i requires 0 <= i < |players| => players[i].name)
  }

  /** Each player's search on `t`, in player order. */
  function Searches(st: State, t: Table): (r: seq<Option<nat>>)
    requires AllPlaced(st)
    ensures |r| == |st.players| && forall i :: 0 <= i < |st.players| ==> r[i] == PlayerDist(st, t, i)
  {
    seq(|st.players|, i requires 0 <= i < |st.players| => PlayerDist(st, t, i))
  }

  /** The outcome of both loops, from the names and the searches before and after the fence. */
  function ImpactOf(names: seq<Option<string>>, d0: seq<Option<nat>>, d1: seq<Option<nat>>): Impact
    requires |names| == |d0| == |d1|
  {
    match LengthsBefore(names, d0, 0, [])
    case None => AlreadyBlocked
    case Some(before) =>
      LengthsBeforeKeys(names, d0, 0, []);
      match Deltas(names, d1, before, 0, [])
      case Failure(j) => Obstructed(j)
      case Success(d) => Impacts(d)
  }

  /** `getFencePlacingImpactOnPaths`: the outcome and the state once the probe is popped. */
  function GetFencePlacingImpactOnPaths(st: State, p: FencePlacing): (Impact, State)
    requires AllPlaced(st)
  {
    var r := ImpactOf(Names(st.players), Searches(st, st.tables.blindMoves), Searches(st, ProbeTable(st, p)));
    (r, if r.AlreadyBlocked? then st else Restored(st, p))
  }

  /** The outcome in terms of the searches alone. */
  lemma ImpactOfExact(names: seq<Option<string>>, d0: seq<Option<nat>>, d1: seq<Option<nat>>)
    requires |names| == |d0| == |d1|
    ensures var r := ImpactOf(names, d0, d1);
      && (r.AlreadyBlocked? <==> exists i :: 0 <= i < |d0| && d0[i].None?)
      && (r.Obstructed? ==>
            (forall i :: 0 <= i < |d0| ==> d0[i].Some?) &&
            r.player < |d1| && d1[r.player].None? && forall i :: 0 <= i < r.player ==> d1[i].Some?)
      && (r.Impacts? ==>
            (forall i :: 0 <= i < |d0| ==> d0[i].Some? && d1[i].Some?) && Keys(r.deltas) == KeysFrom(names, 0))
  {
    LengthsBeforeSome(names, d0, 0, []);
    match LengthsBefore(names, d0, 0, [])
    case None =>
    case Some(before) =>
      LengthsBeforeKeys(names, d0, 0, []);
      DeltasSuccess(names, d1, before, 0, []);
      if Deltas(names, d1, before, 0, []).Failure? {
        DeltasFailure(names, d1, before, 0, []);
      } else {
        DeltasKeys(names, d1, before, 0, []);
      }
  }

  /** With distinct names, each entry is the search after minus the search before. */
  lemma ImpactOfValues(names: seq<Option<string>>, d0: seq<Option<nat>>, d1: seq<Option<nat>>, i: nat)
    requires |names| == |d0| == |d1| && Distinct(names) && i < |names|
    requires ImpactOf(names, d0, d1).Impacts?
    ensures d0[i].Some? && d1[i].Some?
    ensures DictGet(ImpactOf(names, d0, d1).deltas, names[i]) == Some(d1[i].value as int - d0[i].value)
  {
    ImpactOfExact(names, d0, d1);
    LengthsBeforeSome(names, d0, 0, []);
    var before := LengthsBefore(names, d0, 0, []).value;
    LengthsBeforeKeys(names, d0, 0, []);
    LengthsBeforeValues(names, d0, 0, [], i);
    DeltasValues(names, d1, before, 0, [], i);
  }

  /** The length of a shortest walk of open steps on `b`, from a full search. */
  ghost function BoardDist(b: Board, s: Coord, goals: set<Coord>): Option<nat> {
    ShortestDist(FullTable(b, true), b.cols, b.rows, s, goals)
  }

  lemma BoardDistMeaning(b: Board, s: Coord, goals: set<Coord>)
    ensures BoardDist(b, s, goals).Some? <==> HasPath(b, s, goals)
  {
    FullTableWellFormed(b);
    ShortestDistIsShortestWalk(FullTable(b, true), b.cols, b.rows, s, goals);
  }

  /** A player's search on a consistent stored table is the full search. */
  lemma StoredDist(st: State, t: Table, b: Board, i: nat)
    requires AllPlaced(st) && i < |st.players|
    requires b.cols == st.cols && b.rows == st.rows && InBoard(b, PawnCoord(st.players, i).value)
    requires Consistent(t, b, true)
    ensures PlayerDist(st, t, i) == BoardDist(b, PawnCoord(st.players, i).value, Goals(st.players[i]))
  {
    ConsistentDist(t, b, PawnCoord(st.players, i).value, Goals(st.players[i]));
  }

  /** The distance of player `i` on `b`. */
  ghost function Dist(st: State, b: Board, i: nat): Option<nat>
    requires AllPlaced(st) && i < |st.players|
  {
    BoardDist(b, PawnCoord(st.players, i).value, Goals(st.players[i]))
  }

  lemma DistsOnBoards(st: State, p: FencePlacing)
    requires Inv(st) && AllPlaced(st) && AllOnBoard(st)
    ensures forall i :: 0 <= i < |st.players| ==>
      PlayerDist(st, st.tables.blindMoves, i) == Dist(st, BoardOf(st), i) &&
      PlayerDist(st, ProbeTable(st, p), i) == Dist(st, BoardOf(WithFence(st, p)), i)
  {
    ProbeTableConsistent(st, p);
    forall i | 0 <= i < |st.players|
      ensures PlayerDist(st, st.tables.blindMoves, i) == Dist(st, BoardOf(st), i)
      ensures PlayerDist(st, ProbeTable(st, p), i) == Dist(st, BoardOf(WithFence(st, p)), i)
    {
      StoredDist(st, st.tables.blindMoves, BoardOf(st), i);
      StoredDist(st, ProbeTable(st, p), BoardOf(WithFence(st, p)), i);
    }
  }

  /**
   * The impact query: None exactly when some player is already cut off;
   * the exception names the first player the fence would strand; otherwise
   * every player has a path both before and after, and the dict holds one
   * key per player name. The probe leaves the fences as they were.
   */
  lemma ImpactExact(st: State, p: FencePlacing)
    requires Inv(st) && AllPlaced(st) && AllOnBoard(st)
    ensures var (r, st') := GetFencePlacingImpactOnPaths(st, p);
      var b, b1 := BoardOf(st), BoardOf(WithFence(st, p));
      && (r.AlreadyBlocked? <==> exists i :: 0 <= i < |st.players| && Dist(st, b, i).None?)
      && (r.Obstructed? ==>
            (forall i :: 0 <= i < |st.players| ==> Dist(st, b, i).Some?) &&
            r.player < |st.players| && Dist(st, b1, r.player).None? &&
            forall i :: 0 <= i < r.player ==> Dist(st, b1, i).Some?)
      && (r.Impacts? ==>
            (forall i :: 0 <= i < |st.players| ==> Dist(st, b, i).Some? && Dist(st, b1, i).Some?) &&
            Keys(r.deltas) == KeysFrom(Names(st.players), 0))
      && st'.fences == st.fences && Inv(st')
  {
    ImpactOutcome(st, p);
    RestoredKeepsInv(st, p);
  }

  lemma ImpactOutcome(st: State, p: FencePlacing)
    requires Inv(st) && AllPlaced(st) && AllOnBoard(st)
    ensures var r := ImpactOf(Names(st.players), Searches(st, st.tables.blindMoves), Searches(st, ProbeTable(st, p)));
      var b, b1 := BoardOf(st), BoardOf(WithFence(st, p));
      && (r.AlreadyBlocked? <==> exists i :: 0 <= i < |st.players| && Dist(st, b, i).None?)
      && (r.Obstructed? ==>
            (forall i :: 0 <= i < |st.players| ==> Dist(st, b, i).Some?) &&
            r.player < |st.players| && Dist(st, b1, r.player).None? &&
            forall i :: 0 <= i < r.player ==> Dist(st, b1, i).Some?)
      && (r.Impacts? ==>
            (forall i :: 0 <= i < |st.players| ==> Dist(st, b, i).Some? && Dist(st, b1, i).Some?) &&
            Keys(r.deltas) == KeysFrom(Names(st.players), 0))
  {
    var d0, d1 := Searches(st, st.tables.blindMoves), Searches(st, ProbeTable(st, p));
    DistsOnBoards(st, p);
    ImpactOfExact(Names(st.players), d0, d1);
    OutcomeOnBoards(st, p, ImpactOf(Names(st.players), d0, d1), d0, d1);
  }

  /** Restating an outcome over the searches as one over the distances they equal. */
  lemma OutcomeOnBoards(st: State, p: FencePlacing, r: Impact, d0: seq<Option<nat>>, d1: seq<Option<nat>>)
    requires AllPlaced(st) && |d0| == |d1| == |st.players|
    requires forall i :: 0 <= i < |st.players| ==>
      d0[i] == Dist(st, BoardOf(st), i) && d1[i] == Dist(st, BoardOf(WithFence(st, p)), i)
    requires r.AlreadyBlocked? <==> exists i :: 0 <= i < |d0| && d0[i].None?
    requires r.Obstructed? ==>
      (forall i :: 0 <= i < |d0| ==> d0[i].Some?) && r.player < |d1| && d1[r.player].None? && forall i :: 0 <= i < r.player ==> d1[i].Some?
    requires r.Impacts? ==> (forall i :: 0 <= i < |d0| ==> d0[i].Some? && d1[i].Some?) && Keys(r.deltas) == KeysFrom(Names(st.players), 0)
    ensures var b, b1 := BoardOf(st), BoardOf(WithFence(st, p));
      && (r.AlreadyBlocked? <==> exists i :: 0 <= i < |st.players| && Dist(st, b, i).None?)
      && (r.Obstructed? ==>
            (forall i :: 0 <= i < |st.players| ==> Dist(st, b, i).Some?) &&
            r.player < |st.players| && Dist(st, b1, r.player).None? &&
            forall i :: 0 <= i < r.player ==> Dist(st, b1, i).Some?)
      && (r.Impacts? ==>
            (forall i :: 0 <= i < |st.players| ==> Dist(st, b, i).Some? && Dist(st, b1, i).Some?) &&
            Keys(r.deltas) == KeysFrom(Names(st.players), 0))
  {
  }

  /** The searches `getFencePlacingImpactOnPaths` runs are the full searches before and after the fence. */
  lemma SearchesAt(st: State, p: FencePlacing, i: nat)
    requires Consistent(st.tables.blindMoves, BoardOf(st), true) && AllPlaced(st) && AllOnBoard(st) && i < |st.players|
    ensures Searches(st, st.tables.blindMoves)[i] == Dist(st, BoardOf(st), i)
    ensures Searches(st, ProbeTable(st, p))[i] == Dist(st, BoardOf(WithFence(st, p)), i)
  {
    ProbeTableConsistent(st, p);
    StoredDist(st, st.tables.blindMoves, BoardOf(st), i);
    StoredDist(st, ProbeTable(st, p), BoardOf(WithFence(st, p)), i);
  }

  /** The entry of player `i` in terms of the two searches. */
  lemma ImpactAt(st: State, p: FencePlacing, i: nat)
    requires AllPlaced(st) && Distinct(Names(st.players)) && i < |st.players|
    requires GetFencePlacingImpactOnPaths(st, p).0.Impacts?
    ensures var d0, d1 := Searches(st, st.tables.blindMoves), Searches(st, ProbeTable(st, p));
      && d0[i].Some? && d1[i].Some?
      && DictGet(GetFencePlacingImpactOnPaths(st, p).0.deltas, st.players[i].name) == Some(d1[i].value as int - d0[i].value)
  {
    ImpactOfValues(Names(st.players), Searches(st, st.tables.blindMoves), Searches(st, ProbeTable(st, p)), i);
  }
}

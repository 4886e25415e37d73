/**
 * The signed impact score shared by the fence searches
 * (`DivideAndConquer._calculateScore` and the loop body of
 * `greedyFencePlacing`), and the stability of the impact query: a probe
 * leaves a state that answers every later probe as the original would.
 */
module Scoring {
  import opened Grid
  import opened Fence
  import opened Board
  import opened FenceRules
  import opened Caches
  import opened Players
  import opened GameState
  import opened Veto
  import opened Seqs
  import opened Wrappers
  import opened Infinity

  /** One entry's contribution: the player's own change counts against them. */
  function Signed(e: Entry, me: Option<string>): int {
    if e.key == me then -e.value else e.value
  }

  /** The signed sum over the dict's entries. */
  function SignedSum(d: Dict, me: Option<string>): int {
    if d == [] then 0 else Signed(d[0], me) + SignedSum(d[1..], me)
  }

  /** `_calculateScore`: -infinity for None, else the signed sum. The exception never reaches it. */
  function CalculateScore(impact: Impact, me: Option<string>): (r: Score)
    requires !impact.Obstructed?
    ensures r.NegInf? <==> impact.AlreadyBlocked?
  {
    match impact
    case AlreadyBlocked => NegInf
    case Impacts(d) => Val(SignedSum(d, me))
  }

  lemma {:induction false} SignedSumAppend(d: Dict, e: Entry, me: Option<string>)
    ensures SignedSum(d + [e], me) == SignedSum(d, me) + Signed(e, me)
  {
    if d != [] {
      assert (d + [e])[1..] == d[1..] + [e];
      SignedSumAppend(d[1..], e, me);
    }
  }

  /** Writing a key the dict does not hold appends it. */
  lemma {:induction false} DictPutNew(d: Dict, k: Option<string>, v: int)
    requires k !in Keys(d)
    ensures DictPut(d, k, v) == d + [Entry(k, v)]
  {
    if d != [] {
      KeysCons(d);
      DictPutNew(d[1..], k, v);
      assert d == [d[0]] + d[1..];
    }
  }

  /**
   * The reference score: over the players from `i` on, the change in path
   * length of the others minus the player's own.
   */
  function ImpactSum(names: seq<Option<string>>, d0: seq<Option<nat>>, d1: seq<Option<nat>>, me: Option<string>, i: nat): int
    requires |names| == |d0| == |d1| && i <= |names|
    requires forall j :: i <= j < |names| ==> d0[j].Some? && d1[j].Some?
    decreases |names| - i
  {
    if i == |names| then 0
    else Signed(Entry(names[i], d1[i].value as int - d0[i].value), me) + ImpactSum(names, d0, d1, me, i + 1)
  }

  /** The second loop's dict, summed, from player `i` on. */
  lemma {:induction false} DeltasSum(names: seq<Option<string>>, d0: seq<Option<nat>>, d1: seq<Option<nat>>, before: Dict, i: nat, acc: Dict, me: Option<string>)
    requires |names| == |d0| == |d1| && i <= |names| && Distinct(names)
    requires KeysFrom(names, i) <= Keys(before)
    requires forall j :: i <= j < |names| ==> d0[j].Some? && d1[j].Some? && DictGet(before, names[j]) == Some(d0[j].value as int)
    requires forall j :: i <= j < |names| ==> names[j] !in Keys(acc)
    ensures Deltas(names, d1, before, i, acc).Success?
    ensures SignedSum(Deltas(names, d1, before, i, acc).value, me) == SignedSum(acc, me) + ImpactSum(names, d0, d1, me, i)
    decreases |names| - i
  {
    if i < |names| {
      var acc1 := DeltasStep(names, d0, d1, before, i, acc, me);
      DeltasSum(names, d0, d1, before, i + 1, acc1, me);
    }
  }

  /**
   * One turn of the second loop: the dict it passes on, which still lacks
   * the later names and whose sum grows by the player's signed change.
   */
  lemma DeltasStep(names: seq<Option<string>>, d0: seq<Option<nat>>, d1: seq<Option<nat>>, before: Dict, i: nat, acc: Dict, me: Option<string>)
    returns (acc1: Dict)
    requires |names| == |d0| == |d1| && i < |names| && Distinct(names)
    requires KeysFrom(names, i) <= Keys(before)
    requires forall j :: i <= j < |names| ==> d0[j].Some? && d1[j].Some? && DictGet(before, names[j]) == Some(d0[j].value as int)
    requires forall j :: i <= j < |names| ==> names[j] !in Keys(acc)
    ensures KeysFrom(names, i + 1) <= Keys(before)
    ensures Deltas(names, d1, before, i, acc) == Deltas(names, d1, before, i + 1, acc1)
    ensures forall j :: i + 1 <= j < |names| ==> names[j] !in Keys(acc1)
    ensures SignedSum(acc1, me) + ImpactSum(names, d0, d1, me, i + 1) == SignedSum(acc, me) + ImpactSum(names, d0, d1, me, i)
  {
    KeysFromStep(names, i);
    var v := d1[i].value - DictGet(before, names[i]).value;
    acc1 := DictPut(acc, names[i], v);
    DictPutNew(acc, names[i], v);
    SignedSumAppend(acc, Entry(names[i], v), me);
    forall j | i + 1 <= j < |names| ensures names[j] !in Keys(acc1) {
      DictPutGet(acc, names[i], v, names[j]);
    }
  }

  /** With distinct names, the score of a returned dict is the reference sum over the players. */
  lemma ScoreOfImpact(names: seq<Option<string>>, d0: seq<Option<nat>>, d1: seq<Option<nat>>, me: Option<string>)
    requires |names| == |d0| == |d1| && Distinct(names)
    requires ImpactOf(names, d0, d1).Impacts?
    ensures forall j :: 0 <= j < |names| ==> d0[j].Some? && d1[j].Some?
    ensures CalculateScore(ImpactOf(names, d0, d1), me) == Val(ImpactSum(names, d0, d1, me, 0))
  {
    ImpactOfExact(names, d0, d1);
    LengthsBeforeSome(names, d0, 0, []);
    var before := LengthsBefore(names, d0, 0, []).value;
    LengthsBeforeKeys(names, d0, 0, []);
    forall j | 0 <= j < |names| ensures DictGet(before, names[j]) == Some(d0[j].value as int) {
      LengthsBeforeValues(names, d0, 0, [], j);
    }
    DeltasSum(names, d0, d1, before, 0, [], me);
  }

  // ---- on a game ---------------------------------------------------------------

  /** The players' path lengths on `b`, in player order. */
  ghost function Dists(st: State, b: Board): (r: seq<Option<nat>>)
    requires AllPlaced(st)
    ensures |r| == |st.players| && forall i :: 0 <= i < |st.players| ==> r[i] == Dist(st, b, i)
  {
    seq(|st.players|, i requires 0 <= i < |st.players| => Dist(st, b, i))
  }

  /** The searches the query runs, as full searches on the board without and with the fence. */
  lemma SearchesAreDists(st: State, p: FencePlacing)
    requires Consistent(st.tables.blindMoves, BoardOf(st), true) && AllPlaced(st) && AllOnBoard(st)
    ensures Searches(st, st.tables.blindMoves) == Dists(st, BoardOf(st))
    ensures Searches(st, ProbeTable(st, p)) == Dists(st, BoardOf(WithFence(st, p)))
  {
    forall i | 0 <= i < |st.players|
      ensures Searches(st, st.tables.blindMoves)[i] == Dists(st, BoardOf(st))[i]
      ensures Searches(st, ProbeTable(st, p))[i] == Dists(st, BoardOf(WithFence(st, p)))[i]
    {
      SearchesAt(st, p, i);
    }
  }

  /**
   * The score of a placing, in the game's terms: with distinct player names
   * and an answer other than None or the exception, the sum over the other
   * players of their path length with the fence minus without it, minus the
   * same change for the player `me`.
   */
  lemma ScoreMeaning(st: State, p: FencePlacing, me: Option<string>)
    requires Inv(st) && AllPlaced(st) && AllOnBoard(st) && Distinct(Names(st.players))
    requires GetFencePlacingImpactOnPaths(st, p).0.Impacts?
    ensures var b0, b1 := Dists(st, BoardOf(st)), Dists(st, BoardOf(WithFence(st, p)));
      && (forall j :: 0 <= j < |st.players| ==> b0[j].Some? && b1[j].Some?)
      && CalculateScore(GetFencePlacingImpactOnPaths(st, p).0, me) == Val(ImpactSum(Names(st.players), b0, b1, me, 0))
  {
    SearchesAreDists(st, p);
    ScoreOfImpact(Names(st.players), Searches(st, st.tables.blindMoves), Searches(st, ProbeTable(st, p)), me);
  }

  /** `st2` is `st` as a later probe finds it: same players and board, tables consistent. */
  ghost predicate SameGame(st: State, st2: State) {
    Inv(st2) && st2.players == st.players && BoardOf(st2) == BoardOf(st)
  }

  /**
   * A probe on a state the game has not changed gives the same answer, and
   * leaves a state the game has not changed either.
   */
  lemma ImpactStable(st: State, st2: State, p: FencePlacing)
    requires Inv(st) && AllPlaced(st) && AllOnBoard(st) && SameGame(st, st2)
    ensures AllPlaced(st2)
    ensures GetFencePlacingImpactOnPaths(st2, p).0 == GetFencePlacingImpactOnPaths(st, p).0
    ensures SameGame(st, GetFencePlacingImpactOnPaths(st2, p).1)
  {
    assert AllPlaced(st2);
    assert AllOnBoard(st2);
    SearchesAreDists(st2, p);
    WithFenceBoard(st, p);
    WithFenceBoard(st2, p);
    assert Dists(st2, BoardOf(st2)) == Dists(st, BoardOf(st));
    assert Dists(st2, BoardOf(WithFence(st2, p))) == Dists(st, BoardOf(WithFence(st, p)));
    SearchesAreDists(st, p);
    RestoredKeepsInv(st2, p);
  }

  /** `st` is `st0`, a consistent game with every pawn on the board, as a later probe finds it. */
  ghost predicate Anchored(st0: State, st: State) {
    Inv(st0) && AllPlaced(st0) && AllOnBoard(st0) && SameGame(st0, st)
  }

  ghost function AnchoredTo(st0: State): State -> bool {
    s => Anchored(st0, s)
  }

  /**
   * On every state `ok` accepts, `probe` answers placing `k` with
   * `answers[k]` and leaves a state `ok` accepts: the searches thread the
   * state through probes of this kind.
   */
  ghost predicate Faithful<T>(probe: (State, FencePlacing) -> (T, State), ok: State -> bool, ps: seq<FencePlacing>, answers: seq<T>) {
    |answers| == |ps| && forall s, k {:trigger probe(s, ps[k])} :: ok(s) && 0 <= k < |ps| ==> ok(probe(s, ps[k]).1) && probe(s, ps[k]).0 == answers[k]
  }
}

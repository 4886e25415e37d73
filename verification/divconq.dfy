/**
 * The divide-and-conquer fence search (src/algorithm/DivideAndConquer.py):
 * `findOptimalFencePlacing` over a range of candidates and
 * `findOptimalFenceWithPruning`. Every probe runs the impact query on the
 * board as the previous probe left it, so the state is threaded through
 * the search; the probe itself is a parameter of the recursion.
 */
module DivConq {
  import opened Grid
  import opened Fence
  import opened Board
  import opened Players
  import opened GameState
  import opened Veto
  import opened Scoring
  import opened MergeSort
  import opened Wrappers
  import opened Infinity

  /** A search answer: the placing (None on the exception or an empty range) and its score. */
  datatype Pick = Pick(fence: Option<FencePlacing>, score: Score)

  /**
   * The base case at one candidate: the exception gives (None, -infinity);
   * otherwise the candidate with its score, which is -infinity when some
   * player is already cut off.
   */
  function Probe(st: State, me: Option<string>, p: FencePlacing): (r: (Pick, State))
    requires AllPlaced(st)
    ensures r.1.players == st.players
  {
    var (impact, st1) := GetFencePlacingImpactOnPaths(st, p);
    if impact.Obstructed? then (Pick(None, NegInf), st1) else (Pick(Some(p), CalculateScore(impact, me)), st1)
  }

  /** One probe: a placing in, its answer and the state afterwards out. */
  type Prober = (State, FencePlacing) -> (Pick, State)

  /**
   * The probe the searches run for player `me`. On a state with a pawn
   * missing the impact query is undefined; the searches never meet one,
   * since no probe changes the players.
   */
  function ProbeFor(me: Option<string>): Prober {
    (s: State, p: FencePlacing) => if AllPlaced(s) then Probe(s, me, p) else (Pick(None, NegInf), s)
  }

  /** The comparison joining two halves: the left answer only on a strictly greater score. */
  function Better(left: Pick, right: Pick): Pick {
    if left.score.Gt(right.score) then left else right
  }

  /** The search over `ps[low..high]` (inclusive); ties go to the right half. */
  function FindOptimalFrom(probe: Prober, st: State, ps: seq<FencePlacing>, low: nat, high: int): (Pick, State)
    decreases high - low
  {
    if low >= high then
      if low < |ps| then probe(st, ps[low]) else (Pick(None, NegInf), st)
    else
      var mid := (low + high) / 2;
      var left := FindOptimalFrom(probe, st, ps, low, mid);
      var right := FindOptimalFrom(probe, left.1, ps, mid + 1, high);
      (Better(left.0, right.0), right.1)
  }

  /** `findOptimalFencePlacing` with `low = 0` and `high = len - 1`; the list defaults to the stored placings. */
  function FindOptimalFencePlacing(st: State, me: Option<string>, fencePlacings: Option<seq<FencePlacing>>): (Pick, State) {
    var ps := if fencePlacings.Some? then fencePlacings.value else st.tables.fencePlacings;
    FindOptimalFrom(ProbeFor(me), st, ps, 0, |ps| - 1)
  }

  // ---- the reference search ------------------------------------------------------

  lemma GtGe(a: Score, b: Score, c: Score)
    requires a.Gt(b) && b.Ge(c)
    ensures a.Gt(c) && a.Ge(c)
  {
  }

  lemma GeTrans(a: Score, b: Score, c: Score)
    requires a.Ge(b) && b.Ge(c)
    ensures a.Ge(c)
  {
  }

  /** The same search over answers already known, with no state to thread. */
  function Search(picks: seq<Pick>, low: nat, high: int): Pick
    decreases high - low
  {
    if low >= high then
      if low < |picks| then picks[low] else Pick(None, NegInf)
    else
      var mid := (low + high) / 2;
      Better(Search(picks, low, mid), Search(picks, mid + 1, high))
  }

  /** `pick` is the LAST entry of `picks[low..high]` (inclusive) whose score is greatest. */
  predicate LastMax(picks: seq<Pick>, low: nat, high: nat, pick: Pick)
    requires high < |picks|
  {
    exists k :: low <= k <= high && pick == picks[k]
      && (forall j :: low <= j <= high ==> pick.score.Ge(picks[j].score))
      && (forall j :: k < j <= high ==> pick.score.Gt(picks[j].score))
  }

  /** Joining two adjacent ranges: the search keeps the left answer only on a strictly greater score. */
  lemma CombineLastMax(picks: seq<Pick>, low: nat, mid: nat, high: nat, left: Pick, right: Pick)
    requires low <= mid < high < |picks|
    requires LastMax(picks, low, mid, left) && LastMax(picks, mid + 1, high, right)
    ensures LastMax(picks, low, high, Better(left, right))
  {
    var k1 :| low <= k1 <= mid && left == picks[k1]
      && (forall j :: low <= j <= mid ==> left.score.Ge(picks[j].score))
      && (forall j :: k1 < j <= mid ==> left.score.Gt(picks[j].score));
    var k2 :| mid + 1 <= k2 <= high && right == picks[k2]
      && (forall j :: mid + 1 <= j <= high ==> right.score.Ge(picks[j].score))
      && (forall j :: k2 < j <= high ==> right.score.Gt(picks[j].score));
    if left.score.Gt(right.score) {
      forall j | mid + 1 <= j <= high ensures left.score.Gt(picks[j].score) {
        GtGe(left.score, right.score, picks[j].score);
      }
      assert forall j :: low <= j <= high ==> left.score.Ge(picks[j].score);
      assert forall j :: k1 < j <= high ==> left.score.Gt(picks[j].score);
    } else {
      forall j | low <= j <= mid ensures right.score.Ge(picks[j].score) {
        GeTrans(right.score, left.score, picks[j].score);
      }
      assert forall j :: low <= j <= high ==> right.score.Ge(picks[j].score);
    }
  }

  /**
   * The search over a non-empty range returns the maximum score of the
   * range with the last candidate carrying it: ties resolve to the right.
   */
  lemma {:induction false} SearchIsLastMax(picks: seq<Pick>, low: nat, high: nat)
    requires low <= high < |picks|
    ensures LastMax(picks, low, high, Search(picks, low, high))
    decreases high - low
  {
    if low < high {
      var mid := (low + high) / 2;
      SearchIsLastMax(picks, low, mid);
      SearchIsLastMax(picks, mid + 1, high);
      CombineLastMax(picks, low, mid, high, Search(picks, low, mid), Search(picks, mid + 1, high));
    }
  }

  // ---- threading the state ---------------------------------------------------------

  /** A faithful probe makes the threaded search answer as the reference does, and keeps `ok`. */
  lemma {:induction false} FindOptimalIsSearch(probe: Prober, ok: State -> bool, st: State, ps: seq<FencePlacing>, picks: seq<Pick>, low: nat, high: int)
    requires ok(st) && Faithful(probe, ok, ps, picks)
    ensures ok(FindOptimalFrom(probe, st, ps, low, high).1)
    ensures FindOptimalFrom(probe, st, ps, low, high).0 == Search(picks, low, high)
    decreases high - low
  {
    if low < high {
      var mid := (low + high) / 2;
      FindOptimalIsSearch(probe, ok, st, ps, picks, low, mid);
      FindOptimalIsSearch(probe, ok, FindOptimalFrom(probe, st, ps, low, mid).1, ps, picks, mid + 1, high);
    }
  }

  /** A faithful probe makes the whole search give (None, -infinity) on no candidates, else the last of greatest score. */
  lemma FindOptimalLastMax(probe: Prober, ok: State -> bool, st: State, ps: seq<FencePlacing>, picks: seq<Pick>)
    requires ok(st) && Faithful(probe, ok, ps, picks)
    ensures var r := FindOptimalFrom(probe, st, ps, 0, |ps| - 1);
      && ok(r.1)
      && (ps == [] ==> r == (Pick(None, NegInf), st))
      && (ps != [] ==> LastMax(picks, 0, |ps| - 1, r.0))
  {
    if ps == [] {
      assert FindOptimalFrom(probe, st, ps, 0, -1) == (Pick(None, NegInf), st);
    } else {
      FindOptimalIsSearch(probe, ok, st, ps, picks, 0, |ps| - 1);
      SearchIsLastMax(picks, 0, |ps| - 1);
    }
  }

  /** The answer each candidate gets when probed on its own on `st0`. */
  function Probes(st0: State, me: Option<string>, ps: seq<FencePlacing>): (r: seq<Pick>)
    requires AllPlaced(st0)
    ensures |r| == |ps| && forall k {:trigger r[k]} :: 0 <= k < |ps| ==> r[k] == Probe(st0, me, ps[k]).0
  {
    seq(|ps|, k requires 0 <= k < |ps| => Probe(st0, me, ps[k]).0)
  }

  /** One probe on a state the game has not changed answers as on `st0`. */
  lemma ProbeStable(st0: State, st: State, me: Option<string>, p: FencePlacing)
    requires Anchored(st0, st)
    ensures AllPlaced(st)
    ensures Probe(st, me, p).0 == Probe(st0, me, p).0 && Anchored(st0, Probe(st, me, p).1)
  {
    ImpactStable(st0, st, p);
  }

  /**
   * On a consistent game, the search's probe is faithful to probing each
   * candidate on the game itself: every probe restores the tables it altered.
   */
  lemma ProbeForFaithful(st0: State, me: Option<string>, ps: seq<FencePlacing>)
    requires Inv(st0) && AllPlaced(st0) && AllOnBoard(st0)
    ensures Faithful(ProbeFor(me), AnchoredTo(st0), ps, Probes(st0, me, ps))
  {
    var picks := Probes(st0, me, ps);
    forall s, k | AnchoredTo(st0)(s) && 0 <= k < |ps|
      ensures AnchoredTo(st0)(ProbeFor(me)(s, ps[k]).1) && ProbeFor(me)(s, ps[k]).0 == picks[k]
    {
      ProbeStable(st0, s, me, ps[k]);
    }
  }

  /**
   * `findOptimalFencePlacing` on a consistent game: an empty list gives
   * (None, -infinity) and leaves the state alone; otherwise the answer is
   * the last candidate of greatest score, each scored as on the game
   * itself. The state comes back as the game left it.
   */
  lemma FindOptimalFencePlacingCorrect(st: State, me: Option<string>, fencePlacings: Option<seq<FencePlacing>>)
    requires Inv(st) && AllPlaced(st) && AllOnBoard(st)
    ensures var ps := if fencePlacings.Some? then fencePlacings.value else st.tables.fencePlacings;
      var r := FindOptimalFencePlacing(st, me, fencePlacings);
      && SameGame(st, r.1)
      && (ps == [] ==> r == (Pick(None, NegInf), st))
      && (ps != [] ==> LastMax(Probes(st, me, ps), 0, |ps| - 1, r.0))
  {
    var ps := if fencePlacings.Some? then fencePlacings.value else st.tables.fencePlacings;
    ProbeForFaithful(st, me, ps);
    FindOptimalLastMax(ProbeFor(me), AnchoredTo(st), st, ps, Probes(st, me, ps));
  }

  /**
   * What one probe answers, in the game's terms: no placing exactly when
   * every player reaches a goal now and some player would not with the
   * fence (the exception), then with -infinity; otherwise the candidate,
   * scored -infinity exactly when some player is already cut off.
   */
  lemma ProbeMeaning(st: State, me: Option<string>, p: FencePlacing)
    requires Inv(st) && AllPlaced(st) && AllOnBoard(st)
    ensures var pick := Probe(st, me, p).0;
      var b, b1 := BoardOf(st), BoardOf(WithFence(st, p));
      && (pick.fence.None? <==>
            (forall i :: 0 <= i < |st.players| ==> Dist(st, b, i).Some?) && exists i :: 0 <= i < |st.players| && Dist(st, b1, i).None?)
      && (pick.fence.None? ==> pick.score == NegInf)
      && (pick.fence.Some? ==> pick.fence == Some(p) && (pick.score == NegInf <==> exists i :: 0 <= i < |st.players| && Dist(st, b, i).None?))
  {
    ImpactExact(st, p);
  }

  // ---- the pruned search -------------------------------------------------------

  /** A sampled candidate with a positive score. */
  datatype Cand = Cand(fence: FencePlacing, score: int)

  /**
   * The sampling loop from index `i`, every `stride` placings: keep the
   * candidates whose score is positive; the exception and -infinity are
   * dropped.
   */
  function Sample(probe: Prober, st: State, all: seq<FencePlacing>, stride: nat, i: nat): (seq<Cand>, State)
    requires stride > 0
    decreases if i < |all| then |all| - i else 0
  {
    if i >= |all| then ([], st)
    else
      var probed := probe(st, all[i]);
      var rest := Sample(probe, probed.1, all, stride, i + stride);
      if probed.0.score.Val? && probed.0.score.v > 0 then ([Cand(all[i], probed.0.score.v)] + rest.0, rest.1) else rest
  }

  /** The sort key: `sort(key=score, reverse=True)` is the stable ascending sort by the negated score. */
  function NegScore(c: Cand): int {
    -c.score
  }

  /** The fences of the first `n` candidates. */
  function TopFences(sorted: seq<Cand>, n: nat): (r: seq<FencePlacing>)
    ensures |r| == if n < |sorted| then n else |sorted|
    ensures forall j :: 0 <= j < |r| ==> r[j] == sorted[j].fence
  {
    var top := if n < |sorted| then sorted[..n] else sorted;
    seq(|top|, j requires 0 <= j < |top| => top[j].fence)
  }

  /** `max(1, n // min(2 * maxCandidates, n))`, the sampling step on a list of `n > maxCandidates` placings. */
  function PruneStride(n: nat, maxCandidates: nat): (r: nat)
    requires 0 < maxCandidates < n
    ensures r >= 1
  {
    var sampleSize := if 2 * maxCandidates < n then 2 * maxCandidates else n;
    var step := n / sampleSize;
    if step < 1 then 1 else step
  }

  /**
   * `findOptimalFenceWithPruning`: the plain search when the stored list has
   * at most `maxCandidates` placings; otherwise sample every
   * `PruneStride`-th placing, keep the positive ones, sort them by score
   * from high to low and search the first `maxCandidates` of them.
   */
  function FindOptimalFenceWithPruning(st: State, me: Option<string>, maxCandidates: nat): (Pick, State)
    requires maxCandidates > 0 || st.tables.fencePlacings == []
  {
    var all := st.tables.fencePlacings;
    if |all| <= maxCandidates then FindOptimalFencePlacing(st, me, None)
    else
      var sampled := Sample(ProbeFor(me), st, all, PruneStride(|all|, maxCandidates), 0);
      var top := TopFences(Sort(sampled.0, NegScore), maxCandidates);
      if top != [] then FindOptimalFencePlacing(sampled.1, me, Some(top)) else (Pick(None, NegInf), sampled.1)
  }

  // ---- what the sampling keeps ---------------------------------------------------------

  /** The candidates the sampling keeps from answers already known. */
  function Kept(picks: seq<Pick>, all: seq<FencePlacing>, stride: nat, i: nat): seq<Cand>
    requires |picks| == |all| && stride > 0
    decreases if i < |all| then |all| - i else 0
  {
    if i >= |all| then []
    else
      var rest := Kept(picks, all, stride, i + stride);
      if picks[i].score.Val? && picks[i].score.v > 0 then [Cand(all[i], picks[i].score.v)] + rest else rest
  }

  /** A faithful probe makes the threaded sampling keep what the reference keeps, and keeps `ok`. */
  lemma {:induction false} SampleIsKept(probe: Prober, ok: State -> bool, st: State, all: seq<FencePlacing>, picks: seq<Pick>, stride: nat, i: nat)
    requires ok(st) && stride > 0 && Faithful(probe, ok, all, picks)
    ensures ok(Sample(probe, st, all, stride, i).1) && Sample(probe, st, all, stride, i).0 == Kept(picks, all, stride, i)
    decreases if i < |all| then |all| - i else 0
  {
    if i < |all| {
      SampleIsKept(probe, ok, probe(st, all[i]).1, all, picks, stride, i + stride);
    }
  }

  /** The `n`-th index of the progression from `i` in steps of `stride`. */
  function At(i: nat, n: nat, stride: nat): nat {
    i + n * stride
  }

  /** `c` is what the sampling finds at the `n`-th index from `i`: a placing whose probe scored above zero. */
  predicate KeptAt(picks: seq<Pick>, all: seq<FencePlacing>, stride: nat, i: nat, n: nat, c: Cand)
    requires |picks| == |all|
  {
    At(i, n, stride) < |all| && c.fence == all[At(i, n, stride)] && picks[At(i, n, stride)].score == Val(c.score) && c.score > 0
  }

  lemma {:induction false} KeptSound(picks: seq<Pick>, all: seq<FencePlacing>, stride: nat, i: nat, c: Cand)
    requires |picks| == |all| && stride > 0 && c in Kept(picks, all, stride, i)
    ensures exists n: nat :: KeptAt(picks, all, stride, i, n, c)
    decreases if i < |all| then |all| - i else 0
  {
    var keep := picks[i].score.Val? && picks[i].score.v > 0;
    if keep && c == Cand(all[i], picks[i].score.v) {
      assert KeptAt(picks, all, stride, i, 0, c);
    } else {
      KeptSound(picks, all, stride, i + stride, c);
      var n: nat :| KeptAt(picks, all, stride, i + stride, n, c);
      assert At(i + stride, n, stride) == At(i, n + 1, stride);
      assert KeptAt(picks, all, stride, i, n + 1, c);
    }
  }

  lemma {:induction false} KeptComplete(picks: seq<Pick>, all: seq<FencePlacing>, stride: nat, i: nat, n: nat, c: Cand)
    requires |picks| == |all| && stride > 0 && KeptAt(picks, all, stride, i, n, c)
    ensures c in Kept(picks, all, stride, i)
    decreases n
  {
    if n > 0 {
      assert At(i, n, stride) == At(i + stride, n - 1, stride);
      KeptComplete(picks, all, stride, i + stride, n - 1, c);
    }
  }

  /**
   * The sampling keeps exactly the placings at `i`, `i + stride`, ... whose
   * probe scored above zero, each with that score.
   */
  lemma KeptMembers(picks: seq<Pick>, all: seq<FencePlacing>, stride: nat, i: nat, c: Cand)
    requires |picks| == |all| && stride > 0
    ensures c in Kept(picks, all, stride, i) <==> exists n: nat :: KeptAt(picks, all, stride, i, n, c)
  {
    if c in Kept(picks, all, stride, i) {
      KeptSound(picks, all, stride, i, c);
    }
    if exists n: nat :: KeptAt(picks, all, stride, i, n, c) {
      var n: nat :| KeptAt(picks, all, stride, i, n, c);
      KeptComplete(picks, all, stride, i, n, c);
    }
  }

  // ---- what the pruned search answers ------------------------------------------------

  /** A kept candidate's own probe on `st0` names it with its score. */
  lemma KeptProbe(st0: State, me: Option<string>, all: seq<FencePlacing>, stride: nat, c: Cand)
    requires AllPlaced(st0) && stride > 0 && c in Kept(Probes(st0, me, all), all, stride, 0)
    ensures Probe(st0, me, c.fence).0 == Pick(Some(c.fence), Val(c.score))
  {
    var picks := Probes(st0, me, all);
    KeptSound(picks, all, stride, 0, c);
    var n: nat :| KeptAt(picks, all, stride, 0, n, c);
    assert picks[At(0, n, stride)] == Probe(st0, me, all[At(0, n, stride)]).0;
  }

  /** The searched list is the sorted candidates' fences, each probing to its sampled score. */
  lemma TopProbes(st0: State, me: Option<string>, all: seq<FencePlacing>, stride: nat, maxCandidates: nat)
    requires AllPlaced(st0) && stride > 0
    ensures var sorted := Sort(Kept(Probes(st0, me, all), all, stride, 0), NegScore);
      var top := TopFences(sorted, maxCandidates);
      forall j :: 0 <= j < |top| ==> Probes(st0, me, top)[j] == Pick(Some(sorted[j].fence), Val(sorted[j].score))
  {
    var cands := Kept(Probes(st0, me, all), all, stride, 0);
    var sorted := Sort(cands, NegScore);
    SortPermutes(cands, NegScore);
    var top := TopFences(sorted, maxCandidates);
    forall j | 0 <= j < |top| ensures Probes(st0, me, top)[j] == Pick(Some(sorted[j].fence), Val(sorted[j].score)) {
      assert sorted[j] in multiset(sorted);
      KeptProbe(st0, me, all, stride, sorted[j]);
    }
  }

  /**
   * The last maximum among the first candidates of a list sorted by score
   * from high to low carries the highest score of the whole list.
   */
  lemma BestOfTop(picks: seq<Pick>, sorted: seq<Cand>, pick: Pick)
    requires 0 < |picks| <= |sorted| && SortedBy(sorted, NegScore)
    requires forall j :: 0 <= j < |picks| ==> picks[j] == Pick(Some(sorted[j].fence), Val(sorted[j].score))
    requires LastMax(picks, 0, |picks| - 1, pick)
    ensures exists c :: c in sorted && pick == Pick(Some(c.fence), Val(c.score)) && forall d :: d in sorted ==> d.score <= c.score
  {
    var k :| 0 <= k <= |picks| - 1 && pick == picks[k] && forall j :: 0 <= j <= |picks| - 1 ==> pick.score.Ge(picks[j].score);
    assert pick.score.Ge(picks[0].score);
    forall d | d in sorted ensures d.score <= sorted[k].score {
      var i :| 0 <= i < |sorted| && sorted[i] == d;
      if i > 0 {
        assert NegScore(sorted[0]) <= NegScore(sorted[i]);
      }
    }
  }

  /** The sampling on a consistent game keeps what the probes on that game answer, and changes nothing. */
  lemma SampledOnAnchor(st: State, me: Option<string>, all: seq<FencePlacing>, stride: nat)
    requires Inv(st) && AllPlaced(st) && AllOnBoard(st) && stride > 0
    ensures Anchored(st, Sample(ProbeFor(me), st, all, stride, 0).1)
    ensures Sample(ProbeFor(me), st, all, stride, 0).0 == Kept(Probes(st, me, all), all, stride, 0)
  {
    ProbeForFaithful(st, me, all);
    SampleIsKept(ProbeFor(me), AnchoredTo(st), st, all, Probes(st, me, all), stride, 0);
  }

  /** The last maximum among the first candidates of the sorted list carries the highest score among all of them. */
  lemma BestOfKept(cands: seq<Cand>, picks: seq<Pick>, pick: Pick)
    requires 0 < |picks| <= |Sort(cands, NegScore)|
    requires forall j :: 0 <= j < |picks| ==> picks[j] == Pick(Some(Sort(cands, NegScore)[j].fence), Val(Sort(cands, NegScore)[j].score))
    requires LastMax(picks, 0, |picks| - 1, pick)
    ensures exists c :: c in cands && pick == Pick(Some(c.fence), Val(c.score)) && forall d :: d in cands ==> d.score <= c.score
  {
    var sorted := Sort(cands, NegScore);
    SortCorrect(cands, NegScore);
    BestOfTop(picks, sorted, pick);
    forall d | d in sorted ensures d in cands {
      assert d in multiset(sorted);
    }
    forall d | d in cands ensures d in sorted {
      assert d in multiset(cands);
    }
  }

  /** A faithful probe over the first sorted candidates makes the search return a best candidate. */
  lemma SearchBestOfKept(probe: Prober, ok: State -> bool, st: State, cands: seq<Cand>, maxCandidates: nat, picks: seq<Pick>)
    requires ok(st) && maxCandidates > 0 && cands != []
    requires var top := TopFences(Sort(cands, NegScore), maxCandidates);
      && Faithful(probe, ok, top, picks)
      && forall j :: 0 <= j < |top| ==> picks[j] == Pick(Some(Sort(cands, NegScore)[j].fence), Val(Sort(cands, NegScore)[j].score))
    ensures var top := TopFences(Sort(cands, NegScore), maxCandidates);
      var r := FindOptimalFrom(probe, st, top, 0, |top| - 1);
      && top != [] && ok(r.1)
      && exists c :: c in cands && r.0 == Pick(Some(c.fence), Val(c.score)) && forall d :: d in cands ==> d.score <= c.score
  {
    var sorted := Sort(cands, NegScore);
    SortPermutes(cands, NegScore);
    var top := TopFences(sorted, maxCandidates);
    assert |sorted| == |multiset(cands)| > 0;
    FindOptimalLastMax(probe, ok, st, top, picks);
    BestOfKept(cands, picks, FindOptimalFrom(probe, st, top, 0, |top| - 1).0);
  }

  /** The search over the first candidates, from a state the sampling left, returns a best one. */
  lemma TopSearchBest(st0: State, st: State, me: Option<string>, all: seq<FencePlacing>, stride: nat, maxCandidates: nat)
    requires Anchored(st0, st) && stride > 0 && maxCandidates > 0
    requires Kept(Probes(st0, me, all), all, stride, 0) != []
    ensures var cands := Kept(Probes(st0, me, all), all, stride, 0);
      var top := TopFences(Sort(cands, NegScore), maxCandidates);
      var r := FindOptimalFencePlacing(st, me, Some(top));
      && top != [] && SameGame(st0, r.1)
      && exists c :: c in cands && r.0 == Pick(Some(c.fence), Val(c.score)) && forall d :: d in cands ==> d.score <= c.score
  {
    var cands := Kept(Probes(st0, me, all), all, stride, 0);
    var top := TopFences(Sort(cands, NegScore), maxCandidates);
    TopProbes(st0, me, all, stride, maxCandidates);
    ProbeForFaithful(st0, me, top);
    SearchBestOfKept(ProbeFor(me), AnchoredTo(st0), st, cands, maxCandidates, Probes(st0, me, top));
  }

  /**
   * `findOptimalFenceWithPruning` on a consistent game: the plain search on
   * a short list; otherwise, among the candidates the sampling keeps, None
   * with -infinity when there are none, else one whose score is the highest.
   * The state comes back as the game left it.
   */
  lemma FindOptimalFenceWithPruningCorrect(st: State, me: Option<string>, maxCandidates: nat)
    requires Inv(st) && AllPlaced(st) && AllOnBoard(st) && (maxCandidates > 0 || st.tables.fencePlacings == [])
    ensures var all := st.tables.fencePlacings;
      var r := FindOptimalFenceWithPruning(st, me, maxCandidates);
      && SameGame(st, r.1)
      && (|all| <= maxCandidates ==> r == FindOptimalFencePlacing(st, me, None))
      && (|all| > maxCandidates ==>
            var cands := Kept(Probes(st, me, all), all, PruneStride(|all|, maxCandidates), 0);
            && (cands == [] ==> r.0 == Pick(None, NegInf))
            && (cands != [] ==> exists c :: c in cands && r.0 == Pick(Some(c.fence), Val(c.score)) && forall d :: d in cands ==> d.score <= c.score))
  {
    var all := st.tables.fencePlacings;
    if |all| <= maxCandidates {
      FindOptimalFencePlacingCorrect(st, me, None);
    } else {
      var stride := PruneStride(|all|, maxCandidates);
      var sampled := Sample(ProbeFor(me), st, all, stride, 0);
      SampledOnAnchor(st, me, all, stride);
      if sampled.0 == [] {
        SortCorrect(sampled.0, NegScore);
        assert |multiset(Sort(sampled.0, NegScore))| == 0;
      } else {
        TopSearchBest(st, sampled.1, me, all, stride, maxCandidates);
      }
    }
  }
}

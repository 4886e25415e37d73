/**
 * `GreedyExamples.coinChange` (src/algorithm/GreedyStrategy.py): the
 * greedy change of an amount, largest coins first.
 */
module Coins {
  import opened MergeSort
  import opened Wrappers

  function Sum(s: seq<int>): int {
    if s == [] then 0 else Sum(s[..|s| - 1]) + s[|s| - 1]
  }

  predicate NonIncreasing(s: seq<int>) {
    forall i, j :: 0 <= i < j < |s| ==> s[i] >= s[j]
  }

  predicate Positive(coins: seq<int>) {
    forall i :: 0 <= i < |coins| ==> coins[i] > 0
  }

  /** What is still to be changed once the first `k` coins of `result` are taken. */
  function Rest(amount: int, result: seq<int>, k: nat): int
    requires k <= |result|
  {
    amount - Sum(result[..k])
  }

  /** `x` fits in `rest`, and no given coin that fits there is larger. */
  predicate GreedyPick(coins: seq<int>, x: int, rest: int) {
    x <= rest && forall c :: c in coins && c <= rest ==> c <= x
  }

  /**
   * The greedy choice: every coin taken is the largest given coin that fits
   * in what is still to be changed at that point.
   */
  predicate GreedyChoice(amount: int, coins: seq<int>, result: seq<int>)
    decreases |result|
  {
    result == [] ||
      (GreedyChoice(amount, coins, result[..|result| - 1]) &&
       GreedyPick(coins, result[|result| - 1], Rest(amount, result, |result| - 1)))
  }

  /** The greedy choice at one position. */
  lemma {:induction false} GreedyAt(amount: int, coins: seq<int>, r: seq<int>, k: nat)
    requires GreedyChoice(amount, coins, r) && k < |r|
    ensures GreedyPick(coins, r[k], Rest(amount, r, k))
    decreases |r|
  {
    if k < |r| - 1 {
      var init := r[..|r| - 1];
      GreedyAt(amount, coins, init, k);
      assert init[..k] == r[..k] && init[k] == r[k];
    }
  }

  /** Taking one more greedy coin keeps the greedy choice. */
  lemma GreedyAppend(amount: int, coins: seq<int>, r: seq<int>, x: int)
    requires GreedyChoice(amount, coins, r) && GreedyPick(coins, x, amount - Sum(r))
    ensures GreedyChoice(amount, coins, r + [x])
  {
    assert (r + [x])[..|r|] == r;
  }

  function Neg(x: int): int {
    -x
  }

  /** `sorted(coins, reverse=True)`: the same coins, from largest to smallest. */
  function Descending(coins: seq<int>): (r: seq<int>)
    ensures multiset(r) == multiset(coins)
    ensures NonIncreasing(r)
    ensures forall i :: 0 <= i < |r| ==> r[i] in coins
  {
    SortCorrect(coins, Neg);
    var r := Sort(coins, Neg);
    assert forall i :: 0 <= i < |r| ==> r[i] in multiset(r);
    assert forall i, j :: 0 <= i < j < |r| ==> Neg(r[i]) <= Neg(r[j]);
    r
  }

  /** What the inner `while amount >= coin` leaves of `amount`. */
  function Drain(amount: int, coin: int): int
    requires coin > 0
    decreases if amount > 0 then amount else 0
  {
    if amount >= coin then Drain(amount - coin, coin) else amount
  }

  /** What the greedy pass over `coins`, in the given order, leaves of `amount`. */
  function Leftover(amount: int, coins: seq<int>): int
    requires Positive(coins)
    decreases |coins|
  {
    if coins == [] then amount else Leftover(Drain(amount, coins[0]), coins[1..])
  }

  lemma SumAppend(s: seq<int>, x: int)
    ensures Sum(s + [x]) == Sum(s) + x
  {
    assert (s + [x])[..|s|] == s;
  }

  /** `r` is `result` followed by copies of `coin`. */
  predicate Extends(result: seq<int>, r: seq<int>, coin: int) {
    |result| <= |r| && r[..|result|] == result && forall k :: |result| <= k < |r| ==> r[k] == coin
  }

  /** One more `result.append(coin)`: still an extension, still non-increasing, the sum grows by the coin. */
  lemma TakeOne(result: seq<int>, r: seq<int>, coin: int)
    requires Extends(result, r, coin) && NonIncreasing(r) && (r != [] ==> coin <= r[|r| - 1])
    ensures Extends(result, r + [coin], coin) && NonIncreasing(r + [coin])
    ensures Sum(r + [coin]) == Sum(r) + coin
  {
    var t := r + [coin];
    forall i, j | 0 <= i < j < |t| ensures t[i] >= t[j] {
      if j == |r| {
        assert t[i] == r[i];
      } else {
        assert t[i] == r[i] && t[j] == r[j];
      }
    }
    assert t[..|result|] == r[..|result|];
    forall k | |result| <= k < |t| ensures t[k] == coin {
      if k < |r| {
        assert t[k] == r[k];
      }
    }
    SumAppend(r, coin);
  }

  /**
   * The inner `while amount >= coin`: append the coin while it fits. The
   * list keeps its sum with what is left and stays non-increasing, and the
   * loop leaves what `Drain` leaves.
   */
  method TakeWhileFits(result: seq<int>, left: int, coin: int) returns (result': seq<int>, left': int)
    requires coin > 0 && NonIncreasing(result) && (result != [] ==> coin <= result[|result| - 1])
    ensures Sum(result') + left' == Sum(result) + left
    ensures Extends(result, result', coin)
    ensures NonIncreasing(result') && (result' != [] ==> coin <= result'[|result'| - 1])
    ensures left' == Drain(left, coin) && left' < coin
    ensures left >= 0 ==> left' >= 0
    ensures left' <= left
    ensures FitsFrom(Sum(result) + left, result', |result|, coin, left)
  {
    ghost var total := Sum(result) + left;
    result', left' := result, left;
    while left' >= coin
      invariant Sum(result') + left' == total
      invariant Extends(result, result', coin)
      invariant NonIncreasing(result') && (result' != [] ==> coin <= result'[|result'| - 1])
      invariant Drain(left', coin) == Drain(left, coin)
      invariant left >= 0 ==> left' >= 0
      invariant left' <= left
      invariant FitsFrom(total, result', |result|, coin, left)
      decreases left'
    {
      TakeOne(result, result', coin);
      FitsAppend(total, result', |result|, coin, left);
      result' := result' + [coin];
      left' := left' - coin;
    }
  }

  /** Every coin of `r` from position `from` on fits in what is still to be changed, which is at most `cap`. */
  predicate FitsFrom(total: int, r: seq<int>, from: nat, coin: int, cap: int) {
    forall k :: from <= k < |r| ==> coin <= Rest(total, r, k) <= cap
  }

  lemma FitsAppend(total: int, r: seq<int>, from: nat, coin: int, cap: int)
    requires FitsFrom(total, r, from, coin, cap) && coin <= total - Sum(r) <= cap
    ensures FitsFrom(total, r + [coin], from, coin, cap)
  {
    RestAppend(total, r, coin);
    assert (r + [coin])[..|r|] == r;
  }

  /** Appending a coin keeps what is still to be changed at every earlier position. */
  lemma RestAppend(amount: int, r: seq<int>, coin: int)
    ensures forall k :: 0 <= k <= |r| ==> Rest(amount, r + [coin], k) == Rest(amount, r, k)
  {
    forall k | 0 <= k <= |r| ensures (r + [coin])[..k] == r[..k] {
    }
  }

  lemma LeftoverStep(s: seq<int>, i: nat, left: int)
    requires i < |s| && Positive(s)
    ensures Leftover(left, s[i..]) == Leftover(Drain(left, s[i]), s[i + 1..])
  {
    assert s[i..][0] == s[i] && s[i..][1..] == s[i + 1..];
  }

  /**
   * The outer `for coin in ...` over coins already in non-increasing order:
   * the change taken sums with what is left to `amount`, uses only those
   * coins, never increases, takes at every step the largest coin that fits,
   * and leaves what `Leftover` leaves, which is below every coin.
   */
  method Pass(amount: int, sorted: seq<int>) returns (result: seq<int>, left: int)
    requires Positive(sorted) && NonIncreasing(sorted)
    ensures Sum(result) + left == amount
    ensures forall k :: 0 <= k < |result| ==> result[k] in sorted
    ensures NonIncreasing(result)
    ensures left == Leftover(amount, sorted)
    ensures amount >= 0 ==> left >= 0
    ensures GreedyChoice(amount, sorted, result)
    ensures forall c :: c in sorted ==> left < c
  {
    result, left := [], amount;
    var i := 0;
    while i < |sorted|
      invariant i <= |sorted| && PassInv(amount, sorted, i, result, left)
    {
      var result', left' := TakeWhileFits(result, left, sorted[i]);
      PassTurn(amount, sorted, i, result, left, result', left');
      result, left, i := result', left', i + 1;
    }
    BelowAll(sorted, left);
  }

  lemma BelowAll(sorted: seq<int>, left: int)
    requires forall j :: 0 <= j < |sorted| ==> left < sorted[j]
    ensures forall c :: c in sorted ==> left < c
  {
  }

  /** What the outer loop keeps after its first `i` coins. */
  predicate PassInv(amount: int, sorted: seq<int>, i: nat, result: seq<int>, left: int)
    requires Positive(sorted)
  {
    && i <= |sorted|
    && Sum(result) + left == amount
    && (forall k :: 0 <= k < |result| ==> result[k] in sorted)
    && NonIncreasing(result)
    && (result != [] && i < |sorted| ==> sorted[i] <= result[|result| - 1])
    && Leftover(amount, sorted) == Leftover(left, sorted[i..])
    && (amount >= 0 ==> left >= 0)
    && (forall j :: 0 <= j < i ==> left < sorted[j])
    && GreedyChoice(amount, sorted, result)
  }

  /**
   * One turn of the outer loop keeps its invariant. In particular the
   * greedy choice holds, because a coin that fits what was left before the
   * turn cannot be one of the larger earlier coins, so it is at most
   * `sorted[i]`.
   */
  lemma PassTurn(amount: int, sorted: seq<int>, i: nat, before: seq<int>, leftBefore: int, result: seq<int>, left: int)
    requires Positive(sorted) && NonIncreasing(sorted) && i < |sorted|
    requires PassInv(amount, sorted, i, before, leftBefore)
    requires Sum(result) + left == Sum(before) + leftBefore
    requires Extends(before, result, sorted[i])
    requires NonIncreasing(result) && (result != [] ==> sorted[i] <= result[|result| - 1])
    requires left == Drain(leftBefore, sorted[i]) && left < sorted[i]
    requires (leftBefore >= 0 ==> left >= 0) && left <= leftBefore
    requires FitsFrom(Sum(before) + leftBefore, result, |before|, sorted[i], leftBefore)
    ensures Sum(result) + left == amount
    ensures forall k :: 0 <= k < |result| ==> result[k] in sorted
    ensures result != [] && i + 1 < |sorted| ==> sorted[i + 1] <= result[|result| - 1]
    ensures Leftover(amount, sorted) == Leftover(left, sorted[i + 1..])
    ensures amount >= 0 ==> left >= 0
    ensures forall j :: 0 <= j < i + 1 ==> left < sorted[j]
    ensures GreedyChoice(amount, sorted, result)
  {
    LeftoverStep(sorted, i, leftBefore);
    TurnMembers(sorted, i, before, result);
    TurnBelow(sorted, i, leftBefore, left);
    TurnGreedy(amount, sorted, i, before, leftBefore, result);
    if result != [] && i + 1 < |sorted| {
      assert sorted[i + 1] <= sorted[i];
    }
  }

  lemma TurnMembers(sorted: seq<int>, i: nat, before: seq<int>, result: seq<int>)
    requires i < |sorted| && Extends(before, result, sorted[i])
    requires forall k :: 0 <= k < |before| ==> before[k] in sorted
    ensures forall k :: 0 <= k < |result| ==> result[k] in sorted
  {
    forall k | 0 <= k < |result| ensures result[k] in sorted {
      if k < |before| {
        assert result[k] == before[k];
      }
    }
  }

  lemma TurnBelow(sorted: seq<int>, i: nat, leftBefore: int, left: int)
    requires i < |sorted| && (forall j :: 0 <= j < i ==> leftBefore < sorted[j])
    requires left <= leftBefore && left < sorted[i]
    ensures forall j :: 0 <= j < i + 1 ==> left < sorted[j]
  {
  }

  lemma TurnGreedy(amount: int, sorted: seq<int>, i: nat, before: seq<int>, leftBefore: int, result: seq<int>)
    requires i < |sorted| && NonIncreasing(sorted)
    requires forall j :: 0 <= j < i ==> leftBefore < sorted[j]
    requires GreedyChoice(amount, sorted, before)
    requires Extends(before, result, sorted[i])
    requires FitsFrom(amount, result, |before|, sorted[i], leftBefore)
    ensures GreedyChoice(amount, sorted, result)
  {
    GreedyGrow(amount, sorted, i, before, leftBefore, result, |result|);
    assert result[..|result|] == result;
  }

  /** The greedy choice holds for `result` up to position `n`, by induction from `before`. */
  lemma {:induction false} GreedyGrow(amount: int, sorted: seq<int>, i: nat, before: seq<int>, leftBefore: int, result: seq<int>, n: nat)
    requires i < |sorted| && NonIncreasing(sorted)
    requires forall j :: 0 <= j < i ==> leftBefore < sorted[j]
    requires GreedyChoice(amount, sorted, before)
    requires Extends(before, result, sorted[i])
    requires FitsFrom(amount, result, |before|, sorted[i], leftBefore)
    requires |before| <= n <= |result|
    ensures GreedyChoice(amount, sorted, result[..n])
    decreases n
  {
    if n == |before| {
      assert result[..n] == before;
    } else {
      var k := n - 1;
      GreedyGrow(amount, sorted, i, before, leftBefore, result, k);
      assert result[..n] == result[..k] + [result[k]];
      assert result[..k][..k] == result[..k];
      assert Rest(amount, result, k) == amount - Sum(result[..k]);
      forall c | c in sorted && c <= Rest(amount, result, k) ensures c <= result[k] {
        var j :| 0 <= j < |sorted| && sorted[j] == c;
      }
      GreedyAppend(amount, sorted, result[..k], result[k]);
    }
  }

  /**
   * `coinChange`: the coins from largest to smallest, each taken while it
   * fits. A result sums to `amount`, uses only given coins, never increases
   * and takes at every step the largest given coin that fits; None exactly
   * when the pass leaves something over. With a unit coin every non-negative
   * amount is changed.
   */
  method CoinChange(amount: int, coins: seq<int>) returns (r: Option<seq<int>>)
    requires Positive(coins)
    ensures r.Some? ==> Sum(r.value) == amount && (forall k :: 0 <= k < |r.value| ==> r.value[k] in coins) && NonIncreasing(r.value)
    ensures r.None? <==> Leftover(amount, Descending(coins)) != 0
    ensures amount >= 0 && 1 in coins ==> r.Some?
    ensures r.Some? ==> GreedyChoice(amount, coins, r.value)
  {
    var sorted := Descending(coins);
    SameCoins(sorted, coins);
    var result, left := Pass(amount, sorted);
    r := if left == 0 then Some(result) else None;
    SameCoinsGreedy(amount, sorted, coins, result);
  }

  /** The coins sorted largest first are the given coins, so they are positive too. */
  lemma SameCoins(sorted: seq<int>, coins: seq<int>)
    requires multiset(sorted) == multiset(coins) && Positive(coins)
    ensures Positive(sorted)
    ensures forall c :: c in coins <==> c in sorted
  {
    forall c ensures c in coins <==> c in sorted {
      assert c in coins <==> c in multiset(coins);
      assert c in sorted <==> c in multiset(sorted);
    }
    PositiveMembers(coins, sorted);
  }

  lemma {:induction false} SameCoinsGreedy(amount: int, sorted: seq<int>, coins: seq<int>, result: seq<int>)
    requires (forall c :: c in coins <==> c in sorted) && GreedyChoice(amount, sorted, result)
    ensures GreedyChoice(amount, coins, result)
    decreases |result|
  {
    if result != [] {
      SameCoinsGreedy(amount, sorted, coins, result[..|result| - 1]);
    }
  }

  lemma {:induction false} SumPrefixLess(s: seq<int>, n: nat)
    requires n < |s| && Positive(s)
    ensures Sum(s[..n]) < Sum(s)
    decreases |s|
  {
    var init := s[..|s| - 1];
    assert Sum(s) == Sum(init) + s[|s| - 1];
    if n < |s| - 1 {
      assert init[..n] == s[..n];
      SumPrefixLess(init, n);
    } else {
      assert init == s[..n];
    }
  }

  /** Two greedy results that agree on their first `k` coins agree up to the shorter one's length. */
  lemma {:induction false} GreedySamePrefix(amount: int, coins: seq<int>, r1: seq<int>, r2: seq<int>, k: nat)
    requires GreedyChoice(amount, coins, r1) && GreedyChoice(amount, coins, r2)
    requires (forall i :: 0 <= i < |r1| ==> r1[i] in coins) && (forall i :: 0 <= i < |r2| ==> r2[i] in coins)
    requires k <= |r1| && k <= |r2| && r1[..k] == r2[..k]
    ensures var m := if |r1| <= |r2| then |r1| else |r2|; r1[..m] == r2[..m]
    decreases |r1| - k
  {
    if k < |r1| && k < |r2| {
      assert Rest(amount, r1, k) == Rest(amount, r2, k);
      GreedyAt(amount, coins, r1, k);
      GreedyAt(amount, coins, r2, k);
      assert r1[k] in coins && r2[k] in coins;
      assert r1[k] == r2[k];
      assert r1[..k + 1] == r1[..k] + [r1[k]];
      assert r2[..k + 1] == r2[..k] + [r2[k]];
      GreedySamePrefix(amount, coins, r1, r2, k + 1);
    }
  }

  /** A proper prefix of a list of positive coins sums to less. */
  lemma ShorterSumsLess(r: seq<int>, s: seq<int>)
    requires |s| < |r| && r[..|s|] == s && Positive(r)
    ensures Sum(s) < Sum(r)
  {
    SumPrefixLess(r, |s|);
  }

  /**
   * The greedy choice pins the change down: over positive coins, two greedy
   * results with the same sum are the same list.
   */
  lemma GreedyChangeUnique(amount: int, coins: seq<int>, r1: seq<int>, r2: seq<int>)
    requires Positive(coins)
    requires GreedyChoice(amount, coins, r1) && GreedyChoice(amount, coins, r2)
    requires (forall i :: 0 <= i < |r1| ==> r1[i] in coins) && (forall i :: 0 <= i < |r2| ==> r2[i] in coins)
    requires Sum(r1) == Sum(r2)
    ensures r1 == r2
  {
    GreedySamePrefix(amount, coins, r1, r2, 0);
    PositiveMembers(coins, r1);
    PositiveMembers(coins, r2);
    if |r1| < |r2| {
      assert r1[..|r1|] == r1;
      ShorterSumsLess(r2, r1);
    }
    if |r2| < |r1| {
      assert r2[..|r2|] == r2;
      ShorterSumsLess(r1, r2);
    }
    assert r1[..|r1|] == r1 && r2[..|r2|] == r2;
  }

  /** For 4 with coins [3, 2, 1] the greedy change is [3, 1]; [2, 2] sums to 4 but is not greedy. */
  lemma GreedyExample()
    ensures GreedyChoice(4, [3, 2, 1], [3, 1])
    ensures !GreedyChoice(4, [3, 2, 1], [2, 2])
  {
    assert [3, 1][..1] == [3] && [3][..0] == [];
    assert [2, 2][..1] == [2] && [2][..0] == [];
    assert !GreedyPick([3, 2, 1], 2, Rest(4, [2, 2], 0)) by {
      assert [2, 2][..0] == [] && Rest(4, [2, 2], 0) == 4;
      assert 3 in [3, 2, 1];
    }
  }

  lemma PositiveMembers(coins: seq<int>, r: seq<int>)
    requires Positive(coins) && forall i :: 0 <= i < |r| ==> r[i] in coins
    ensures Positive(r)
  {
    forall i | 0 <= i < |r| ensures r[i] > 0 {
      var j :| 0 <= j < |coins| && coins[j] == r[i];
    }
  }
}

/** hw5.py `rod_cutting`: the best price for a rod of a given length, cut into pieces
    of the listed lengths (any piece may be used any number of times, and what is left
    over is not sold), by bottom-up dynamic programming over a table. */
module RodCutting {
  import opened Options

  datatype Error = IndexError

  /** The source's implicit demands on its inputs: piece j has length lengths[j] >= 1
      and price prices[j]. */
  predicate Pieces(lengths: seq<int>, prices: seq<int>) {
    |lengths| <= |prices| && forall j :: 0 <= j < |lengths| ==> lengths[j] >= 1
  }

  /** The best price for length n using the first k pieces for the first cut: the value
      the inner loop leaves in `max_val` after k rounds. */
  function BestUsing(lengths: seq<int>, prices: seq<int>, n: nat, k: nat): int
    requires Pieces(lengths, prices) && k <= |lengths|
    decreases n, k
  {
    if k == 0 then 0
    else
      var rest := BestUsing(lengths, prices, n, k - 1);
      if lengths[k - 1] <= n then
        var cut := prices[k - 1] + Best(lengths, prices, n - lengths[k - 1]);
        if cut > rest then cut else rest
      else rest
  }

  /** `dp[n]`: the best price for length n. */
  function Best(lengths: seq<int>, prices: seq<int>, n: nat): int
    requires Pieces(lengths, prices)
    decreases n, |lengths| + 1
  {
    BestUsing(lengths, prices, n, |lengths|)
  }

  /** A cutting plan lists the pieces cut, by index. */
  predicate IsPlan(lengths: seq<int>, plan: seq<nat>) {
    forall i :: 0 <= i < |plan| ==> plan[i] < |lengths|
  }

  function PlanLength(lengths: seq<int>, plan: seq<nat>): int
    requires IsPlan(lengths, plan)
  {
    if plan == [] then 0 else lengths[plan[0]] + PlanLength(lengths, plan[1..])
  }

  function PlanValue(lengths: seq<int>, prices: seq<int>, plan: seq<nat>): int
    requires Pieces(lengths, prices) && IsPlan(lengths, plan)
  {
    if plan == [] then 0 else prices[plan[0]] + PlanValue(lengths, prices, plan[1..])
  }

  /** A plan fits a rod of length n when its pieces add up to at most n. */
  predicate Fits(lengths: seq<int>, prices: seq<int>, plan: seq<nat>, n: nat) {
    Pieces(lengths, prices) && IsPlan(lengths, plan) && PlanLength(lengths, plan) <= n
  }

  /** Every first cut considered is bounded by the best: `max_val` only grows. */
  lemma {:induction false} BestUsingCovers(lengths: seq<int>, prices: seq<int>, n: nat, k: nat, j: nat)
    requires Pieces(lengths, prices) && j < k <= |lengths| && lengths[j] <= n
    ensures prices[j] + Best(lengths, prices, n - lengths[j]) <= BestUsing(lengths, prices, n, k)
    decreases k
  {
    if j < k - 1 {
      BestUsingCovers(lengths, prices, n, k - 1, j);
    }
  }

  /** The best is never negative: leaving the rod uncut is worth 0. */
  lemma {:induction false} BestUsingNonNegative(lengths: seq<int>, prices: seq<int>, n: nat, k: nat)
    requires Pieces(lengths, prices) && k <= |lengths|
    ensures BestUsing(lengths, prices, n, k) >= 0
    decreases k
  {
    if k > 0 {
      BestUsingNonNegative(lengths, prices, n, k - 1);
    }
  }

  lemma PlanLengthNonNegative(lengths: seq<int>, prices: seq<int>, plan: seq<nat>)
    requires Pieces(lengths, prices) && IsPlan(lengths, plan)
    ensures PlanLength(lengths, plan) >= 0
  {
  }

  /** No plan that fits is worth more than the best price. */
  lemma {:induction false} BestBoundsEveryPlan(lengths: seq<int>, prices: seq<int>, plan: seq<nat>, n: nat)
    requires Fits(lengths, prices, plan, n)
    ensures PlanValue(lengths, prices, plan) <= Best(lengths, prices, n)
    decreases |plan|
  {
    if plan == [] {
      BestUsingNonNegative(lengths, prices, n, |lengths|);
    } else {
      var j := plan[0];
      var rest := plan[1..];
      assert IsPlan(lengths, rest) by {
        forall i | 0 <= i < |rest| ensures rest[i] < |lengths| {
          assert rest[i] == plan[i + 1];
        }
      }
      PlanLengthNonNegative(lengths, prices, rest);
      BestBoundsEveryPlan(lengths, prices, rest, n - lengths[j]);
      BestUsingCovers(lengths, prices, n, |lengths|, j);
    }
  }

  /** Some plan that fits is worth exactly the best price using the first k pieces first. */
  lemma {:induction false} BestUsingAchieved(lengths: seq<int>, prices: seq<int>, n: nat, k: nat)
    returns (plan: seq<nat>)
    requires Pieces(lengths, prices) && k <= |lengths|
    ensures Fits(lengths, prices, plan, n) && PlanValue(lengths, prices, plan) == BestUsing(lengths, prices, n, k)
    decreases n, k
  {
    if k == 0 {
      plan := [];
    } else {
      var restPlan := BestUsingAchieved(lengths, prices, n, k - 1);
      if lengths[k - 1] <= n && prices[k - 1] + Best(lengths, prices, n - lengths[k - 1]) > BestUsing(lengths, prices, n, k - 1) {
        var tail := BestAchieved(lengths, prices, n - lengths[k - 1]);
        plan := [k - 1] + tail;
        assert plan[1..] == tail;
      } else {
        plan := restPlan;
      }
    }
  }

  /** The best price is the value of some plan that fits. */
  lemma BestAchieved(lengths: seq<int>, prices: seq<int>, n: nat) returns (plan: seq<nat>)
    requires Pieces(lengths, prices)
    ensures Fits(lengths, prices, plan, n) && PlanValue(lengths, prices, plan) == Best(lengths, prices, n)
    decreases n, |lengths| + 1
  {
    plan := BestUsingAchieved(lengths, prices, n, |lengths|);
  }

  /** `dp[n]` is the maximum over all plans that fit a rod of length n. */
  lemma BestIsOptimal(lengths: seq<int>, prices: seq<int>, n: nat)
    requires Pieces(lengths, prices)
    ensures forall plan :: Fits(lengths, prices, plan, n) ==> PlanValue(lengths, prices, plan) <= Best(lengths, prices, n)
    ensures exists plan :: Fits(lengths, prices, plan, n) && PlanValue(lengths, prices, plan) == Best(lengths, prices, n)
  {
    forall plan | Fits(lengths, prices, plan, n)
      ensures PlanValue(lengths, prices, plan) <= Best(lengths, prices, n)
    {
      BestBoundsEveryPlan(lengths, prices, plan, n);
    }
    var best := BestAchieved(lengths, prices, n);
  }

  /** No piece fits a rod of length 0. */
  lemma {:induction false} BestOfNothing(lengths: seq<int>, prices: seq<int>, k: nat)
    requires Pieces(lengths, prices) && k <= |lengths|
    ensures BestUsing(lengths, prices, 0, k) == 0
  {
    if k > 0 {
      BestOfNothing(lengths, prices, k - 1);
    }
  }

  /** `rod_cutting(lengths, prices, total_length)`. A negative length leaves the table
      too short to hold `dp[total_length]`. */
  method RodCut(lengths: seq<int>, prices: seq<int>, totalLength: int) returns (r: Result<int, Error>)
    requires Pieces(lengths, prices)
    ensures totalLength < 0 ==> r == Failure(IndexError)
    ensures totalLength >= 0 ==> r == Success(Best(lengths, prices, totalLength))
  {
    if totalLength < 0 {
      return Failure(IndexError);
    }
    var dp := new int[totalLength + 1](_ => 0);
    BestOfNothing(lengths, prices, |lengths|);
    for i := 1 to totalLength + 1
      invariant forall m :: 0 <= m < i ==> dp[m] == Best(lengths, prices, m)
    {
      var maxVal := 0;
      for j := 0 to |lengths|
        invariant maxVal == BestUsing(lengths, prices, i, j)
        invariant forall m :: 0 <= m < i ==> dp[m] == Best(lengths, prices, m)
      {
        if lengths[j] <= i {
          var cut := prices[j] + dp[i - lengths[j]];
          maxVal := if cut > maxVal then cut else maxVal;
        }
      }
      dp[i] := maxVal;
    }
    return Success(dp[totalLength]);
  }

  /** The worked example: pieces of length 1 to 5 priced 1, 5, 8, 9, 13 and a rod of 5. */
  method Example() returns (r: Result<int, Error>)
    ensures r == Success(13)
  {
    var lengths, prices := [1, 2, 3, 4, 5], [1, 5, 8, 9, 13];
    assert Best(lengths, prices, 0) == 0;
    assert Best(lengths, prices, 1) == 1;
    assert Best(lengths, prices, 2) == 5;
    assert Best(lengths, prices, 3) == 8;
    assert Best(lengths, prices, 4) == 10;
    assert Best(lengths, prices, 5) == 13;
    r := RodCut(lengths, prices, 5);
  }
}

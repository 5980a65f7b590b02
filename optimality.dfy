/**
 * Why the policy is called theoretically optimal: with no commission and no
 * market impact, the profit of a trade column is the sum, over each pair of
 * consecutive closes, of the shares held between them times the price move.
 * The policy earns the cap times every absolute move, and no trade column
 * that keeps its position within the cap earns more.
 */
module Optimality {
  import opened TradeSums
  import opened TheoreticallyOptimalStrategy

  /** Shares held from the close of session `i` to the close of session `i + 1`. */
  function Holding(trades: seq<int>, i: nat): int
    requires i < |trades|
  {
    Sum(trades[..i + 1])
  }

  /** Every running position of the column lies within the cap. */
  predicate WithinCap(trades: seq<int>)
  {
    forall i :: 0 <= i < |trades| ==> -PositionCap <= Holding(trades, i) <= PositionCap
  }

  /** Mark-to-market profit over the first `k` close-to-close moves, cost-free. */
  function Gain(trades: seq<int>, prices: seq<real>, k: nat): real
    requires |trades| == |prices| && k < |prices|
  {
    if k == 0 then 0.0
    else Gain(trades, prices, k - 1) + (Holding(trades, k - 1) as real) * (prices[k] - prices[k - 1])
  }

  /** On a series whose close never changes, no column gains or loses. */
  lemma {:induction false} FlatPricesEarnNothing(trades: seq<int>, prices: seq<real>, k: nat)
    requires |trades| == |prices| && k < |prices|
    requires forall j :: 0 <= j < |prices| ==> prices[j] == prices[0]
    ensures Gain(trades, prices, k) == 0.0
  {
    if k > 0 {
      FlatPricesEarnNothing(trades, prices, k - 1);
      assert prices[k] == prices[k - 1];
    }
  }

  function Abs(x: real): real
  {
    if x < 0.0 then -x else x
  }

  /** Sum of the absolute sizes of the first `k` close-to-close moves: never
      less than the net move from the first close to close `k`. */
  function TotalMove(prices: seq<real>, k: nat): (m: real)
    requires k < |prices|
    ensures m >= Abs(prices[k] - prices[0])
  {
    if k == 0 then 0.0 else TotalMove(prices, k - 1) + Abs(prices[k] - prices[k - 1])
  }

  /** One move: a holding within the cap earns at most the cap times the
      absolute move, so a gain bound carries over to one more move. */
  lemma MoveBound(h: int, d: real, g: real, t: real)
    requires -PositionCap <= h <= PositionCap
    requires g <= (PositionCap as real) * t
    ensures (h as real) * d <= (PositionCap as real) * Abs(d)
    ensures g + (h as real) * d <= (PositionCap as real) * (t + Abs(d))
  {
  }

  /** Holding the target through the next move earns the cap times its size. */
  lemma TargetEarnsMove(prices: seq<real>, i: nat)
    requires i + 1 < |prices|
    ensures (Target(prices, i) as real) * (prices[i + 1] - prices[i]) == (PositionCap as real) * Abs(prices[i + 1] - prices[i])
  {
  }

  /** The policy's profit is the cap times the total absolute move. */
  lemma {:induction false} OptimalGainIsCapTimesMove(prices: seq<real>, k: nat)
    requires k < |prices|
    ensures Gain(OptimalTrades(prices), prices, k) == (PositionCap as real) * TotalMove(prices, k)
  {
    if k > 0 {
      OptimalGainIsCapTimesMove(prices, k - 1);
      PrefixSumIsPosition(prices, k);
      assert Holding(OptimalTrades(prices), k - 1) == Target(prices, k - 1);
      TargetEarnsMove(prices, k - 1);
    }
  }

  /** No column that respects the cap earns more than the cap times the
      total absolute move. */
  lemma {:induction false} CappedGainBound(trades: seq<int>, prices: seq<real>, k: nat)
    requires |trades| == |prices| && k < |prices|
    requires WithinCap(trades)
    ensures Gain(trades, prices, k) <= (PositionCap as real) * TotalMove(prices, k)
  {
    if k > 0 {
      CappedGainBound(trades, prices, k - 1);
      MoveBound(Holding(trades, k - 1), prices[k] - prices[k - 1],
                Gain(trades, prices, k - 1), TotalMove(prices, k - 1));
    }
  }

  /** The policy respects the cap, and over the whole series its cost-free
      profit is at least that of any other column that respects the cap. */
  lemma OptimalTradesMaximiseGain(trades: seq<int>, prices: seq<real>)
    requires |prices| > 0 && |trades| == |prices|
    requires WithinCap(trades)
    ensures WithinCap(OptimalTrades(prices))
    ensures Gain(trades, prices, |prices| - 1) <= Gain(OptimalTrades(prices), prices, |prices| - 1)
  {
    forall i | 0 <= i < |prices|
      ensures -PositionCap <= Holding(OptimalTrades(prices), i) <= PositionCap
    {
      RunningPositionWithinCap(prices, i + 1);
    }
    CappedGainBound(trades, prices, |prices| - 1);
    OptimalGainIsCapTimesMove(prices, |prices| - 1);
  }

  /** Holding the benchmark's single purchase earns the cap times the net
      move since the first close. */
  lemma {:induction false} BenchmarkGain(bench: seq<int>, prices: seq<real>, k: nat)
    requires |bench| == |prices| && k < |prices|
    requires bench[0] == PositionCap
    requires forall i :: 1 <= i < |bench| ==> bench[i] == 0
    ensures Gain(bench, prices, k) == (PositionCap as real) * (prices[k] - prices[0])
  {
    if k > 0 {
      BenchmarkGain(bench, prices, k - 1);
      SumOfLeadingEntry(bench[..k]);
    }
  }

  /** On the same close series, cost-free, the benchmark column earns the cap
      times the net move and the policy never earns less. */
  lemma OptimalBeatsBenchmark(bench: seq<int>, prices: seq<real>)
    requires |prices| > 0 && |bench| == |prices|
    requires bench[0] == PositionCap
    requires forall i :: 1 <= i < |bench| ==> bench[i] == 0
    ensures Gain(bench, prices, |prices| - 1) == (PositionCap as real) * (prices[|prices| - 1] - prices[0])
    ensures Gain(bench, prices, |prices| - 1) <= Gain(OptimalTrades(prices), prices, |prices| - 1)
  {
    BenchmarkGain(bench, prices, |prices| - 1);
    OptimalGainIsCapTimesMove(prices, |prices| - 1);
  }
}

# Theoretically optimal strategy: a Dafny model

This project models the trade generation of `TheoreticallyOptimalStrategy.py`.
That module is part of a system that evaluates trading strategies on historical prices.
It covers two things:

- `trades()`: the perfect-foresight policy. It walks a daily close series once
  and keeps a running position. At every session but the last it looks at the
  next close. It targets +1000 shares when that close is higher and −1000
  shares otherwise, so an unchanged close goes short. It writes
  `target − position` as that session's trade.
- The trade-column part of `benchmark()`: a zero column over the date range
  whose first session buys 1000 shares.

The model has three modules:

- `TradeSums` (`trade_sums.dfy`): the sum of a trade column. This is the
  position the column builds up.
- `TheoreticallyOptimalStrategy` (`optimal_strategy.dfy`) holds the policy:
  - `Target`, the position chosen from two consecutive closes.
  - `PositionAfter`, the position path.
  - `OptimalTrades`, the trade column defined as the changes of that path.
  - The imperative `Trades` method. Like the source, it zero-fills an array
    and runs the loop with a `currentPos` variable. It is proved to produce
    `OptimalTrades`.
  - The `BenchmarkTrades` method.
  - Lemmas on the properties of the trade column.
- `Optimality` (`optimality.dfy`): the reason for the name "theoretically
  optimal". With no commission and no market impact, a column earns the sum
  of (shares held) × (close-to-close move). This is how the strategy's column
  is evaluated at line 70, where `compute_portvals` is called with both costs
  set to zero. The policy earns 1000 × the total absolute move. No column
  whose running position stays within ±1000 earns more. In particular, valued
  on the same symbol's closes, the policy never earns less than the benchmark
  column, which earns 1000 × the net move.

Prices are `real`. The policy only compares them with `>`. Positions and
trades are unbounded `int`. Every trade lies in ±2000 (`TradeValues`), so the
source's `int32` column cannot overflow. The input is an already aligned,
gap-filled close series, one entry per session.

## Model

| member | source | states |
|---|---|---|
| `TheoreticallyOptimalStrategy.Trades` | TheoreticallyOptimalStrategy.py:11-21 | The array is newly allocated, has one entry per session and equals `OptimalTrades(prices)`: each entry is the change of the foresight position path. The loop invariant keeps `currentPos` equal to the position path. |
| `TheoreticallyOptimalStrategy.Target` | TheoreticallyOptimalStrategy.py:17-19 | The target at session i is always full long or full short. It is +1000 exactly when the next close is strictly higher, so an unchanged close goes short. |
| `TheoreticallyOptimalStrategy.PositionAfter` | TheoreticallyOptimalStrategy.py:15-21 | The running position after k sessions, `current_pos`, is always 0, +1000 or −1000, so its magnitude never exceeds 1000. It is 0 exactly before the first trade, or when the series has fewer than two sessions. |
| `TheoreticallyOptimalStrategy.OptimalTrades` | TheoreticallyOptimalStrategy.py:11-21 | The trade column has exactly one entry per session. Each entry is the change of the position path between consecutive sessions. |
| `TheoreticallyOptimalStrategy.BenchmarkTrades` | TheoreticallyOptimalStrategy.py:44-47 | A non-empty range gives a newly allocated column of that length: +1000 at the first session, 0 everywhere else, summing to 1000. An empty range, where indexing the first row fails, gives `None`. |
| `TheoreticallyOptimalStrategy.ShortSeriesHasNoTrades` | TheoreticallyOptimalStrategy.py:13-16 | A series of at most one session gives an all-zero column. |
| `TheoreticallyOptimalStrategy.LastTradeIsZero` | TheoreticallyOptimalStrategy.py:13-20 | The last session's trade is always 0, because the loop stops one short. |
| `TheoreticallyOptimalStrategy.PositionFollowsNextMove` | TheoreticallyOptimalStrategy.py:19-21 | After session i the position is +1000 if the next close is higher and −1000 otherwise. Equal closes go short. |
| `TheoreticallyOptimalStrategy.PrefixSumIsPosition` | TheoreticallyOptimalStrategy.py:15-21 | The sum of the first k trades equals the running position after k sessions. |
| `TheoreticallyOptimalStrategy.RunningPositionWithinCap` | TheoreticallyOptimalStrategy.py:15-21 | Every prefix sum of the trade column lies in [−1000, 1000]. |
| `TheoreticallyOptimalStrategy.TotalIsFinalPosition` | TheoreticallyOptimalStrategy.py:16-21 | With two or more sessions, all trades sum to the final position. That position is +1000 if the last close is above the one before it, and −1000 otherwise. |
| `TheoreticallyOptimalStrategy.TradeValues` | TheoreticallyOptimalStrategy.py:19-20 | Every trade is in {−2000, −1000, 0, 1000, 2000}. ±1000 occurs only at the first session, which opens the first target. At a middle session the trade is 0 exactly when the move's direction repeats the previous one, and twice the new target otherwise. The last trade is 0. |
| `TheoreticallyOptimalStrategy.TradeIsLocal` | TheoreticallyOptimalStrategy.py:17-21 | Two series that agree on the closes at i−1, i and i+1 give the same trade at i. |
| `TheoreticallyOptimalStrategy.RiseThenFallExample` | TheoreticallyOptimalStrategy.py:16-21 | Closes 10, 12, 11 give the trades +1000, −2000, 0. |
| `TradeSums.SumOfLeadingEntry` | TheoreticallyOptimalStrategy.py:46-47 | A column that is zero after its first entry sums to that entry. |
| `Optimality.Gain` | TheoreticallyOptimalStrategy.py:68-70 | Defines the cost-free mark-to-market profit over the first k moves: the sum of (shares held from close i to close i+1) × (close i+1 − close i). This is what `compute_portvals` is meant to measure when commission and impact are zero. It is a definition with no contract of its own; the lemmas below state its properties. |
| `Optimality.FlatPricesEarnNothing` | TheoreticallyOptimalStrategy.py:68-70 | On a series whose close never changes, every trade column has zero cost-free profit. |
| `Optimality.TotalMove` | TheoreticallyOptimalStrategy.py:16-21 | The reference quantity the optimality lemmas are stated against, not something the loop computes: the sum of the absolute moves between the consecutive closes the loop walks. It is never less than the absolute net move from the first close. |
| `Optimality.TargetEarnsMove` | TheoreticallyOptimalStrategy.py:17-19 | Holding the target through the next move earns 1000 × the absolute size of that move. |
| `Optimality.OptimalGainIsCapTimesMove` | TheoreticallyOptimalStrategy.py:16-21 | The policy's cost-free profit over the first k moves is 1000 × the sum of the absolute close-to-close moves. |
| `Optimality.CappedGainBound` | TheoreticallyOptimalStrategy.py:68-70 | Any trade column whose running position stays within ±1000 earns at most 1000 × the total absolute move, cost-free. |
| `Optimality.OptimalTradesMaximiseGain` | TheoreticallyOptimalStrategy.py:8-22 | The policy's column respects the cap. Over the whole series its cost-free profit is at least that of every cap-respecting column. |
| `Optimality.BenchmarkGain` | TheoreticallyOptimalStrategy.py:46-48 | Cost-free, the benchmark column earns 1000 × the net move since the first close. |
| `Optimality.OptimalBeatsBenchmark` | TheoreticallyOptimalStrategy.py:68-72 | Valued on the same close series and cost-free, the policy's profit over the whole series is at least the benchmark's, which is 1000 × (last close − first close). |

## Left out

- `Optimality.Gain` has no postcondition of its own. Its properties (zero on a flat series, the cap bound, the policy's and the benchmark's exact profit) are stated as the separate lemmas in the table. A quantified postcondition on `Gain` made the nonlinear proofs that unfold it run out of resources.
- `Optimality.OptimalBeatsBenchmark`: values both columns on one close series. `benchmark()` always trades the fixed symbol JPM (line 45), while `testPolicy` runs the policy on its `symbol` argument (lines 69 and 71). So the lemma describes the comparison `testPolicy` makes only when that symbol is JPM.
- `compute_portvals` (the portfolio simulator, imported at line 3) is not part of this model. Its source is not available, so cash, commission and impact are not modelled. `Optimality.Gain` is the frictionless mark-to-market profit, which the simulator is meant to reproduce when both costs are zero. `Gain` uses exact `real` arithmetic, while the simulator keeps cash as a float, so floating-point rounding in the valuation is not modelled. The optimality lemmas hold exactly only in the model.
- `get_data`, the forward/backward gap fill and the SPY-based date index (lines 9-12, 44-45) are external data access. The input is an already aligned `seq<real>` of closes, and the benchmark takes only its number of sessions.
- NaN prices are not modelled. A NaN close would make `>` false, so the session would go short.
- The write at line 20 uses pandas chained assignment, which may not write through on some pandas versions. The model performs the intended write.
- `stats()` (lines 25-40) computes floating-point ratios, means and standard deviations whose results are never returned or used.
- `plot_graph()`, `testPolicy()` and `author()` (lines 52-83) only render charts and orchestrate calls.
- `indicators.py` is not part of this model. It wraps pandas rolling and exponential means over floats, fetches data and draws charts.

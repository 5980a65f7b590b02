/**
 * The perfect-foresight trading policy of TheoreticallyOptimalStrategy and
 * the buy-and-hold trade column of its benchmark.
 *
 * A price series is the sequence of adjusted closes of one symbol, one entry
 * per trading session, already gap-filled. A trade column holds one signed
 * share delta per session (positive buys, negative sells).
 */
module TheoreticallyOptimalStrategy {
  import opened TradeSums

  /** The number of shares the policy holds long or short. */
  const PositionCap: int := 1000

  datatype Option<T> = None | Some(value: T)

  /** Position the policy takes at session `i`, knowing the close of session
      `i + 1`: long when the price rises, short otherwise (a flat price goes
      short). */
  function Target(prices: seq<real>, i: nat): (r: int)
    requires i + 1 < |prices|
    ensures r == PositionCap || r == -PositionCap
    ensures r == PositionCap <==> prices[i + 1] > prices[i]
  {
    if prices[i + 1] > prices[i] then PositionCap else -PositionCap
  }

  /** Position held once the trades of sessions `0 .. k-1` are applied. The
      last session never trades, so after all sessions the position is the
      target chosen at the second-to-last one. */
  function PositionAfter(prices: seq<real>, k: nat): (r: int)
    requires k <= |prices|
    ensures r in {0, PositionCap, -PositionCap}
    ensures -PositionCap <= r <= PositionCap
    ensures r == 0 <==> k == 0 || |prices| < 2
  {
    if k == 0 || |prices| < 2 then 0
    else if k < |prices| then Target(prices, k - 1)
    else Target(prices, k - 2)
  }

  /** The trade column of the policy: each session trades the change in the
      position path. */
  function OptimalTrades(prices: seq<real>): (r: seq<int>)
    ensures |r| == |prices|
  {
    seq(|prices|, i requires 0 <= i < |prices| => PositionAfter(prices, i + 1) - PositionAfter(prices, i))
  }

  /** trades(): zero-fill a column, then walk the sessions but the last,
      writing `target - current_pos` and moving `current_pos` to the target. */
  method Trades(prices: seq<real>) returns (trades: array<int>)
    ensures fresh(trades)
    ensures trades.Length == |prices|
    ensures trades[..] == OptimalTrades(prices)
  {
    trades := new int[|prices|](_ => 0);
    var currentPos := 0;
    var i := 0;
    while i < |prices| - 1
      invariant 0 <= i && (i == 0 || i < |prices|)
      invariant currentPos == PositionAfter(prices, i)
      invariant forall k :: 0 <= k < i ==> trades[k] == OptimalTrades(prices)[k]
      invariant forall k :: i <= k < trades.Length ==> trades[k] == 0
    {
      var currPrice := prices[i];
      var nextPrice := prices[i + 1];
      var action := if nextPrice > currPrice then PositionCap - currentPos else -PositionCap - currentPos;
      trades[i] := action;
      currentPos := currentPos + action;
      i := i + 1;
    }
    assert forall k :: i <= k < |prices| ==> OptimalTrades(prices)[k] == 0;
  }

  /** benchmark(): a zero column over `sessions` sessions whose first session
      buys the full position. An empty range has no first session to write,
      which the source does not survive; that case is `None`. */
  method BenchmarkTrades(sessions: nat) returns (r: Option<array<int>>)
    ensures r.None? <==> sessions == 0
    ensures r.Some? ==> fresh(r.value)
    ensures r.Some? ==> r.value.Length == sessions && r.value[0] == PositionCap
    ensures r.Some? ==> forall i :: 1 <= i < sessions ==> r.value[i] == 0
    ensures r.Some? ==> Sum(r.value[..]) == PositionCap
  {
    if sessions == 0 {
      return None;
    }
    var trades := new int[sessions](_ => 0);
    trades[0] := PositionCap;
    SumOfLeadingEntry(trades[..]);
    r := Some(trades);
  }

  /** With at most one session the loop never runs: every trade is zero. */
  lemma ShortSeriesHasNoTrades(prices: seq<real>)
    requires |prices| <= 1
    ensures forall i :: 0 <= i < |prices| ==> OptimalTrades(prices)[i] == 0
  {
  }

  /** The last session is never written, so its trade is zero. */
  lemma LastTradeIsZero(prices: seq<real>)
    requires |prices| > 0
    ensures OptimalTrades(prices)[|prices| - 1] == 0
  {
    var n := |prices|;
    assert PositionAfter(prices, n) == PositionAfter(prices, n - 1);
  }

  /** After deciding at session `i` the position is long exactly when the
      next close is higher; an unchanged close goes short. */
  lemma PositionFollowsNextMove(prices: seq<real>, i: nat)
    requires i + 1 < |prices|
    ensures prices[i + 1] > prices[i] ==> PositionAfter(prices, i + 1) == PositionCap
    ensures prices[i + 1] <= prices[i] ==> PositionAfter(prices, i + 1) == -PositionCap
  {
  }

  /** The running position equals the prefix sum of the trades written so far. */
  lemma {:induction false} PrefixSumIsPosition(prices: seq<real>, k: nat)
    requires k <= |prices|
    ensures Sum(OptimalTrades(prices)[..k]) == PositionAfter(prices, k)
  {
    if k > 0 {
      PrefixSumIsPosition(prices, k - 1);
      SumPrefixStep(OptimalTrades(prices), k - 1);
    }
  }

  /** Every prefix of the trade column keeps the position within the cap. */
  lemma RunningPositionWithinCap(prices: seq<real>, k: nat)
    requires k <= |prices|
    ensures -PositionCap <= Sum(OptimalTrades(prices)[..k]) <= PositionCap
  {
    PrefixSumIsPosition(prices, k);
  }

  /** With two or more sessions the whole column sums to the final position,
      the target chosen from the last two closes. */
  lemma TotalIsFinalPosition(prices: seq<real>)
    requires |prices| >= 2
    ensures Sum(OptimalTrades(prices)) == Target(prices, |prices| - 2)
    ensures Sum(OptimalTrades(prices)) == if prices[|prices| - 1] > prices[|prices| - 2] then PositionCap else -PositionCap
  {
    PrefixSumIsPosition(prices, |prices|);
    assert OptimalTrades(prices)[..|prices|] == OptimalTrades(prices);
  }

  /** The values a trade can take: the first session opens a full position,
      later sessions trade nothing when the direction of the move repeats and
      twice the cap when it reverses, and the last session trades nothing. */
  lemma TradeValues(prices: seq<real>, i: nat)
    requires i < |prices|
    ensures OptimalTrades(prices)[i] in {-2 * PositionCap, -PositionCap, 0, PositionCap, 2 * PositionCap}
    ensures i == |prices| - 1 ==> OptimalTrades(prices)[i] == 0
    ensures i == 0 < |prices| - 1 ==> OptimalTrades(prices)[i] == Target(prices, 0)
    ensures 0 < i < |prices| - 1 ==>
      (OptimalTrades(prices)[i] == 0 <==> (prices[i + 1] > prices[i] <==> prices[i] > prices[i - 1]))
    ensures 0 < i < |prices| - 1 && OptimalTrades(prices)[i] != 0 ==>
      OptimalTrades(prices)[i] == 2 * Target(prices, i)
    ensures (OptimalTrades(prices)[i] == PositionCap || OptimalTrades(prices)[i] == -PositionCap) ==> i == 0
  {
  }

  /** The trade at session `i` depends only on the closes of sessions
      `i - 1`, `i` and `i + 1`. */
  lemma TradeIsLocal(p: seq<real>, q: seq<real>, i: nat)
    requires |p| == |q| && i < |p|
    requires forall j :: 0 <= j < |p| && i <= j + 1 && j <= i + 1 ==> p[j] == q[j]
    ensures OptimalTrades(p)[i] == OptimalTrades(q)[i]
  {
    if i + 1 < |p| {
      assert p[i] == q[i] && p[i + 1] == q[i + 1];
    }
    if 0 < i {
      assert p[i - 1] == q[i - 1];
    }
  }

  /** Closes 10, 12, 11: go long for the rise, reverse to short for the fall,
      and leave the last session flat. */
  lemma RiseThenFallExample()
    ensures OptimalTrades([10.0, 12.0, 11.0]) == [PositionCap, -2 * PositionCap, 0]
  {
  }
}

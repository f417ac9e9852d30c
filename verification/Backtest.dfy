/**
 The backtest's fee accrual: fees are summed interval by interval between pool snapshots, both
 ends of an interval included.
 */
module Backtest {
  import opened Decimals

  datatype Swap = Swap(timestamp: int, tick: int, amount0: real, amount1: real)

  datatype TickRange = TickRange(lower: int, upper: int)

  datatype PoolState = PoolState(timeUnix: int, tick: int, block: nat)

  datatype Snapshot = Snapshot(timeUnix: int, tick: int, cumulativeFees: real, loss: real)

  datatype Simulation = Simulation(fees: real, loss: real, netPnL: real, snapshots: seq<Snapshot>)

  predicate InRange(range: TickRange, tick: int) {
    range.lower <= tick < range.upper
  }

  // 0.3 % of the swapped amounts.
  function Fee(swap: Swap): real {
    Quotient((swap.amount0 + swap.amount1) * 3.0, 1000.0)
  }

  predicate Counts(range: TickRange, swap: Swap, from: int, to: int) {
    from <= swap.timestamp <= to && InRange(range, swap.tick)
  }

  // Fees of the in-range swaps with from <= time <= to.
  function FeesIn(range: TickRange, swaps: seq<Swap>, from: int, to: int): real {
    if swaps == [] then 0.0
    else
      var last := swaps[|swaps| - 1];
      FeesIn(range, swaps[..|swaps| - 1], from, to) + if Counts(range, last, from, to) then Fee(last) else 0.0
  }

  method CalculateFeesAccrued(range: TickRange, swaps: seq<Swap>, from: int, to: int) returns (totalFees: real)
    ensures totalFees == FeesIn(range, swaps, from, to)
  {
    totalFees := 0.0;
    for i := 0 to |swaps|
      invariant totalFees == FeesIn(range, swaps[..i], from, to)
    {
      assert swaps[..i + 1][..i] == swaps[..i];
      var swapTime := swaps[i].timestamp;
      if swapTime < from || swapTime > to {
        continue;
      }
      var swapTick := swaps[i].tick;
      if swapTick >= range.lower && swapTick < range.upper {
        var feeAmount := Quotient((swaps[i].amount0 + swaps[i].amount1) * 3.0, 1000.0);
        totalFees := totalFees + feeAmount;
      }
    }
    assert swaps[..|swaps|] == swaps;
  }

  function Times(states: seq<PoolState>): (times: seq<int>)
    ensures |times| == |states|
  {
    seq(|states|, i requires 0 <= i < |states| => states[i].timeUnix)
  }

  // The total of the interval-by-interval sums.
  function IntervalFees(range: TickRange, swaps: seq<Swap>, times: seq<int>): real {
    if |times| < 2 then 0.0
    else
      var n := |times| - 1;
      IntervalFees(range, swaps, times[..n]) + FeesIn(range, swaps, times[n - 1], times[n])
  }

  // Token balances start at zero and are never updated, so the value that the loss is a share of is zero.
  method Simulate(range: TickRange, swaps: seq<Swap>, states: seq<PoolState>) returns (r: Simulation)
    ensures r.fees == IntervalFees(range, swaps, Times(states))
    ensures r.loss == 0.0 && r.netPnL == r.fees
    ensures |r.snapshots| == |states|
    ensures forall i :: 0 <= i < |states| ==>
      var earned := IntervalFees(range, swaps, Times(states)[..i + 1]);
      r.snapshots[i] == Snapshot(states[i].timeUnix, states[i].tick, earned, 0.0)
  {
    var token0, token1 := 0.0, 0.0;
    var cumulativeFees, cumulativeLoss := 0.0, 0.0;
    var snapshots: seq<Snapshot> := [];
    var times := Times(states);
    for i := 0 to |states|
      invariant |snapshots| == i
      invariant cumulativeFees == IntervalFees(range, swaps, times[..i]) && cumulativeLoss == 0.0
      invariant forall k :: 0 <= k < i ==>
        snapshots[k] == Snapshot(states[k].timeUnix, states[k].tick, IntervalFees(range, swaps, times[..k + 1]), 0.0)
    {
      assert times[..i + 1][..i] == times[..i];
      if i > 0 {
        var feesAccrued := CalculateFeesAccrued(range, swaps, states[i - 1].timeUnix, states[i].timeUnix);
        cumulativeFees := cumulativeFees + feesAccrued;
      }
      var lossShare := if InRange(range, states[i].tick) then -2.0 / 100.0 else -5.0 / 100.0;
      var positionValue := token0 * states[i].block as real + token1;
      cumulativeLoss := cumulativeLoss + positionValue * lossShare;
      snapshots := snapshots + [Snapshot(states[i].timeUnix, states[i].tick, cumulativeFees, cumulativeLoss)];
    }
    assert times[..|states|] == times;
    return Simulation(cumulativeFees, cumulativeLoss, cumulativeFees + cumulativeLoss, snapshots);
  }

  // ---------- main results ----------

  predicate Ordered(times: seq<int>) {
    forall i, j :: 0 <= i < j < |times| ==> times[i] <= times[j]
  }

  // A swap exactly on the common end of two intervals is counted in both.
  lemma {:induction false} AdjacentIntervals(range: TickRange, swaps: seq<Swap>, a: int, b: int, c: int)
    requires a <= b <= c
    ensures FeesIn(range, swaps, a, b) + FeesIn(range, swaps, b, c)
         == FeesIn(range, swaps, a, c) + FeesIn(range, swaps, b, b)
  {
    if swaps != [] {
      AdjacentIntervals(range, swaps[..|swaps| - 1], a, b, c);
    }
  }

  // Fees of the swaps exactly on an interior snapshot time, once per such time.
  function InteriorFees(range: TickRange, swaps: seq<Swap>, times: seq<int>): real {
    if |times| <= 2 then 0.0
    else
      var n := |times| - 1;
      InteriorFees(range, swaps, times[..n]) + FeesIn(range, swaps, times[n - 1], times[n - 1])
  }

  // Summing by interval is one pass over the whole span plus the interior times once more.
  lemma {:induction false} IntervalsAgainstOnePass(range: TickRange, swaps: seq<Swap>, times: seq<int>)
    requires |times| >= 2 && Ordered(times)
    ensures IntervalFees(range, swaps, times)
         == FeesIn(range, swaps, times[0], times[|times| - 1]) + InteriorFees(range, swaps, times)
  {
    var n := |times| - 1;
    if n > 1 {
      IntervalsAgainstOnePass(range, swaps, times[..n]);
      AdjacentIntervals(range, swaps, times[0], times[n - 1], times[n]);
    } else {
      assert IntervalFees(range, swaps, times[..1]) == 0.0;
    }
  }

  // A swap in range, with a fee, exactly on an interior snapshot time.
  ghost predicate PaidOn(range: TickRange, swap: Swap, times: seq<int>, i: int) {
    0 < i < |times| - 1 && Counts(range, swap, times[i], times[i]) && Fee(swap) != 0.0
  }

  ghost predicate PaysOnInterior(range: TickRange, swaps: seq<Swap>, times: seq<int>) {
    exists swap, i :: swap in swaps && PaidOn(range, swap, times, i)
  }

  predicate NoNegativeFee(swaps: seq<Swap>) {
    forall i :: 0 <= i < |swaps| ==> Fee(swaps[i]) >= 0.0
  }

  lemma {:induction false} NothingPaid(range: TickRange, swaps: seq<Swap>, from: int, to: int)
    requires forall swap :: swap in swaps && Counts(range, swap, from, to) ==> Fee(swap) == 0.0
    ensures FeesIn(range, swaps, from, to) == 0.0
  {
    if swaps != [] {
      NothingPaid(range, swaps[..|swaps| - 1], from, to);
    }
  }

  lemma {:induction false} FeesPositive(range: TickRange, swaps: seq<Swap>, from: int, to: int)
    requires NoNegativeFee(swaps)
    ensures FeesIn(range, swaps, from, to) >= 0.0
    ensures (exists swap :: swap in swaps && Counts(range, swap, from, to) && Fee(swap) != 0.0) ==>
      FeesIn(range, swaps, from, to) > 0.0
  {
    if swaps != [] {
      var init, last := swaps[..|swaps| - 1], swaps[|swaps| - 1];
      assert swaps == init + [last];
      FeesPositive(range, init, from, to);
    }
  }

  // Whatever the signs of the fees, nothing is counted twice when none falls on an interior time.
  lemma {:induction false} InteriorNothingPaid(range: TickRange, swaps: seq<Swap>, times: seq<int>)
    requires !PaysOnInterior(range, swaps, times)
    ensures InteriorFees(range, swaps, times) == 0.0
  {
    if |times| > 2 {
      var n := |times| - 1;
      forall swap, i | swap in swaps && PaidOn(range, swap, times[..n], i) ensures PaidOn(range, swap, times, i) {
      }
      InteriorNothingPaid(range, swaps, times[..n]);
      forall swap | swap in swaps && Counts(range, swap, times[n - 1], times[n - 1]) ensures Fee(swap) == 0.0 {
        assert !PaidOn(range, swap, times, n - 1);
      }
      NothingPaid(range, swaps, times[n - 1], times[n - 1]);
    }
  }

  lemma {:induction false} InteriorPositive(range: TickRange, swaps: seq<Swap>, times: seq<int>)
    requires NoNegativeFee(swaps)
    ensures InteriorFees(range, swaps, times) >= 0.0
    ensures PaysOnInterior(range, swaps, times) ==> InteriorFees(range, swaps, times) > 0.0
  {
    if |times| > 2 {
      var n := |times| - 1;
      InteriorPositive(range, swaps, times[..n]);
      FeesPositive(range, swaps, times[n - 1], times[n - 1]);
      forall swap, i | swap in swaps && PaidOn(range, swap, times, i)
        ensures InteriorFees(range, swaps, times) > 0.0
      {
        if i < n - 1 {
          assert PaidOn(range, swap, times[..n], i);
        }
      }
    }
  }

  // The two totals agree when no fee falls on an interior snapshot time.  When fees are not negative,
  // that is the only case, and the interval totals otherwise overstate the fees.
  lemma IntervalsExactIff(range: TickRange, swaps: seq<Swap>, times: seq<int>)
    requires |times| >= 2 && Ordered(times)
    ensures var onePass := FeesIn(range, swaps, times[0], times[|times| - 1]);
      var byInterval := IntervalFees(range, swaps, times);
      && (!PaysOnInterior(range, swaps, times) ==> byInterval == onePass)
      && (NoNegativeFee(swaps) ==>
            byInterval >= onePass && (byInterval == onePass <==> !PaysOnInterior(range, swaps, times)))
  {
    IntervalsAgainstOnePass(range, swaps, times);
    if !PaysOnInterior(range, swaps, times) {
      InteriorNothingPaid(range, swaps, times);
    } else if NoNegativeFee(swaps) {
      InteriorPositive(range, swaps, times);
    }
  }

  // A single swap is charged 0.3 % of its amounts, to within half a unit of a quotient, if it lies in the
  // closed interval of time and the half-open range of ticks, and nothing otherwise.
  lemma FeeOfOneSwap(range: TickRange, swap: Swap, from: int, to: int)
    ensures var fee := FeesIn(range, [swap], from, to);
      if from <= swap.timestamp <= to && range.lower <= swap.tick < range.upper
      then 3.0 * (swap.amount0 + swap.amount1) - 500.0 * UNIT <= 1000.0 * fee
             <= 3.0 * (swap.amount0 + swap.amount1) + 500.0 * UNIT
      else fee == 0.0
  {
    RoundedNear((swap.amount0 + swap.amount1) * 3.0 / 1000.0);
    assert [swap][..0] == [];
  }

  // And swaps are charged one by one, in whatever order.
  lemma {:induction false} FeesAdd(range: TickRange, swaps: seq<Swap>, more: seq<Swap>, from: int, to: int)
    ensures FeesIn(range, swaps + more, from, to) == FeesIn(range, swaps, from, to) + FeesIn(range, more, from, to)
  {
    if more == [] {
      assert swaps + more == swaps;
    } else {
      var last := |more| - 1;
      FeesAdd(range, swaps, more[..last], from, to);
      assert (swaps + more)[..|swaps| + last] == swaps + more[..last];
    }
  }
}

# Verified model of the LP bot's numeric and protocol core

This project models, in Dafny, the parts of the LP bot whose correctness is hard to see by reading:
the tick and liquidity arithmetic, the decimal square root and impermanent loss built on it, the
in-process event bus, base-58 decoding, nonce and replace-by-fee bookkeeping, backtest fee accrual,
the risk-source column and the allocation limits. `dafny verify dfyconfig.toml` checks all of it.

How the modules follow the source:

| module | source |
|---|---|
| `FloorMath`, `RealMath`, `Positional` | shared arithmetic: Euclidean division as `math/big` has it, order of reals, positional numerals |
| `TickTable`, `TickSearch`, `TickFormula` | `pkg/tickmath/tick_to_sqrt.go`, `pkg/tickmath/sqrt_to_tick.go` |
| `Amounts`, `Whitepaper`, `Liquidity`, `LiquidityRoundTrip` | `pkg/tickmath/amounts.go`, `pkg/tickmath/liquidity.go` |
| `IntSqrt` | `sqrtInt` of `pkg/tickmath/price_tick.go` |
| `Decimals`, `NewtonStep`, `DecimalSqrt`, `RootNearOne` | `pkg/decimal/arith.go`, with the division of the decimal library |
| `ImpermanentLoss`, `LossSign` | `pkg/il/v2.go`, `pkg/il/v3.go` |
| `BusProtocol`, `BusSafety`, `Bus` | `internal/adapters/bus/inproc/bus.go` |
| `Base58` | `base58Decode` of `internal/adapters/mev/jito/mev.go` |
| `Nonces`, `ReplaceByFee`, `NonceRuns` | `internal/core/execution/noncemanager.go`, `internal/core/execution/rbf.go` |
| `Backtest` | `cmd/lpbot-backtest/simulator.go` |
| `RiskSources` | split, trim and join of `internal/adapters/store/postgres/risk_repo.go` |
| `Allocation` | `internal/core/risk/alloc.go` |

Loops and in-place updates are methods and classes proved against specification functions; what the
source promises is then proved about those functions, over all inputs and all runs. Conventions:

- Sums and products of decimals are exact. Every quotient is rounded to sixteen fractional digits, ties
  away from zero, as the decimal library (shopspring/decimal v1.4.0, not part of this model) does it; one
  such last digit, 10^-16, is called a unit. Exact quotients appear only as steps of proofs (`NewtonStep`).
- Token amounts computed from whole numbers are whole decimals and are held as integers; amounts given by
  a caller are decimals, which the source parses as whole numbers.
- Run-time panics of the source (division by zero, arithmetic on an unparsed amount) are error results
  here, not preconditions. Splitting a string asks for a non-empty separator, since the source's loop does
  not end without one. Pointers are taken as non-nil.

Where the code and its own documentation disagree, the model follows the code and states how far apart
they are:

- The table is documented as sqrt(1.0001^tick)·2^96. The factor in the code is smaller, and the
  documented value is met at tick 0 only (`DocumentedOnlyAtZero`).
- `AmountsForLiquidity` is documented as the inverse of `LiquidityForAmounts`. Outside the range it is
  exactly when the division that gave the amount left no remainder. In range the round trip returns the
  smaller of two shares that are both measured against the whole range, at most half of the liquidity,
  so it is the identity only for zero (`InverseIff`, `InRangeBracket`, `InRangeLosesHalf`).
- `AmountsForLiquidity` checks neither the order of its bounds nor that they are on the table, and its
  amounts can be negative; `NegativeAmountIff` gives the exact condition for any positive prices, and
  `SwappedBoundsGoNegative` an input.
- The bus port promises no handler call after `Unsubscribe` returns. That holds exactly when the queue
  was empty and the delivery loop had no event in hand, received but not yet handled
  (`QuietAfterUnsubscribeIff`). Suffix patterns do not require the dot (`SuffixPattern`).
- `RecordAttempt` is documented to obtain a nonce; it leaves nonce 0, which every replacement then uses until
  the hash is cleared or a caller names a nonce, so two such hashes share it (`RecordedHashesShareZero`).
- Re-initialising from the chain repeats a nonce exactly when the windows handed out before and after
  overlap, from either side (`ReinitialisingRepeatsIff`).
- Impermanent loss is documented as never positive (`internal/core/pnl/il.go`). The computed root of 1 is
  eleven units too large, so an unchanged price already shows a gain (`UnchangedPriceShowsGain`). V2 shows
  a gain for every rounded ratio within 8.73e-8 of 1 and a strict loss for every one 9.82e-8 or more away;
  in between the fifth guess of the root decides (`ILV2SignIff`). No such gain reaches thirteen units.
- V3 divides both square-root prices by 2^96 first, and keeps sixteen digits of each. Low prices lose most
  of their digits: those below 2^96·5·10^-17 count as zero, and at the bottom of the table prices 0.4 %
  apart count as equal, which shows a gain where V2 shows a loss (`RatioPrecision`, `LowPricesShowGain`).
  The sign is therefore stated through the rounded ratio q: below the range a gain if and only if
  q ≥ 1 − 10 units, above it if and only if q ≤ 1 − 12 units, in range if and only if
  (1 − q)² ≤ 22 units − (1 + q²)/2 units (`ILV3SignIff`). A position opened below its range shows a gain
  of any size when the price rises towards it (`OpenedBelowGainIff`), one opened above it when the price
  falls (`OpenedAboveGains`).
- In range V3 is documented as the same as V2. It is the same formula at another rounding of the ratio
  (`InRangeSameFormula`), and the two can differ in sign (`LowPricesShowGain`).
- The exposure limit is checked when a position is admitted, not when it is opened. It holds throughout a
  run exactly when every status change that raises exposure has room (`LimitsHoldOverRunsIff`). The share
  is rounded, so the limit it holds up to is MaxExposure plus half a unit (`RoundingAdmitsMore`).
- The backtest's interval sums count a swap on an interior snapshot time twice (`IntervalsExactIff`),
  and its loss is identically zero (`Simulate`).

## Model

| member | source | states |
|---|---|---|
| FloorMath.DivIsDivision | pkg/tickmath/tick_to_sqrt.go:41-45 | the repeated-subtraction quotient used in specifications is Euclidean division, negative operands included |
| TickTable.TickToSqrtPriceX96 | pkg/tickmath/tick_to_sqrt.go:12-49 | a tick is refused if and only if it is below −887272 or above 887272; otherwise the loop returns the table entry of the tick |
| TickTable.FirstEntries | pkg/tickmath/tick_to_sqrt.go:36-42 | the entries of ticks 0 and 1 are 79228162514264337593543950336 and 79231140611967829484685492224 |
| TickTable.NextEntry | pkg/tickmath/tick_to_sqrt.go:38-42 | from tick 0 on the next entry is the entry times the entry of tick 1 over 2^96, rounded down |
| TickTable.OppositeEntry | pkg/tickmath/tick_to_sqrt.go:44-46 | the entry of −t is 2^192 over the entry of t, rounded down |
| TickTable.GrowthOverSteps | pkg/tickmath/tick_to_sqrt.go:38-42 | Bernoulli bound: k ≤ 13302 steps multiply an entry by at most F/(F − k·161443), F = 4295128739 |
| TickTable.GrowBound | pkg/tickmath/tick_to_sqrt.go:38-42 | no positive-tick entry exceeds 2^163 |
| TickTable.NeighboursApart | pkg/tickmath/tick_to_sqrt.go:44-46 | neighbouring entries a < b satisfy a·b ≤ 2^192·(b − a), enough for their floored reciprocals to differ |
| TickTable.ReciprocalsDescend | pkg/tickmath/tick_to_sqrt.go:44-46 | floored reciprocals of neighbouring entries are positive and strictly decreasing |
| TickTable.TableStrictlyIncreasing | pkg/tickmath/tick_to_sqrt.go:30-48 | s < t implies entry(s) < entry(t) over all 1,774,545 ticks, across zero included |
| TickTable.OppositeTicksReciprocal | pkg/tickmath/tick_to_sqrt.go:44-46 | F(t)·F(−t) lies in (2^192 − F(t), 2^192] |
| TickFormula.FallsShort | pkg/tickmath/tick_to_sqrt.go:38-42 | for every n > 0, (F(n) + 1)^2 stays at least one part in 50000 below 1.0001^n·2^192 |
| TickFormula.FallsNoFurther | pkg/tickmath/tick_to_sqrt.go:38-42 | for every n, F(n)² is at least (1.0001·(1 − 1/40000))^n·2^192: the shortfall is at most one part in 40000 per tick |
| TickFormula.DocumentedOnlyAtZero | pkg/tickmath/tick_to_sqrt.go:8-11 | the documented value sqrt(1.0001^t)·2^96, rounded down, is the entry of tick t if and only if t = 0 |
| TickSearch.SqrtPriceX96ToTick | pkg/tickmath/sqrt_to_tick.go:12-39 | refuses non-positive prices; otherwise the terminating search, with division towards zero, finds the greatest tick whose entry is at most the price |
| TickSearch.TickOfIsFloor | pkg/tickmath/sqrt_to_tick.go:10-11 | the specified tick has the floor property: its entry is at most the price and the next entry exceeds it |
| TickSearch.FloorTickUnique | pkg/tickmath/sqrt_to_tick.go:10-11 | at most one tick has the floor property |
| TickSearch.RoundTrip | pkg/tickmath/sqrt_to_tick.go:21-38 | price-to-tick of tick-to-price is the identity on every tick |
| TickSearch.TickOrderIsPriceOrder | pkg/tickmath/sqrt_to_tick.go:21-38 | tick(p) ≥ t if and only if p ≥ entry(t) |
| TickSearch.Saturation | pkg/tickmath/sqrt_to_tick.go:22-38 | MIN_TICK − 1 exactly below the table, MAX_TICK exactly at or above its top |
| Amounts.AmountsForLiquidity | pkg/tickmath/amounts.go:17-67 | the three in-place branches compute the specified holdings, or the division by zero, for all integer inputs |
| Amounts.HoldingsFailIff | pkg/tickmath/amounts.go:17-55 | for all integer inputs, the division fails if and only if the branch divides by a price that is zero; a price that is not positive counts as tick 0 |
| Amounts.Position | pkg/tickmath/amounts.go:27-64 | with bounds on the table the three branches are one formula in the price clamped to the range |
| Amounts.BranchesAreClamped | pkg/tickmath/amounts.go:21-64 | choosing the branch by tick is choosing it by price, and the branches agree with the clamped formula |
| Whitepaper.Amount0IsFloor | pkg/tickmath/amounts.go:29-36 | amount 0 is the exact real l(1/√a − 1/√b) of the whitepaper rounded down |
| Whitepaper.Amount1IsFloor | pkg/tickmath/amounts.go:42-45 | amount 1 is the exact real l(√b − √a) of the whitepaper rounded down |
| Liquidity.LiquidityForAmounts | pkg/tickmath/liquidity.go:12-63 | refuses an upper price not above the lower one and unparsable amounts; otherwise computes the specified liquidity in each branch |
| Liquidity.BoughtErrors | pkg/tickmath/liquidity.go:12-46 | bounds are refused if and only if upper ≤ lower; otherwise the amounts fail if and only if one that the branch needs is not whole |
| Liquidity.SplitConserves | pkg/tickmath/amounts.go:17-67 | for ticks A < B < C and any price, holdings of [A,B] plus [B,C] never exceed those of [A,C] and fall short by at most 1 per token |
| Liquidity.AmountsMonotoneInPrice | pkg/tickmath/amounts.go:21-64 | over all prices, branch boundaries included, both amounts are ≥ 0, amount 0 never rises and amount 1 never falls |
| Liquidity.NegativeAmountIff | pkg/tickmath/amounts.go:17-67 | for any positive bounds, price and any liquidity: an amount is negative if and only if, on the in-range branch, liquidity is negative or positive with the price below the lower bound, and on the others liquidity·(upper − lower) is negative |
| Liquidity.SwappedBoundsGoNegative | pkg/tickmath/amounts.go:17-36 | the input: bounds at ticks 10 and 0 in the wrong order, price at tick −5 |
| LiquidityRoundTrip.BoughtByPrice | pkg/tickmath/liquidity.go:20-46 | with bounds on the table the branch is chosen by price and both token-0 formulas agree |
| LiquidityRoundTrip.BoughtIsGreatest | pkg/tickmath/liquidity.go:26-46 | the liquidity bought is the greatest whose exact full-range cost fits the amounts the branch looks at |
| LiquidityRoundTrip.NeverOverspends | pkg/tickmath/liquidity.go:12-63 | holdings of the liquidity bought never exceed the given amounts, in all three branches |
| LiquidityRoundTrip.InRangeLosesHalf | pkg/tickmath/liquidity.go:38-46 | in range, buying back what liquidity l holds yields at most l/2 |
| LiquidityRoundTrip.InRangeBracket | pkg/tickmath/liquidity.go:38-46 | in range, what is bought back lies between the smaller exact share of the two tokens and the same share with one unit of its token less |
| LiquidityRoundTrip.InverseIff | pkg/tickmath/amounts.go:15-16 | the documented inverse holds if and only if, below the range, l·(U−Lo)·2^96 is divisible by U·Lo, above it, l·(U−Lo) is divisible by 2^96, and in range, l = 0 |
| LiquidityRoundTrip.OneUnitIsLost | pkg/tickmath/amounts.go:15-16 | the input: liquidity 1 between ticks −1 and 0, price at tick 0, is not bought back |
| LiquidityRoundTrip.NeverInflates | pkg/tickmath/liquidity.go:26-37 | buying back never yields more than l; below the range the loss is at most U·Lo/((U−Lo)·2^96) + 1, above it at most 2^96/(U−Lo) + 1 |
| IntSqrt.SqrtInt | pkg/tickmath/price_tick.go:87-118 | terminates with x² ≤ n < (x+1)² for n > 0 and 0 otherwise; the backtrack branch is never reached |
| IntSqrt.RootUnique | pkg/tickmath/price_tick.go:86 | at most one x is the integer root of n |
| IntSqrt.NextNotBelow | pkg/tickmath/price_tick.go:100-101 | from any positive guess the next floored guess is not below the root |
| DecimalSqrt.Sqrt | pkg/decimal/arith.go:45-65 | negative input is refused, zero is zero, otherwise the fifty-round loop with rounded quotients returns the specified iterate |
| DecimalSqrt.SqrtRefusesIff | pkg/decimal/arith.go:46-48 | the root is refused if and only if the decimal is negative |
| DecimalSqrt.OneRound | pkg/decimal/arith.go:55-63 | a round ends the loop if and only if its step is below 0.000001 |
| Decimals.RoundedNear | pkg/decimal/arith.go:21-30 | a rounded quotient is within half a unit of the exact one and keeps its sign |
| Decimals.RoundedAtLeast | pkg/decimal/arith.go:21-30 | a rounded value reaches a positive number of units exactly from half a unit below on |
| Decimals.TiesAwayFromZero | pkg/decimal/arith.go:21-30 | ties are rounded away from zero on either side |
| NewtonStep.StepIsError | pkg/decimal/arith.go:52-58 | in exact arithmetic next² − d = (next − guess)² |
| NewtonStep.StepsHalve | pkg/decimal/arith.go:55-63 | in exact arithmetic, from the second round on every step is at most half the one before, and guesses only descend |
| NewtonStep.Contracts | pkg/decimal/arith.go:55-58 | two guesses not far below the root come twice as close in one exact step, so rounding errors do not add up |
| NewtonStep.StepsMonotone | pkg/decimal/arith.go:55-63 | in exact arithmetic every step grows with d from 4 on, so leaving by tolerance is downward closed |
| DecimalSqrt.RoundedRound | pkg/decimal/arith.go:56-57 | a rounded round is within 3/4 of a unit of the exact one |
| DecimalSqrt.HardlyRises | pkg/decimal/arith.go:55-63 | from a guess at most a unit below the root no round rises by more than three units |
| DecimalSqrt.SqrtNotBelow | pkg/decimal/arith.go:45-65 | for every d ≥ 10^-16 the result s satisfies (s + unit)² ≥ d and s ≤ d/4 + 1.5 + 151 units |
| DecimalSqrt.RootOfTiny | pkg/decimal/arith.go:53-61 | below 10^-16 the result is 0 |
| DecimalSqrt.SqrtAccurate | pkg/decimal/arith.go:55-63 | for 10^-16 ≤ d ≤ 2^90 the loop leaves by tolerance, and s² lies between d − 2s units and d + 1.000001·10^-12 + 2s units |
| DecimalSqrt.SqrtUsesAllRounds | pkg/decimal/arith.go:55-64 | from 2^91 on no round steps below the tolerance: all fifty are run |
| DecimalSqrt.SqrtTooFewRounds | pkg/decimal/arith.go:50-64 | from d = 2^104 on fifty rounds are too few: s² ≥ 4d |
| ImpermanentLoss.ILV2Accurate | pkg/il/v2.go:8-15 | for a rounded ratio r from 10^-16 to 2^90, 1 + loss is within half a unit of 2s/(1 + r) at an accurate root s of r, and r within half a unit of the price ratio |
| ImpermanentLoss.ILV3Accurate | pkg/il/v3.go:45-84 | for a computed ratio r from 10^-16 to 2^90 and an accurate root s of r, 1 + loss is s below the range, and within half a unit of 1/s above it and of 2s/(1 + r) in range |
| ImpermanentLoss.InRangeSameFormula | pkg/il/v3.go:17-19 | in range ILV3 is the V2 formula at the square of the rounded quotient, and equals ILV2 of the squared prices when that rounds to the same ratio |
| ImpermanentLoss.RatioOrder | pkg/il/v3.go:36-41 | the computed ratio is at least 1 for a risen price and at most 1 for a fallen one, exactly 1 for prices that normalize alike, and 0 when the opening price is not resolved |
| ImpermanentLoss.NormalizedResolved | pkg/il/v3.go:36-37 | a square-root price normalizes to a positive decimal if and only if it is at least 2^96·5·10^-17 |
| ImpermanentLoss.RatioPrecision | pkg/il/v3.go:36-40 | each normalized price and their quotient are within half a unit of the exact quotients |
| RootNearOne.RootOfSquareNearOne | pkg/decimal/arith.go:45-65 | for every whole number of units q within 1.09·10^-6 of 1 the computed root of q² is exactly q + 11 units |
| RootNearOne.FiveRounds | pkg/decimal/arith.go:55-63 | within 2.2·10^-6 of 1 the loop returns its fifth guess |
| RootNearOne.RootAgainstMean | pkg/decimal/arith.go:55-63 | near 1, by how much twice the root exceeds or misses 1 + d |
| RootNearOne.RootClearlyBelow | pkg/decimal/arith.go:45-65 | from 2.1·10^-6 away from 1 on, for every d ≥ 10^-16, twice the root misses 1 + d by 3.5·10^-14 |
| LossSign.LossSignIff | pkg/il/v2.go:8-15 | for every ratio ≥ 0 the V2 formula shows a gain if and only if the ratio is within 2.2·10^-6 of 1 and twice the fifth guess is at least (1 + half a unit)(1 + ratio) |
| LossSign.LossBands | pkg/il/v2.go:8-15 | a gain for every ratio within 8.73e-8 of 1, a strict loss for every ratio 9.82e-8 or more away, and always −1 ≤ loss < 13 units |
| LossSign.ILV2SignIff | internal/core/pnl/il.go:15 | for all positive prices the documented sign fails exactly where the fifth guess says; both bands and bounds at the rounded ratio |
| LossSign.NoRatioLosesAll | pkg/il/v2.go:8-16 | without a positive ratio the loss is −1 |
| LossSign.UnchangedPriceShowsGain | internal/core/pnl/il.go:15-22 | the input: at any price, an unchanged price shows a gain of eleven units |
| LossSign.RootAgainstOneIff | pkg/il/v3.go:63-84 | the computed root of q² exceeds 1 if and only if q ≥ 1 − 10 units, is below 1 if and only if q ≤ 1 − 12 units, and is 0 if and only if q² < 1 unit |
| LossSign.ILV3SignIff | pkg/il/v3.go:21-85 | for all prices and any range, the sign in each of the three branches, and the failing inverse, by the rounded ratio q alone |
| LossSign.ILV3RefusesIff | pkg/il/v3.go:21-26 | the current price is refused if and only if it is not positive |
| LossSign.OpenedInsideGainIff | pkg/il/v3.go:21-85 | opened inside the range: a strict loss above it, or an error if and only if the opening price is not resolved; below it a gain only from q = 1 − 10 units on; always −1 ≤ loss < 13 units |
| LossSign.OpenedBelowGainIff | pkg/il/v3.go:63-71 | opened below the range, a price that does not fall and stays below it shows a gain if and only if the opening price is resolved, of at least the ratio's root less a unit; else −1 |
| LossSign.OpenedAboveGains | pkg/il/v3.go:73-84 | opened above the range at a square-root price of at least 2^96/1000, every fall by one part in 10^12 that stays above it is a gain, unless the ratio has root 0 |
| LossSign.AlikeCountAsUnchanged | pkg/il/v3.go:36-41 | prices that normalize alike show a gain of eleven units below and inside the range and a loss of eleven units above it |
| LossSign.LowPricesShowGain | pkg/il/v3.go:17-19 | the input: two table prices 0.4 % apart show a gain in V3 in range and a loss in V2 |
| BusProtocol.SuffixPattern | internal/adapters/bus/inproc/bus.go:163-167 | a pattern p.* admits exactly the topics starting with p, and when that differs from the documented reading |
| BusProtocol.PrefixPattern | internal/adapters/bus/inproc/bus.go:169-173 | a pattern *.s admits exactly the topics ending with s |
| BusProtocol.VisitsExactlyTheMatching | internal/adapters/bus/inproc/bus.go:90-103 | whatever order the map yields, a publish visits every open matching subscriber exactly once |
| BusSafety.StepKeeps | internal/adapters/bus/inproc/bus.go:73-213 | every atomic step of subscribers, publishers and delivery loops keeps the protocol invariant |
| BusSafety.RunsAreSafe | internal/adapters/bus/inproc/bus.go:73-213 | in every interleaving: registered exactly once iff the channel is open, no send on a closed channel, no second close, handled + in hand + queued = enqueued in order, each once and matching, queues bounded; the counters balance, a send and its counter being one step here |
| BusSafety.BalancedAtRest | internal/adapters/bus/inproc/bus.go:74-103 | with no publish under way delivered + dropped equals the matching subscriptions over all publishes past dedup |
| BusSafety.LockMatchesOpenSubscribers | internal/adapters/bus/inproc/bus.go:87-103 | in every run the matched count of a publish is the number of distinct open subscribers with a matching filter |
| BusSafety.LockByFilter | internal/adapters/bus/inproc/bus.go:153-178 | in every run, an open subscriber to "*" is visited by every publish, one with a plain filter exactly by publishes on that topic, one with p.* or *.x exactly by those on topics that start with p or end with x |
| BusSafety.NoDropsBelowCapacity | internal/adapters/bus/inproc/bus.go:94-100 | in every run with at most 100 publishes past dedup no event is dropped |
| BusSafety.SendDropsIff | internal/adapters/bus/inproc/bus.go:94-100 | in every run, a send joins the queue if and only if it holds fewer than 1000 events for "*" or 100 for another filter, and is dropped otherwise, each with its counter |
| BusSafety.QueuesBounded | internal/adapters/bus/inproc/bus.go:119-125 | in every run no queue holds more than 1000 events for "*" or 100 for another filter |
| BusSafety.WildcardLosesNothing | internal/adapters/bus/inproc/bus.go:119-125 | in every run with at most 1000 publishes past dedup, every send to a subscriber of "*" is queued |
| BusSafety.DrainsCompletely | internal/adapters/bus/inproc/bus.go:142-149 | from every reachable state the delivery loop alone, its channel open or closed, hands the handler everything ever enqueued and comes to rest |
| BusSafety.UnsubscribeOnce | internal/adapters/bus/inproc/bus.go:198-213 | unsubscribing closes one channel, keeps the others in order and is idempotent |
| BusSafety.ClosedForGood | internal/adapters/bus/inproc/bus.go:198-213 | a closed channel stays closed and receives nothing more, in every continuation |
| BusSafety.QuietAfterUnsubscribeIff | internal/ports/bus.go:71 | some continuation invokes the handler again after the close if and only if the queue was not empty or an event was in hand |
| BusSafety.QueuedAtTheClose | internal/adapters/bus/inproc/bus.go:142-149 | the input: a run that unsubscribes with an event still queued, whose handler is invoked afterwards |
| Bus.InprocBus.SubscribeTo | internal/adapters/bus/inproc/bus.go:114-139 | an empty topic is refused; otherwise the locked section is the protocol's subscribe step |
| Bus.InprocBus.Unsubscribe | internal/adapters/bus/inproc/bus.go:198-213 | the search and in-place removal is the protocol's unsubscribe step |
| Bus.InprocBus.TrySend | internal/adapters/bus/inproc/bus.go:94-100 | one non-blocking send is the protocol's send step |
| Bus.InprocBus.TakeEvent | internal/adapters/bus/inproc/bus.go:144 | receiving an event is the protocol's take step; the handler is not yet called |
| Bus.InprocBus.CallHandler | internal/adapters/bus/inproc/bus.go:144-148 | calling the handler with the event in hand is the protocol's handle step |
| Bus.InprocBus.Deliver | internal/adapters/bus/inproc/bus.go:142-149 | the loop, uninterrupted, hands over the whole queue in order and touches no other channel |
| Bus.InprocBus.MatchingTopics | internal/adapters/bus/inproc/bus.go:91-92 | iterating the map in any order yields each matching topic once |
| Bus.InprocBus.Publish | internal/adapters/bus/inproc/bus.go:73-106 | an uninterrupted publish is a run of the protocol; dedup only counts and skips; otherwise delivered + dropped grows by the matched count |
| Positional.DigitsFacts | internal/adapters/mev/jito/mev.go:147-165 | the minimal digits of n write n, are below the base and have no leading zero |
| Positional.DigitsOfNumber | internal/adapters/mev/jito/mev.go:147-165 | digits without a leading zero are determined by their value |
| Base58.Indices | internal/adapters/mev/jito/mev.go:131-137 | the lookup table holds exactly the alphabet's characters with their digits |
| Base58.MultiplyAdd | internal/adapters/mev/jito/mev.go:154-159 | the carry loop multiplies the buffer by 58 and adds a digit, the overflow left in the carry |
| Base58.PrependCarry | internal/adapters/mev/jito/mev.go:161-164 | prepending the carry's bytes adds carry·256^length and leaves no leading zero byte |
| Base58.Base58Decode | internal/adapters/mev/jito/mev.go:128-173 | one zero byte per leading '1', then the minimal big-endian bytes of the base-58 number; an error on any other character |
| Base58.DecodesIff | internal/adapters/mev/jito/mev.go:147-152 | decoding succeeds if and only if every character's low byte is in the alphabet |
| Base58.DecodeOfEncode | internal/adapters/mev/jito/mev.go:128-173 | decoding inverts the standard encoder on every byte string |
| Base58.EncodeOfDecode | internal/adapters/mev/jito/mev.go:128-173 | encoding inverts decoding on an accepted string if and only if it is written in the alphabet |
| Base58.DecodeInjective | internal/adapters/mev/jito/mev.go:128-173 | every string in the alphabet decodes and no two decode alike |
| Base58.NotInjectiveBeyondBytes | internal/adapters/mev/jito/mev.go:148-149 | characters are looked up by their low byte, so U+0132 decodes like '2' |
| Nonces.NonceManager.GetNextNonce | internal/core/execution/noncemanager.go:42-61 | reserves the counter's value, initialising from the chain on first use; a failed query changes nothing |
| NonceRuns.FirstIsChainsAnswer | internal/core/execution/noncemanager.go:46-53 | in every run from an uninitialised manager without an explicit initialisation, the first nonce reserved is the chain's answer of the operation that reserves it; until then counter and flag do not change |
| NonceRuns.WrapsAround | internal/core/execution/noncemanager.go:55-57 | after nonce 2^64 − 1 comes nonce 0 |
| NonceRuns.PendingThroughoutRuns | internal/core/execution/noncemanager.go:58-100 | in every run the pending map is decided, nonce by nonce, by the last operation that reserved, acknowledged or cleared it |
| NonceRuns.QueriesAndTheCounter | internal/core/execution/noncemanager.go:46-53 | a failed query changes nothing, and an answer to an initialisation replaces counter and flag only |
| Nonces.NonceManager.InitializeNonce | internal/core/execution/noncemanager.go:118-129 | replaces the counter by the chain's answer |
| NonceRuns.ReservedConsecutively | internal/core/execution/noncemanager.go:42-61 | in every run without re-initialisation the reserved nonces are n0, n0+1, … modulo 2^64 |
| NonceRuns.NeverRepeated | internal/core/execution/noncemanager.go:42-61 | no nonce repeats within 2^64 reservations |
| NonceRuns.ReservedUnavailable | internal/core/execution/noncemanager.go:103-114 | short of wrap-around every reserved nonce is below the counter and so reported unavailable |
| NonceRuns.ReinitialisingRepeatsIff | internal/core/execution/noncemanager.go:118-129 | over any continuation, a nonce handed out before re-initialising is handed out again if and only if the answer lies in the old window or the old window's start in the new one |
| NonceRuns.LowAnswerRepeats | internal/core/execution/noncemanager.go:118-129 | the input: 7 handed out, the chain answers 6, and the second reservation hands out 7 again |
| ReplaceByFee.RBFManager.AttemptRBF | internal/core/execution/rbf.go:162-217 | attempt limit, fee query, nonce reservation and bookkeeping in the source's order, as one step on both managers |
| ReplaceByFee.RBFManager.AttemptRBFWithOriginal | internal/core/execution/rbf.go:238-284 | the same with the caller's nonce, which overwrites the tracked one |
| ReplaceByFee.RBFManager.RecordAttempt | internal/core/execution/rbf.go:136-150 | counts an attempt, tracking an unknown hash with nonce 0 |
| NonceRuns.BidsAtPercentage | internal/core/execution/rbf.go:178-184 | for both kinds of attempt, any percentage and any fees, 100·bid ≤ percentage·fee < 100·bid + 100 for base fee and priority |
| NonceRuns.OriginalUsesCallersNonce | internal/core/execution/rbf.go:238-283 | the replacement is issued if and only if the chain answers and attempts are left, with the caller's nonce, which is tracked from then on; otherwise nothing changes |
| NonceRuns.AttemptsAreStamped | internal/core/execution/rbf.go:136-217 | when a replacement is issued, and what it and a recorded attempt leave behind: the count, the time and the nonce |
| NonceRuns.LimitComesFirst | internal/core/execution/rbf.go:166-170 | both attempts fail for want of attempts if and only if none is left, whatever the chain answers |
| NonceRuns.ThreeAttemptsByDefault | internal/core/execution/rbf.go:73-76 | an unconfigured limit is three |
| NonceRuns.AttemptsBounded | internal/core/execution/rbf.go:166-170 | in every run of all operations at most max(1, MaxAttempts) replacements of a hash are issued between clears |
| NonceRuns.ReplacementIssuedIff | internal/core/execution/rbf.go:166-217 | in every run of all operations, while the chain answers, a replacement is issued if and only if no attempt, recorded ones included, was counted since the last clear or fewer than MaxAttempts were |
| NonceRuns.ReplacementsShareNonce | internal/core/execution/rbf.go:186-215 | in every run of all operations, two replacements of one hash share one nonce if no clear of it and no replacement with a caller's nonce comes after the first |
| NonceRuns.HashesNeverShareNonce | internal/core/execution/rbf.go:186-215 | without re-initialisation, replacements of two hashes never share a nonce if neither hash was given a caller's nonce or recorded while untracked; other hashes are unrestricted |
| NonceRuns.RecordedUsesZero | internal/core/execution/rbf.go:134-150 | in every run, from an attempt recorded for an untracked hash until a clear or a caller's nonce, every replacement of the hash uses nonce 0 |
| NonceRuns.RecordedHashesShareZero | internal/core/execution/rbf.go:134-150 | in every run two hashes recorded so share nonce 0 |
| NonceRuns.NonceKept | internal/core/execution/rbf.go:186-215 | in every run, what fixed a hash's nonce fixes it for all its replacements until a clear or a caller's nonce |
| NonceRuns.RecordedHashKeepsItsNonce | internal/core/execution/rbf.go:134-150 | after a recorded attempt the replacement reuses the tracked nonce, or nonce 0 if there was none, whatever the nonce manager holds |
| NonceRuns.ReplacementOutbids | internal/core/execution/rbf.go:178-184 | a replacement never bids less than the suggested fees |
| Backtest.CalculateFeesAccrued | cmd/lpbot-backtest/simulator.go:180-200 | sums the fee of the in-range swaps whose time lies in the closed interval |
| Backtest.FeeOfOneSwap | cmd/lpbot-backtest/simulator.go:183-196 | one swap in the closed interval and the half-open tick range is charged 0.3 % of its amounts to within half a unit, any other nothing |
| Backtest.FeesAdd | cmd/lpbot-backtest/simulator.go:183-199 | the fees of two lists of swaps add up |
| Backtest.Simulate | cmd/lpbot-backtest/simulator.go:107-177 | cumulative fees per snapshot are the interval sums; the loss is identically zero and net PnL equals the fees |
| Backtest.IntervalsAgainstOnePass | cmd/lpbot-backtest/simulator.go:139-144 | interval sums equal one pass over the span plus each in-range swap on an interior snapshot time once more |
| Backtest.IntervalsExactIff | cmd/lpbot-backtest/simulator.go:139-144 | the two totals agree when no fee falls on an interior snapshot time, whatever the signs; with no negative fee only then, and otherwise the interval total is greater |
| RiskSources.StringIndex | internal/adapters/store/postgres/risk_repo.go:230-240 | the first occurrence at or after the start, −1 if there is none or the start is past the end; an empty text is found at the start |
| RiskSources.SplitStr | internal/adapters/store/postgres/risk_repo.go:212-228 | terminates for a non-empty separator with the specified pieces |
| RiskSources.TrimSpace | internal/adapters/store/postgres/risk_repo.go:242-252 | the two index loops compute the specified trim |
| RiskSources.TrimFacts | internal/adapters/store/postgres/risk_repo.go:242-252 | trimming removes blanks, tabs and line ends at the two ends and nothing else, and leaves none there |
| RiskSources.ParseSources | internal/adapters/store/postgres/risk_repo.go:174-183 | split at commas, trim, drop blanks |
| RiskSources.ParseKeepsNonBlank | internal/adapters/store/postgres/risk_repo.go:174-210 | what is read back is exactly the non-blank pieces between commas, trimmed and in order |
| RiskSources.JoinSources | internal/adapters/store/postgres/risk_repo.go:186-198 | the comma-separated text |
| RiskSources.JoinOfSplit | internal/adapters/store/postgres/risk_repo.go:212-228 | rejoining the pieces gives the text back, for any non-empty separator |
| RiskSources.SplitWithoutSeparator | internal/adapters/store/postgres/risk_repo.go:212-228 | no piece contains the separator |
| RiskSources.ColumnRoundTrip | internal/adapters/store/postgres/risk_repo.go:174-198 | parse(join(xs)) = xs if and only if every element is non-blank, comma-free and trimmed |
| Allocation.AllocationManager.CheckAllocationWithSnapshot | internal/core/risk/alloc.go:127-156 | allowed if and only if the query succeeded, the limit configured for tier A, B or C is not zero and the pool's total with the candidate is within it, never for another tier; each refusal's reason |
| Allocation.AllocationManager.CheckTotalExposureWithSnapshot | internal/core/risk/alloc.go:161-190 | allowed if and only if the query succeeded and the rounded exposure share with the candidate is within the maximum |
| Allocation.ShareWithinIff | internal/core/risk/alloc.go:180-187 | for a maximum of at most sixteen digits, a total passes if and only if it is below (MaxExposure + half a unit) × capital |
| Allocation.AdmittedIff | internal/core/risk/alloc.go:127-204 | both checks pass if and only if the tier's configured limit and the exposure cap hold with the candidate |
| Allocation.RoundingAdmitsMore | internal/core/risk/alloc.go:180-187 | the input: 300.00000000000004 of 1000 passes a maximum of 30 % |
| Allocation.ApplyKeepsLimitsIff | internal/core/risk/alloc.go:127-190 | one operation keeps all limits if and only if it is not a status change that raises exposure beyond the cap; an admission always does |
| Allocation.LimitsHoldOverRunsIff | internal/core/risk/alloc.go:127-204 | throughout a run, with any statuses, changes and amounts, each pool stays within its tier limit and each chain's open exposure within (MaxExposure + half a unit) × capital if and only if every status change of the run has room |
| Allocation.ClosingFreesNoPoolBudget | internal/core/risk/alloc.go:138-153 | the pool snapshot counts closed positions, so closing never changes a pool decision |
| Allocation.OpeningKeepsCapIff | internal/domain/position.go:19-24 | a position not yet open can be opened within the cap if and only if its chain's open exposure plus its amount is; other chains and all pools are unchanged |
| Allocation.OpeningLaterExceedsExposure | internal/core/risk/alloc.go:165-187 | the input: two positions that both pass the checks exceed the exposure cap once opened |

## Left out

- DecimalSqrt.SqrtAccurate: between 2^90 and 2^91, where the loop stops leaving by tolerance, neither is stated of the rounded loop; `StepsMonotone` says there is one threshold in exact arithmetic.
- Allocation.LimitsHoldOverRunsIff: admission is one step, both checks and the save; capital is positive (without capital the source skips the exposure check) and a pool's candidates carry its tier.
- NonceRuns.ReplacementOutbids: the configured percentage is taken as the whole number the source converts it to; the floating-point conversion is not modelled.
- ImpermanentLoss.InRangeSameFormula: gives no converse; V2 and V3 can agree at different ratios.
- BusProtocol.Step: a channel send and its counter, two atomic operations in the source, are one step, so between them the source's counters lag; the handler's error is ignored as in the source, and `MarkProcessed` only forwards to the dedup store.
- ReplaceByFee.RBFManager: `IsStuck`, `CanRBF`, `GetState` and `GetRBFAttempts` only read the tracked state.
- Nonces.NonceManager: `GetPendingNonces` is a sort of the pending keys; locking is modelled by making each method one step.
- Base58.Base58Decode: ill-formed UTF-8 is taken as the replacement character, as iterating the string does.
- `PriceToTick`, `sqrtFromDecimal`, `pow10Big` and `decimalToBI`: the fractional branch divides by 10^d where its square root would be expected, so there is no accuracy to prove.
- `calculateTickRange` and `CreatePosition` of the backtest; legacy checks and `GetRemainingBudget` of the allocation manager: straight-line formulas.
- HTTP, RPC, SQL text, key storage, alerts, metrics, configuration and report output: wrappers over libraries.
- The rebroadcast in `internal/core/execution/reorg.go`, the kill switch levels, order states and pool scoring.
- RPC retry in `internal/adapters/rpc/roundrobin.go`: its recursion has no bound.

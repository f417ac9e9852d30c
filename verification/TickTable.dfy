/**
 The tick table: the square-root price of every tick in Q64.96 fixed point.
 Non-negative ticks iterate a multiply-and-floor by 4295128739 / 2^32; negative ticks are
 floored reciprocals.  The main result is that the table is strictly increasing on all ticks.
 */
module TickTable {
  import opened FloorMath
  import opened Wrappers

  const MIN_TICK: int := -887272
  const MAX_TICK: int := 887272
  const Q96: nat := 0x1_0000_0000_0000_0000_0000_0000
  const Q192: nat := 0x1_0000_0000_0000_0000_0000_0000_0000_0000_0000_0000_0000_0000

  const FACTOR: nat := 4295128739
  const SCALE: nat := 4294967296
  const EXCESS: nat := 161443 // FACTOR - SCALE

  // The number of steps over which Bernoulli's inequality bounds the growth by two.
  const DOUBLING: nat := 13302

  datatype TickError = TickOutOfRange | InvalidSqrtPrice

  predicate ValidTick(t: int) {
    MIN_TICK <= t <= MAX_TICK
  }

  // One round of the loop: multiply by the per-tick factor, then floor.
  function Step(x: nat): nat {
    Div(x * FACTOR, SCALE)
  }

  // A step from x >= 2^96 gains at least x * EXCESS / SCALE - 1, and never doubles.
  lemma StepGain(x: nat)
    requires x >= Q96
    ensures x < Step(x) <= 2 * x
    ensures Step(x) * SCALE > x * FACTOR - SCALE
    ensures Step(x) * SCALE <= x * FACTOR
  {
    DivBrackets(x * FACTOR, SCALE);
  }

  function Grow(n: nat): (r: nat)
    ensures r >= Q96
  {
    if n == 0 then Q96 else StepGain(Grow(n - 1)); Step(Grow(n - 1))
  }

  // The table entry of a tick.
  function SqrtPriceAt(t: int): nat
    requires ValidTick(t)
  {
    if t >= 0 then Grow(t) else Div(Q192, Grow(-t))
  }

  method TickToSqrtPriceX96(tick: int) returns (r: Result<nat, TickError>)
    ensures r == Err(TickOutOfRange) <==> tick < -887272 || tick > 887272
    ensures ValidTick(tick) ==> r == Ok(SqrtPriceAt(tick))
  {
    if tick < MIN_TICK || tick > MAX_TICK {
      return Err(TickOutOfRange);
    }
    var absTick := if tick < 0 then -tick else tick;
    var sqrtX96 := Q96;
    for i := 0 to absTick
      invariant sqrtX96 == Grow(i)
    {
      sqrtX96 := sqrtX96 * FACTOR;
      DivIsDivision(sqrtX96, SCALE);
      sqrtX96 := sqrtX96 / SCALE;
    }
    if tick < 0 {
      DivIsDivision(Q192, sqrtX96);
      sqrtX96 := Q192 / sqrtX96;
    }
    return Ok(sqrtX96);
  }

  // ---------- growth of the positive half ----------

  lemma {:induction false} GrowIncreasing(m: nat, n: nat)
    requires m < n
    ensures Grow(m) < Grow(n)
  {
    StepGain(Grow(n - 1));
    if m < n - 1 {
      GrowIncreasing(m, n - 1);
    }
  }

  lemma BernoulliStep(next: nat, prev: nat, base: nat, k: nat)
    requires 0 < k <= DOUBLING
    requires next * SCALE <= prev * FACTOR
    requires prev * (FACTOR - (k - 1) * EXCESS) <= base * FACTOR
    ensures next * (FACTOR - k * EXCESS) <= base * FACTOR
  {
    var w := FACTOR - (k - 1) * EXCESS;
    var v := FACTOR - k * EXCESS;
    assert FACTOR * v <= SCALE * w;
    calc {
      next * v * FACTOR;
    ==
      next * (FACTOR * v);
    <= { MulMono(FACTOR * v, SCALE * w, next); }
      next * (SCALE * w);
    ==
      (next * SCALE) * w;
    <= { MulMono(next * SCALE, prev * FACTOR, w); }
      (prev * FACTOR) * w;
    ==
      (prev * w) * FACTOR;
    <=
      base * FACTOR * FACTOR;
    }
  }

  // Bernoulli: k steps multiply by at most FACTOR / (FACTOR - k * EXCESS).
  lemma {:induction false} GrowthOverSteps(m: nat, k: nat)
    requires k <= DOUBLING
    ensures Grow(m + k) * (FACTOR - k * EXCESS) <= Grow(m) * FACTOR
  {
    if k > 0 {
      GrowthOverSteps(m, k - 1);
      StepGain(Grow(m + k - 1));
      BernoulliStep(Grow(m + k), Grow(m + k - 1), Grow(m), k);
    }
  }

  lemma DoublesAtMost(m: nat)
    ensures Grow(m + DOUBLING) <= 2 * Grow(m)
  {
    GrowthOverSteps(m, DOUBLING);
  }

  lemma {:induction false} GrowAtDoublings(q: nat)
    ensures Grow(DOUBLING * q) <= Q96 * Power(2, q)
  {
    if q > 0 {
      GrowAtDoublings(q - 1);
      DoublesAtMost(DOUBLING * (q - 1));
      assert DOUBLING * (q - 1) + DOUBLING == DOUBLING * q;
    }
  }

  const GROW_BOUND: nat := 0x8_0000_0000_0000_0000_0000_0000_0000_0000_0000_0000

  // No table entry exceeds 2^163.
  lemma GrowBound(n: nat)
    requires n <= MAX_TICK
    ensures Grow(n) <= GROW_BOUND
  {
    var q := 67;
    GrowAtDoublings(q);
    assert n < DOUBLING * q;
    GrowIncreasing(n, DOUBLING * q);
    PowerOf67();
  }

  // ---------- the negative half ----------

  // Neighbouring entries are far enough apart for their floored reciprocals to differ.
  lemma NeighboursApart(a: nat, b: nat)
    requires Q96 <= a <= GROW_BOUND && b == Step(a)
    ensures a * b <= Q192 * (b - a)
  {
    StepGain(a);
    assert a <= 0x8000 * (b - a);
    calc {
      a * b;
    <= { MulMono(b, 2 * a, a); }
      a * (2 * a);
    <= { MulMono(a, GROW_BOUND, 2 * a); }
      GROW_BOUND * (2 * a);
    <=
      Q192 * (b - a);
    }
  }

  lemma FloorReciprocalsDiffer(a: nat, b: nat)
    requires 0 < a < b && a * b <= Q192 * (b - a)
    ensures Div(Q192, b) < Div(Q192, a)
  {
    var k := Div(Q192, b) + 1;
    DivBrackets(Q192, b);
    // (Div(Q192, b)) * b <= Q192, hence k * a * b <= Q192 * a + a * b <= Q192 * b.
    calc {
      k * a * b;
    ==
      (Div(Q192, b) * b) * a + a * b;
    <= { MulMono(Div(Q192, b) * b, Q192, a); }
      Q192 * a + Q192 * (b - a);
    ==
      Q192 * b;
    }
    CancelFactor(k * a, Q192, b);
    DivAtLeast(Q192, a, k);
  }

  lemma ReciprocalsDescend(n: nat)
    requires n < MAX_TICK
    ensures 0 < Div(Q192, Grow(n + 1)) < Div(Q192, Grow(n))
  {
    GrowBound(n);
    GrowBound(n + 1);
    StepGain(Grow(n));
    NeighboursApart(Grow(n), Grow(n + 1));
    FloorReciprocalsDiffer(Grow(n), Grow(n + 1));
    DivAtLeast(Q192, Grow(n + 1), 1);
    DivIsDivision(Q192, Grow(n));
    DivIsDivision(Q192, Grow(n + 1));
  }

  // ---------- main results ----------

  lemma NextTickHigher(t: int)
    requires MIN_TICK <= t < MAX_TICK
    ensures SqrtPriceAt(t) < SqrtPriceAt(t + 1)
  {
    if t >= 0 {
      GrowIncreasing(t, t + 1);
    } else {
      ReciprocalsDescend(-t - 1);
      if t == -1 {
        DivIsDivision(Q192, Q96);
      }
    }
  }

  // The table is strictly increasing on the whole tick range, across zero included.
  lemma {:induction false} TableStrictlyIncreasing(s: int, t: int)
    requires MIN_TICK <= s < t <= MAX_TICK
    ensures SqrtPriceAt(s) < SqrtPriceAt(t)
    decreases t - s
  {
    NextTickHigher(t - 1);
    if s < t - 1 {
      TableStrictlyIncreasing(s, t - 1);
    }
  }

  lemma TablePositive(t: int)
    requires ValidTick(t)
    ensures SqrtPriceAt(t) > 0
  {
    if t < 0 {
      ReciprocalsDescend(-t - 1);
    }
  }

  // Opposite ticks are reciprocal up to one rounding: their product lies in (2^192 - F(t), 2^192].
  lemma OppositeTicksReciprocal(t: int)
    requires 0 <= t <= MAX_TICK
    ensures Q192 - SqrtPriceAt(t) < SqrtPriceAt(t) * SqrtPriceAt(-t) <= Q192
  {
    DivIsDivision(Q192, Grow(t));
  }

  // ---------- the entries in numbers ----------

  lemma FirstEntries()
    ensures SqrtPriceAt(0) == 79228162514264337593543950336
    ensures SqrtPriceAt(1) == 79231140611967829484685492224
  {
    assert Grow(0) == 79228162514264337593543950336;
    assert Grow(1) == Step(Grow(0));
    DivIs(Grow(0) * FACTOR, SCALE, 79231140611967829484685492224);
  }

  // Every next entry is the product of the entry and the first one, floored at 96 fractional bits.
  lemma NextEntry(t: int)
    requires 0 <= t < 887272
    ensures SqrtPriceAt(t + 1) == SqrtPriceAt(t) * SqrtPriceAt(1) / 79228162514264337593543950336
  {
    FirstEntries();
    var x := Grow(t);
    assert SqrtPriceAt(t + 1) == Step(x);
    hide Grow;
    assert 79231140611967829484685492224 * SCALE == FACTOR * 79228162514264337593543950336;
    CrossDivEqual(x * FACTOR, SCALE, x * 79231140611967829484685492224, 79228162514264337593543950336);
    DivIsDivision(x * 79231140611967829484685492224, 79228162514264337593543950336);
  }

  // And every negative entry is 2^192 over the opposite one, floored.
  lemma OppositeEntry(t: int)
    requires 0 < t <= 887272
    ensures SqrtPriceAt(t) > 0
    ensures SqrtPriceAt(-t) == 6277101735386680763835789423207666416102355444464034512896 / SqrtPriceAt(t)
  {
    DivIsDivision(Q192, Grow(t));
  }
}

/**
 The decimal square root: at most fifty Newton rounds, left as soon as a step is below 10^-6, every
 quotient rounded.  One rounded round is off the exact one by less than a unit, and rounds contract, so
 the rounded guesses stay within two units of exact ones for good.
 */
module DecimalSqrt {
  import opened Decimals
  import opened FloorMath
  import opened NewtonStep
  import opened RealMath
  import opened Wrappers

  const ROUNDS: nat := 50
  const TOLERANCE: real := 0.000001

  datatype DecimalError = NegativeRoot

  // A guess of zero drops the division's error.
  function NextGuess(d: real, guess: real): real {
    Quotient(guess + DivOrZero(d, guess), 2.0)
  }

  // The rounds still to run from a guess.
  function Iterate(d: real, guess: real, rounds: nat): real
    decreases rounds, d
  {
    if rounds == 0 then guess
    else
      var next := NextGuess(d, guess);
      if Abs(next - guess) < TOLERANCE then next else Iterate(d, next, rounds - 1)
  }

  function SqrtOf(d: real): Result<real, DecimalError> {
    if d < 0.0 then Err(NegativeRoot)
    else if d == 0.0 then Ok(0.0)
    else Ok(Iterate(d, Quotient(d, 2.0), ROUNDS))
  }

  method Sqrt(d: real) returns (r: Result<real, DecimalError>)
    ensures r == SqrtOf(d)
  {
    if d < 0.0 {
      return Err(NegativeRoot);
    }
    if d == 0.0 {
      return Ok(0.0);
    }
    var guess := Quotient(d, 2.0);
    for i := 0 to ROUNDS
      invariant Iterate(d, Quotient(d, 2.0), ROUNDS) == Iterate(d, guess, ROUNDS - i)
    {
      var div := DivOrZero(d, guess);
      var next := Quotient(guess + div, 2.0);
      assert next == NextGuess(d, guess);
      var diff := Abs(next - guess);
      if diff < TOLERANCE {
        return Ok(next);
      }
      guess := next;
    }
    return Ok(guess);
  }

  // ---------- one rounded round ----------

  lemma RoundedRound(d: real, g: real)
    requires d > 0.0 && g > 0.0
    ensures Abs(NextGuess(d, g) - Next(d, g)) <= 0.75 * UNIT
    ensures OnGrid(NextGuess(d, g))
  {
    RoundedNear(d / g);
    RoundedNear((g + Rounded(d / g)) / 2.0);
    RoundedOnGrid((g + Rounded(d / g)) / 2.0);
  }

  // At most one unit below the root, and not lost in rounding.
  predicate NotFarBelow(d: real, g: real) {
    g >= UNIT && (g + UNIT) * (g + UNIT) >= d
  }

  lemma NextIsRoot(d: real, g: real)
    requires d > 0.0 && g > 0.0
    ensures Next(d, g) * Next(d, g) >= d
    ensures d >= UNIT ==> Next(d, g) >= 0.00000001
  {
    hide Next;
    var next := Next(d, g);
    StepIsError(d, g);
    SquareNonNegative(next - g);
    SquareOrder(next, 0.00000001);
  }

  lemma SquareNotBelow(d: real, a: real, g: real)
    requires a >= 0.00000001 && a * a >= d && Abs(g - a) <= 0.75 * UNIT
    ensures NotFarBelow(d, g)
  {
    SquareOrder(a, g + UNIT);
  }

  lemma StaysNotBelow(d: real, g: real)
    requires d >= UNIT && g > 0.0
    ensures NotFarBelow(d, NextGuess(d, g))
  {
    hide Next, NextGuess;
    RoundedRound(d, g);
    NextIsRoot(d, g);
    SquareNotBelow(d, Next(d, g), NextGuess(d, g));
  }

  lemma RiseBound(d: real, g: real, rise: real, u: real)
    requires 0.0 < u <= g && (g + u) * (g + u) >= d && 2.0 * g * rise == d - g * g
    ensures rise <= 1.5 * u
  {
    var p := g * u;
    assert (g + u) * (g + u) == g * g + 2.0 * p + u * u;
    assert u * u <= p;
    assert rise * (2.0 * g) <= 3.0 * p == 1.5 * u * (2.0 * g);
    MulOrder(rise, 1.5 * u, 2.0 * g);
  }

  // From there a round raises a guess by no more than the rounding.
  lemma HardlyRises(d: real, g: real)
    requires d > 0.0 && NotFarBelow(d, g)
    ensures NextGuess(d, g) <= g + 3.0 * UNIT
  {
    hide Next, NextGuess;
    RoundedRound(d, g);
    StepIsError(d, g);
    RiseBound(d, g, Next(d, g) - g, UNIT);
  }

  // ---------- the first rounds ----------

  // Anything below the last digit has root zero.
  lemma RootOfTiny(d: real)
    requires 0.0 <= d < UNIT
    ensures SqrtOf(d) == Ok(0.0)
  {
    if d > 0.0 {
      RoundedAtLeast(d / 2.0, 1);
      RoundedNear(d / 2.0);
      RoundedOnGrid(d / 2.0);
      assert Quotient(d, 2.0) == 0.0;
      RoundedExact(0);
      assert NextGuess(d, 0.0) == 0.0;
    }
  }

  lemma FirstGuess(d: real)
    requires d >= UNIT
    ensures Quotient(d, 2.0) >= UNIT
    ensures Abs(Quotient(d, 2.0) - d / 2.0) <= HALF_UNIT
  {
    RoundedAtLeast(d / 2.0, 1);
    RoundedNear(d / 2.0);
  }

  lemma QuotientAtMost(d: real, g: real, k: real)
    requires g > 0.0 && d <= k * g
    ensures d / g <= k
  {
    var q := d / g;
    assert q * g == d;
    MulOrder(q, k, g);
  }

  lemma SecondGuess(d: real)
    requires d >= UNIT
    ensures var g := NextGuess(d, Quotient(d, 2.0));
      NotFarBelow(d, g) && g <= d / 4.0 + 1.5 + UNIT
  {
    var g0 := Quotient(d, 2.0);
    FirstGuess(d);
    hide Quotient;
    RoundedRound(d, g0);
    StaysNotBelow(d, g0);
    QuotientAtMost(d, g0, 3.0);
    hide NextGuess, NotFarBelow;
  }

  // ---------- leaving by tolerance ----------

  // Some round takes a step below the tolerance.
  predicate Leaves(d: real, guess: real, rounds: nat)
    decreases rounds, d
  {
    rounds > 0 &&
    var next := NextGuess(d, guess);
    (Abs(next - guess) < TOLERANCE || Leaves(d, next, rounds - 1))
  }

  // How accurate a root is that was left by tolerance: 10^-12 and the rounding of the root.
  predicate Accurate(d: real, s: real) {
    -2.0 * UNIT * s <= s * s - d < 0.000000000001000001 + 2.0 * UNIT * s
  }

  lemma SquareWithin(a: real, s: real, e: real)
    requires a > e > 0.0 && -e <= s - a <= e
    ensures -(e * (2.0 * s + e)) <= s * s - a * a <= e * (2.0 * s + e)
  {
    var z, m := s - a, s + a;
    assert s * s - a * a == z * m;
    MulOrder(z, e, m);
    MulOrder(-e, z, m);
    MulOrder(m, 2.0 * s + e, e);
  }

  lemma UnitsOfSquare(s: real, u: real)
    requires 0.0 < 2.0 * u <= s
    ensures 0.75 * u * (2.0 * s + 0.75 * u) <= 2.0 * u * s
  {
    MulOrder(2.0 * u, s, u);
    assert 0.75 * u * (2.0 * s + 0.75 * u) == 1.5 * (u * s) + 0.5625 * (u * u);
  }

  lemma SmallSquare(step: real)
    requires 0.0 <= step <= 0.0000010000000001
    ensures step * step < 0.000000000001000001
  {
    SquareOrder(step, 0.0000010000000002);
  }

  lemma AccurateNear(d: real, a: real, s: real, step: real)
    requires a >= 0.00000001 && -0.75 * UNIT <= s - a <= 0.75 * UNIT
    requires a * a - d == step * step && 0.0 <= step <= 0.0000010000000001
    ensures Accurate(d, s)
  {
    var e, bound := 0.75 * UNIT, 2.0 * UNIT * s;
    SquareWithin(a, s, e);
    UnitsOfSquare(s, UNIT);
    assert -bound <= s * s - a * a <= bound;
    SmallSquare(step);
    SquareNonNegative(step);
    assert -2.0 * UNIT * s == -bound;
  }

  lemma LastStepFrom(d: real, g: real, a: real, s: real)
    requires a >= 0.00000001 && Abs(s - a) <= 0.75 * UNIT && Abs(s - g) < TOLERANCE
    requires a * a - d == (a - g) * (a - g)
    ensures Accurate(d, s)
  {
    hide Accurate;
    SquareNonNegative(a - g);
    AccurateNear(d, a, s, Abs(a - g));
  }

  lemma LastStep(d: real, g: real)
    requires d >= UNIT && g > 0.0 && Abs(NextGuess(d, g) - g) < TOLERANCE
    ensures Accurate(d, NextGuess(d, g))
  {
    hide Next, NextGuess, Accurate, Abs;
    RoundedRound(d, g);
    NextIsRoot(d, g);
    StepIsError(d, g);
    LastStepFrom(d, g, Next(d, g), NextGuess(d, g));
  }

  lemma {:induction false} LeavesAccurate(d: real, g: real, rounds: nat)
    requires d >= UNIT && g > 0.0 && Leaves(d, g, rounds)
    ensures Accurate(d, Iterate(d, g, rounds))
    decreases rounds
  {
    hide NextGuess, Accurate;
    var next := NextGuess(d, g);
    if Abs(next - g) < TOLERANCE {
      LastStep(d, g);
    } else {
      StaysNotBelow(d, g);
      LeavesAccurate(d, next, rounds - 1);
    }
  }

  // ---------- beside the exact iteration ----------

  predicate HasExcess(d: real, x: real, e: real) {
    x * x == d * (1.0 + e)
  }

  // An exact guess x, not below the root, and a rounded one within two units.
  predicate Beside(d: real, g: real, x: real, e: real) {
    d >= UNIT && g > 0.0 && x > 0.0 && e >= 0.0 && HasExcess(d, x, e) && Abs(g - x) <= 2.0 * UNIT
  }

  lemma NotSmall(d: real, x: real, e: real)
    requires d >= UNIT && x > 0.0 && e >= 0.0 && HasExcess(d, x, e)
    ensures x >= 0.00000001 && x * x >= d
  {
    assert d * e >= 0.0;
    SquareOrder(x, 0.00000001);
  }

  lemma StaysBeside(d: real, g: real, x: real, e: real)
    requires Beside(d, g, x, e)
    ensures Beside(d, NextGuess(d, g), Next(d, x), Excess(e))
  {
    hide Next, NextGuess, Excess;
    NotSmall(d, x, e);
    MulOrder(x, 2.0 * g, x);
    Contracts(d, g, x);
    ExcessOfNext(d, x, e);
    hide HasExcess;
    RoundedRound(d, g);
    NextIsRoot(d, g);
  }

  lemma DifferenceWithin(g: real, g': real, x: real, x': real, u: real)
    requires Abs(g - x) <= 2.0 * u && Abs(g' - x') <= 2.0 * u
    ensures Abs(x' - x) - 4.0 * u <= Abs(g' - g) <= Abs(x' - x) + 4.0 * u
  {
  }

  lemma StepSquare(d: real, x: real, e: real)
    requires d > 0.0 && x > 0.0 && e >= 0.0 && HasExcess(d, x, e) && HasExcess(d, Next(d, x), Excess(e))
    ensures Abs(Next(d, x) - x) * Abs(Next(d, x) - x) == d * Excess(e)
  {
    hide Next, Excess;
    StepIsError(d, x);
    SquareNonNegative(Next(d, x) - x);
  }

  // Two guesses beside two exact ones differ by the exact step, give or take four units.
  lemma StepBeside(d: real, g: real, x: real, e: real)
    requires Beside(d, g, x, e)
    ensures Beside(d, NextGuess(d, g), Next(d, x), Excess(e))
    ensures var step := Abs(Next(d, x) - x);
      && step * step == d * Excess(e)
      && step - 4.0 * UNIT <= Abs(NextGuess(d, g) - g) <= step + 4.0 * UNIT
  {
    hide Next, NextGuess, Excess, Abs, HasExcess;
    StaysBeside(d, g, x, e);
    StepSquare(d, x, e);
    DifferenceWithin(g, NextGuess(d, g), x, Next(d, x), UNIT);
  }

  // The square of the last of a number of exact steps.
  function StepLeft(d: real, e: real, steps: nat): real
    requires e >= 0.0
  {
    d * ExcessAfter(e, steps)
  }

  lemma StepLeftNext(d: real, e: real, steps: nat)
    requires e >= 0.0
    ensures StepLeft(d, e, steps + 1) == StepLeft(d, Excess(e), steps)
    ensures StepLeft(d, e, 0) == d * e
  {
  }

  lemma StepLeftIs(d: real, e: real, steps: nat)
    requires e >= 0.0
    ensures StepLeft(d, e, steps) == d * ExcessAfter(e, steps)
  {
  }

  lemma SettledStep(d: real, e: real, step: real)
    requires d > 0.0 && e >= 0.0 && step >= 0.0 && step * step == d * Excess(e)
    requires StepLeft(d, e, 1) < 0.000000000000999
    ensures step < 0.0000009996
  {
    StepLeftNext(d, e, 0);
    StepLeftNext(d, Excess(e), 0);
    hide Excess, StepLeft;
    SquareOrder(step, 0.0000009996);
  }

  // What the exact iteration settles, the rounded one leaves by tolerance.
  lemma {:induction false} SettledLeaves(d: real, g: real, x: real, e: real, rounds: nat)
    requires Beside(d, g, x, e) && rounds > 0
    requires StepLeft(d, e, rounds) < 0.000000000000999
    ensures Leaves(d, g, rounds)
    decreases rounds
  {
    hide Next, NextGuess, Excess, StepLeft, HasExcess, Abs;
    StepBeside(d, g, x, e);
    if rounds == 1 {
      SettledStep(d, e, Abs(Next(d, x) - x));
    } else {
      StepLeftNext(d, e, rounds - 1);
      SettledLeaves(d, NextGuess(d, g), Next(d, x), Excess(e), rounds - 1);
    }
  }

  lemma {:induction false} ExcessFalls(e: real, steps: nat)
    requires e >= 0.0
    ensures ExcessAfter(e, steps) <= e
    decreases steps
  {
    if steps > 0 {
      ExcessQuarters(e);
      ExcessFalls(Excess(e), steps - 1);
    }
  }

  // Before the excess has fallen so far, no step of the exact iteration is below the tolerance.
  lemma UnsettledStep(d: real, e: real, steps: nat, step: real)
    requires d > 0.0 && e >= 0.0 && step >= 0.0 && step * step == d * Excess(e)
    requires StepLeft(d, Excess(e), steps) >= 0.000000000001001
    ensures step >= 0.0000010001
  {
    hide Excess;
    ExcessFalls(Excess(e), steps);
    MulOrder(ExcessAfter(Excess(e), steps), Excess(e), d);
    SquareOrder(step, 0.0000010001);
  }

  // And while the exact one is unsettled, the rounded one goes on.
  lemma {:induction false} UnsettledGoesOn(d: real, g: real, x: real, e: real, rounds: nat)
    requires Beside(d, g, x, e)
    requires StepLeft(d, e, rounds) >= 0.000000000001001
    ensures !Leaves(d, g, rounds)
    ensures Abs(Iterate(d, g, rounds) - Guess(d, x, rounds)) <= 2.0 * UNIT
    decreases rounds
  {
    hide Next, NextGuess, Excess, StepLeft, HasExcess, Abs;
    if rounds > 0 {
      StepBeside(d, g, x, e);
      StepLeftNext(d, e, rounds - 1);
      UnsettledStep(d, e, rounds - 1, Abs(Next(d, x) - x));
      UnsettledGoesOn(d, NextGuess(d, g), Next(d, x), Excess(e), rounds - 1);
    }
  }

  // ---------- how far fifty rounds get ----------

  const TWO_90: real := 1237940039285380274899124224.0
  const TWO_91: real := 2475880078570760549798248448.0
  const TWO_104: real := 20282409603651670423947251286016.0

  lemma PowersOfFour()
    ensures Power(4, 6) == 4096
    ensures Power(4, 42) == 0x10_0000_0000_0000_0000_0000
    ensures Power(4, 44) == 0x100_0000_0000_0000_0000_0000
    ensures Power(4, 50) == 0x10_0000_0000_0000_0000_0000_0000
  {
    assert Power(4, 2) == 16;
    hide Power;
    PowerAdd(4, 2, 2);
    PowerAdd(4, 4, 2);
    PowerAdd(4, 4, 4);
    PowerAdd(4, 8, 8);
    PowerAdd(4, 16, 16);
    PowerAdd(4, 32, 8);
    PowerAdd(4, 40, 2);
    PowerAdd(4, 42, 2);
    PowerAdd(4, 44, 6);
  }

  lemma OneStepMore(e: real, steps: nat)
    requires e >= 0.0
    ensures ExcessAfter(e, steps + 1) == ExcessAfter(Excess(e), steps)
    ensures ExcessAfter(e, 0) == e
  {
  }

  lemma SixSteps(e: real)
    requires e >= 0.0
    ensures ExcessAfter(e, 6) == Excess(Excess(Excess(Excess(Excess(Excess(e))))))
  {
    hide Excess, ExcessAfter;
    var e1 := Excess(e);
    var e2 := Excess(e1);
    var e3 := Excess(e2);
    var e4 := Excess(e3);
    var e5 := Excess(e4);
    OneStepMore(e, 5);
    OneStepMore(e1, 4);
    OneStepMore(e2, 3);
    OneStepMore(e3, 2);
    OneStepMore(e4, 1);
    OneStepMore(e5, 0);
    OneStepMore(Excess(e5), 0);
  }

  lemma SmallExcess(e: real)
    requires 0.0 <= e <= 1.0
    ensures ExcessAfter(e, 6) <= 0.000000000000000000000000000000000000000000000001
  {
    hide Excess, ExcessAfter;
    SixSteps(e);
    var e1, e2, e3 := Excess(e), Excess(Excess(e)), Excess(Excess(Excess(e)));
    var e4, e5 := Excess(e3), Excess(Excess(e3));
    ExcessAtMost(e, 1.0, 0.125);
    ExcessAtMost(e1, 0.125, 0.0035);
    ExcessAtMost(e2, 0.0035, 0.0000031);
    ExcessAtMost(e3, 0.0000031, 0.0000000000025);
    ExcessAtMost(e4, 0.0000000000025, 0.0000000000000000000000016);
    ExcessAtMost(e5, 0.0000000000000000000000016, 0.000000000000000000000000000000000000000000000001);
  }

  // 44 steps bring an excess of 2^88 down to 1, six more next to nothing.
  lemma ExcessSettled(e: real)
    requires 0.0 <= e <= 309485009821345068724781056.0
    ensures ExcessAfter(e, ROUNDS) <= 0.000000000000000000000000000000000000000000000001
  {
    hide ExcessAfter, Power;
    PowersOfFour();
    ExcessAfterQuarters(e, 44);
    var f := ExcessAfter(e, 44);
    assert f <= 1.0;
    SmallExcess(f);
    ExcessAfterSplit(e, 44, 6);
  }

  // From 2^89 - 1 on, 42 steps leave more than 31.6, and the other eight more than 1.9e-39.
  lemma ExcessUnsettled(e: real)
    requires e >= 618970019642690137449562111.0
    ensures ExcessAfter(e, ROUNDS) >= 0.0000000000000000000000000000000000000019
  {
    hide ExcessAfter, Power, Excess;
    PowersOfFour();
    ExcessAfterQuarters(e, 42);
    var f := ExcessAfter(e, 42);
    assert f >= 31.6666;
    SixSteps(f);
    var e1 := Excess(f);
    var e2 := Excess(e1);
    var e3 := Excess(e2);
    var e4 := Excess(e3);
    var e5 := Excess(e4);
    var e6 := Excess(e5);
    var e7 := Excess(e6);
    ExcessAtLeast(f, 31.6666, 7.674);
    ExcessAtLeast(e1, 7.674, 1.6972);
    ExcessAtLeast(e2, 1.6972, 0.26697);
    ExcessAtLeast(e3, 0.26697, 0.014062);
    ExcessAtLeast(e4, 0.014062, 0.00004874);
    ExcessAtLeast(e5, 0.00004874, 0.0000000005938);
    ExcessAtLeast(e6, 0.0000000005938, 0.0000000000000000000881);
    ExcessAtLeast(e7, 0.0000000000000000000881, 0.0000000000000000000000000000000000000019);
    OneStepMore(e6, 1);
    OneStepMore(e7, 0);
    OneStepMore(Excess(e7), 0);
    ExcessAfterSplit(f, 6, 2);
    ExcessAfterSplit(e, 42, 8);
  }

  // ---------- main results ----------

  lemma OneRound(d: real, g: real, rounds: nat)
    requires rounds > 0
    ensures var next := NextGuess(d, g);
      Iterate(d, g, rounds) == if Abs(next - g) < 0.000001 then next else Iterate(d, next, rounds - 1)
    ensures Iterate(d, g, 0) == g
  {
  }

  lemma {:induction false} RunNotBelow(d: real, g: real, rounds: nat)
    requires d >= UNIT && NotFarBelow(d, g)
    ensures var s := Iterate(d, g, rounds);
      NotFarBelow(d, s) && s <= g + 3.0 * rounds as real * UNIT
    decreases rounds
  {
    hide NextGuess;
    if rounds > 0 {
      StaysNotBelow(d, g);
      HardlyRises(d, g);
      RunNotBelow(d, NextGuess(d, g), rounds - 1);
    }
  }

  // The root is at most a unit too small, and at most d / 4 + 1.5 and a few units.
  lemma SqrtNotBelow(d: real)
    requires d >= UNIT
    ensures var r := SqrtOf(d);
      r.Ok? && NotFarBelow(d, r.value) && r.value <= d / 4.0 + 1.5 + 151.0 * UNIT
  {
    hide NextGuess, Quotient, NotFarBelow, Iterate;
    SecondGuess(d);
    var g := Quotient(d, 2.0);
    FirstGuess(d);
    OneRound(d, g, ROUNDS);
    if Abs(NextGuess(d, g) - g) >= TOLERANCE {
      RunNotBelow(d, NextGuess(d, g), 49);
    }
  }

  lemma BesideFrom(d: real, g: real, x: real, e: real)
    requires d >= UNIT && g > 0.0 && x > 0.0 && x * x == d * (1.0 + e) && x * x >= d
    requires Abs(g - x) <= 2.0 * UNIT
    ensures e >= 0.0 && Beside(d, g, x, e)
  {
    MulOrder(0.0, 1.0 + e, d);
    MulOrder(1.0, 1.0 + e, d);
  }

  lemma {:induction false} IterateOnGrid(d: real, g: real, rounds: nat)
    requires OnGrid(g)
    ensures OnGrid(Iterate(d, g, rounds))
    decreases rounds
  {
    if rounds > 0 {
      RoundedOnGrid((g + DivOrZero(d, g)) / 2.0);
      hide OnGrid, NextGuess;
      IterateOnGrid(d, NextGuess(d, g), rounds - 1);
    }
  }

  // The root is refused exactly for a negative decimal.
  lemma SqrtRefusesIff(d: real)
    ensures SqrtOf(d) == Err(NegativeRoot) <==> d < 0.0
  {
  }

  // A root is a whole number of units.
  lemma SqrtOnGrid(d: real)
    requires d >= 0.0
    ensures var r := SqrtOf(d);
      r.Ok? && OnGrid(r.value)
  {
    UnitsOnGrid(0);
    RoundedOnGrid(d / 2.0);
    hide OnGrid, Iterate;
    IterateOnGrid(d, Quotient(d, 2.0), ROUNDS);
  }

  lemma LargeBeside(d: real, g: real)
    requires d >= 4.0 && Abs(g - d / 2.0) <= HALF_UNIT
    ensures Beside(d, g, d / 2.0, d / 4.0 - 1.0)
  {
    FirstExcess(d);
  }

  lemma SmallProduct(d: real, f: real)
    requires 0.0 < d <= TWO_90 && 0.0 <= f <= 0.000000000000000000000000000000000000000000000001
    ensures d * f < 0.000000000000999
  {
    if f > 0.0 {
      MulOrder(d, 1237940039285380274899124224.0, f);
      assert d * f <= 1237940039285380274899124224.0 * f;
    } else {
      assert d * f == 0.0;
    }
  }

  lemma LargeLeaves(d: real, g: real)
    requires 4.0 <= d <= TWO_90 && Abs(g - d / 2.0) <= HALF_UNIT
    ensures Leaves(d, g, ROUNDS)
  {
    hide Leaves, ExcessAfter, Beside, StepLeft;
    var e := d / 4.0 - 1.0;
    StepLeftIs(d, e, ROUNDS);
    LargeBeside(d, g);
    ExcessSettled(e);
    SmallProduct(d, ExcessAfter(e, ROUNDS));
    SettledLeaves(d, g, d / 2.0, e, ROUNDS);
  }

  lemma FallsFar(e: real, steps: nat)
    requires e >= 0.0 && steps >= 42
    ensures ExcessAfter(e, steps) * 19342813113834066795298816.0 <= e
  {
    hide ExcessAfter, Power;
    PowersOfFour();
    ExcessAfterQuarters(e, 42);
    ExcessAfterSplit(e, 42, steps - 42);
    ExcessFalls(ExcessAfter(e, 42), steps - 42);
  }

  lemma SquareAtMostNine(x: real)
    requires 0.0 < x <= 3.0
    ensures x * x <= 9.0
  {
    SquareOrder(3.0, x);
  }

  lemma FractionOfNine(d: real, f: real, e: real, x: real, left: real)
    requires left == d * f && 0.0 < d && 0.0 < x <= 3.0 && e >= 0.0 && x * x == d * (1.0 + e)
    requires 0.0 <= f && f * 19342813113834066795298816.0 <= e
    ensures left < 0.000000000000999
  {
    SquareAtMostNine(x);
    MulOrder(f * 19342813113834066795298816.0, e, d);
    var z := d * e;
    assert x * x == d + z;
    assert f * 19342813113834066795298816.0 * d == left * 19342813113834066795298816.0;
    assert left * 19342813113834066795298816.0 <= z;
  }

  lemma QuarteredAway(d: real, x: real, e: real, steps: nat)
    requires 0.0 < d && 0.0 < x <= 3.0 && e >= 0.0 && x * x == d * (1.0 + e) && steps >= 42
    ensures StepLeft(d, e, steps) < 0.000000000000999
  {
    FallsFar(e, steps);
    StepLeftIs(d, e, steps);
    hide ExcessAfter, StepLeft;
    FractionOfNine(d, ExcessAfter(e, steps), e, x, StepLeft(d, e, steps));
  }

  // Below 4 the exact companion starts a unit above the second guess.
  lemma SmallLeaves(d: real, g: real)
    requires UNIT <= d < 4.0 && g == Quotient(d, 2.0)
    ensures Leaves(d, g, ROUNDS)
  {
    hide NextGuess, Quotient, ExcessAfter, Power;
    SecondGuess(d);
    var g1 := NextGuess(d, g);
    if Abs(g1 - g) >= TOLERANCE {
      var x := g1 + UNIT;
      var e := x * x / d - 1.0;
      assert x * x / d * d == x * x;
      BesideFrom(d, g1, x, e);
      QuarteredAway(d, x, e, 49);
      SettledLeaves(d, g1, x, e, 49);
    }
  }

  // From 10^-16 to 2^90 the loop leaves by tolerance, with a root as accurate as that makes it.
  lemma SqrtAccurate(d: real)
    requires UNIT <= d <= TWO_90
    ensures Leaves(d, Quotient(d, 2.0), ROUNDS)
    ensures var r := SqrtOf(d);
      r.Ok? && Accurate(d, r.value)
  {
    hide NextGuess, Quotient, Accurate, Leaves, Iterate;
    FirstGuess(d);
    var g := Quotient(d, 2.0);
    if d >= 4.0 {
      FirstExcess(d);
      LargeLeaves(d, g);
    } else {
      SmallLeaves(d, g);
    }
    LeavesAccurate(d, g, ROUNDS);
  }

  lemma LargeProduct(d: real, f: real)
    requires d >= TWO_91 && f >= 0.0000000000000000000000000000000000000019
    ensures d * f >= 0.000000000001001
  {
    MulOrder(2475880078570760549798248448.0, d, f);
  }

  // From 2^91 on no step is below the tolerance: all fifty rounds are run.
  lemma SqrtUsesAllRounds(d: real)
    requires d >= TWO_91
    ensures !Leaves(d, Quotient(d, 2.0), ROUNDS)
  {
    hide NextGuess, Quotient, Leaves, ExcessAfter, Beside, StepLeft;
    FirstGuess(d);
    var e := d / 4.0 - 1.0;
    StepLeftIs(d, e, ROUNDS);
    LargeBeside(d, Quotient(d, 2.0));
    ExcessUnsettled(e);
    LargeProduct(d, ExcessAfter(e, ROUNDS));
    UnsettledGoesOn(d, Quotient(d, 2.0), d / 2.0, e, ROUNDS);
  }

  lemma TwiceRoot(d: real, f: real, x: real, s: real)
    requires d >= TWO_104 && f >= 3.5 && x > 0.0 && x * x == d * (1.0 + f) && Abs(s - x) <= 2.0 * UNIT
    ensures s * s >= 4.0 * d
  {
    MulOrder(4.5, 1.0 + f, d);
    SquareOrder(x, 1.0);
    var y := 0.97 * x;
    assert y * y == 0.9409 * (x * x);
    SquareOrder(s, y);
  }

  // From 2^104 on fifty rounds are too few: the result is more than twice the root.
  lemma SqrtTooFewRounds(d: real)
    requires d >= TWO_104
    ensures var r := SqrtOf(d);
      r.Ok? && r.value * r.value >= 4.0 * d
  {
    hide NextGuess, Quotient, Leaves, ExcessAfter, Beside, Power, Guess, Iterate, StepLeft;
    FirstGuess(d);
    var e := d / 4.0 - 1.0;
    StepLeftIs(d, e, ROUNDS);
    LargeBeside(d, Quotient(d, 2.0));
    ExcessUnsettled(e);
    var f := ExcessAfter(e, ROUNDS);
    LargeProduct(d, f);
    UnsettledGoesOn(d, Quotient(d, 2.0), d / 2.0, e, ROUNDS);
    PowersOfFour();
    ExcessAfterQuarters(e, ROUNDS);
    FirstExcess(d);
    ExcessOfGuess(d, d / 2.0, e, ROUNDS);
    TwiceRoot(d, f, Guess(d, d / 2.0, ROUNDS), Iterate(d, Quotient(d, 2.0), ROUNDS));
  }
}

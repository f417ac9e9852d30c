/**
 The decimal square root against the mean (1 + d) / 2, which decides the sign of an impermanent loss:
 near 1 the five rounds the loop takes are followed digit by digit, and everywhere else the root ends
 clearly below the mean.
 */
module RootNearOne {
  import opened Decimals
  import opened DecimalSqrt
  import opened NewtonStep
  import opened RealMath
  import opened Wrappers

  // Decimals this close to 1 leave the loop in its fifth round.
  const NEAR: real := 0.0000022

  predicate NearOne(d: real) {
    1.0 - NEAR < d < 1.0 + NEAR
  }

  // The rounded guess after k rounds.
  function Guessed(d: real, k: nat): real {
    if k == 0 then Quotient(d, 2.0) else NextGuess(d, Guessed(d, k - 1))
  }

  function Mean(d: real): real {
    (1.0 + d) / 2.0
  }

  // The square of the mean exceeds d by this much.
  function Gap(d: real): real {
    (1.0 - d) / 2.0 * ((1.0 - d) / 2.0)
  }

  // ---------- one round against the mean ----------

  lemma MeanSquare(d: real)
    ensures Mean(d) * Mean(d) == d + Gap(d) && Gap(d) >= 0.0
  {
    SquareNonNegative((1.0 - d) / 2.0);
  }

  lemma MeanRange(d: real)
    requires 0.0 < d <= 4.5
    ensures 0.5 < Mean(d) <= 2.75 && Mean(d) == (1.0 + d) / 2.0
  {
  }

  lemma MeanArithmetic(d: real, g: real, a: real, t: real, gap: real)
    requires 2.0 * g * (a - g) == d - g * g && t * t == d + gap
    ensures 2.0 * g * (a - t) == (g - t) * (g - t) - gap
  {
    assert 2.0 * g * (a - t) == 2.0 * g * (a - g) + 2.0 * (g * g) - 2.0 * (g * t);
    assert (g - t) * (g - t) == g * g - 2.0 * (g * t) + t * t;
  }

  // From x above the mean, the exact next guess is z above it.
  lemma MeanStep(d: real, g: real, x: real, z: real)
    requires d > 0.0 && g > 0.0 && x == g - Mean(d) && z == Next(d, g) - Mean(d)
    ensures 2.0 * g * z == x * x - Gap(d)
  {
    hide Next, Gap;
    StepIsError(d, g);
    MeanSquare(d);
    hide Mean;
    MeanArithmetic(d, g, Next(d, g), Mean(d), Gap(d));
  }

  lemma SquareBetween(x: real, low: real, high: real)
    requires 0.0 < low <= x <= high
    ensures low * low <= x * x <= high * high
  {
    MulOrder(low, x, low);
    MulOrder(low, x, x);
    MulOrder(x, high, x);
    MulOrder(x, high, high);
  }

  lemma QuotientBetween(z: real, n: real, m: real, low: real, high: real,
                        nLow: real, nHigh: real, mLow: real, mHigh: real)
    requires m * z == n && nLow <= n <= nHigh && 0.0 < mLow <= m <= mHigh && 0.0 <= low <= high
    requires low * mHigh <= nLow && nHigh <= high * mLow
    ensures low <= z <= high
  {
    if z < low {
      MulOrder(z, low, m);
      if low > 0.0 {
        MulOrder(m, mHigh, low);
      }
      assert false;
    }
    if z > high {
      MulOrder(high, z, m);
      if high > 0.0 {
        MulOrder(mLow, m, high);
      }
      assert false;
    }
  }

  lemma GapNear(d: real)
    requires NearOne(d)
    ensures 0.0 <= Gap(d) <= 0.00000000000121 && 0.9999989 <= Mean(d) <= 1.0000011
  {
    var h := (1.0 - d) / 2.0;
    SquareNonNegative(h);
    if h != 0.0 {
      SquareBetween(Abs(h), Abs(h), 0.0000011);
    }
  }

  lemma NumeratorBetween(x: real, gap: real, xLow: real, xHigh: real, nLow: real, nHigh: real)
    requires 0.0 < xLow <= x <= xHigh && 0.0 <= gap <= 0.00000000000121
    requires nLow <= xLow * xLow - 0.00000000000121 && xHigh * xHigh <= nHigh
    ensures nLow <= x * x - gap <= nHigh
  {
    SquareBetween(x, xLow, xHigh);
  }

  // Bounds of the distance from the mean, n being its square less the gap, give bounds of the next one.
  lemma NextBetween(d: real, g: real, n: real, nLow: real, nHigh: real, mLow: real, mHigh: real, low: real, high: real)
    requires d > 0.0 && g > 0.0 && n == (g - Mean(d)) * (g - Mean(d)) - Gap(d)
    requires nLow <= n <= nHigh && 0.0 < mLow <= 2.0 * g <= mHigh && 0.0 <= low <= high
    requires low * mHigh <= nLow && nHigh <= high * mLow
    ensures low - UNIT <= NextGuess(d, g) - Mean(d) <= high + UNIT
  {
    hide Mean, Gap, Next, NextGuess;
    var z := Next(d, g) - Mean(d);
    MeanStep(d, g, g - Mean(d), z);
    RoundedRound(d, g);
    QuotientBetween(z, n, 2.0 * g, low, high, nLow, nHigh, mLow, mHigh);
  }

  lemma FirstQuotient(d: real, g: real)
    requires NearOne(d) && Abs(g - d / 2.0) <= HALF_UNIT
    ensures g > 0.0 && 1.999999999999 <= d / g <= 2.000000000001
  {
    var q := d / g;
    QuotientBetween(q, d, g, 1.999999999999, 2.000000000001, d, d, d / 2.0 - HALF_UNIT, d / 2.0 + HALF_UNIT);
  }

  lemma FirstNear(d: real)
    requires NearOne(d)
    ensures Abs(Guessed(d, 0) - 0.5) <= 0.0000012
    ensures 0.2499994 <= Guessed(d, 1) - Mean(d) <= 0.2500006
  {
    var g := Quotient(d, 2.0);
    FirstGuess(d);
    RoundedRound(d, g);
    assert Guessed(d, 1) == NextGuess(d, Guessed(d, 0));
    hide NextGuess, Quotient, Guessed;
    FirstQuotient(d, g);
  }

  lemma GuessNext(d: real, k: nat)
    ensures Guessed(d, k + 1) == NextGuess(d, Guessed(d, k))
  {
  }

  lemma SecondNear(d: real, g: real)
    requires NearOne(d) && 0.2499994 <= g - Mean(d) <= 0.2500006
    ensures 0.024998 <= NextGuess(d, g) - Mean(d) <= 0.025002
  {
    GapNear(d);
    hide Mean, Gap, NextGuess;
    var x := g - Mean(d);
    NumeratorBetween(x, Gap(d), 0.2499994, 0.2500006, 0.0624996, 0.0625004);
    NextBetween(d, g, x * x - Gap(d), 0.0624996, 0.0625004, 2.4999966, 2.5000034, 0.0249985, 0.0250015);
  }

  lemma ThirdNear(d: real, g: real)
    requires NearOne(d) && 0.024998 <= g - Mean(d) <= 0.025002
    ensures 0.00030481 <= NextGuess(d, g) - Mean(d) <= 0.00030494
  {
    GapNear(d);
    hide Mean, Gap, NextGuess;
    var x := g - Mean(d);
    NumeratorBetween(x, Gap(d), 0.024998, 0.025002, 0.00062489, 0.0006251001);
    NextBetween(d, g, x * x - Gap(d), 0.00062489, 0.0006251001, 2.0499938, 2.0500062, 0.00030482, 0.000304935);
  }

  lemma FourthNear(d: real, g: real)
    requires NearOne(d) && 0.00030481 <= g - Mean(d) <= 0.00030494
    ensures 0.000000046438 <= NextGuess(d, g) - Mean(d) <= 0.000000046482
  {
    GapNear(d);
    hide Mean, Gap, NextGuess;
    var x := g - Mean(d);
    NumeratorBetween(x, Gap(d), 0.00030481, 0.00030494, 0.000000092907, 0.000000092989);
    NextBetween(d, g, x * x - Gap(d), 0.000000092907, 0.000000092989, 2.0006074, 2.0006121,
      0.000000046439, 0.000000046481);
  }

  // The distances from the mean, round by round.
  lemma GuessesNearOne(d: real)
    requires NearOne(d)
    ensures 0.2499994 <= Guessed(d, 1) - Mean(d) <= 0.2500006
    ensures 0.024998 <= Guessed(d, 2) - Mean(d) <= 0.025002
    ensures 0.00030481 <= Guessed(d, 3) - Mean(d) <= 0.00030494
    ensures 0.000000046438 <= Guessed(d, 4) - Mean(d) <= 0.000000046482
  {
    hide Guessed, NextGuess, Mean;
    FirstNear(d);
    GuessNext(d, 1);
    GuessNext(d, 2);
    GuessNext(d, 3);
    SecondNear(d, Guessed(d, 1));
    ThirdNear(d, Guessed(d, 2));
    FourthNear(d, Guessed(d, 3));
  }

  // ---------- five rounds near 1 ----------

  lemma FifthSquare(x: real, gap: real)
    requires 0.000000046438 <= x <= 0.000000046482 && 0.0 <= gap <= 0.00000000000121
    ensures -0.0000000000013 <= x * x - gap <= 0.0000000000013
  {
    SquareBetween(x, 0.000000046438, 0.000000046482);
  }

  lemma FifthStep(g: real, z: real, n: real)
    requires 0.9 <= g && 2.0 * g * z == n && -0.0000000000013 <= n <= 0.0000000000013
    ensures -0.000000000001 <= z <= 0.000000000001
  {
    MulOrder(z, 0.000000000001, 2.0 * g);
    MulOrder(-0.000000000001, z, 2.0 * g);
  }

  lemma FifthNear(d: real)
    requires NearOne(d)
    ensures Guessed(d, 4) > 0.0 && Guessed(d, 5) == NextGuess(d, Guessed(d, 4))
    ensures Abs(Guessed(d, 5) - Guessed(d, 4)) < TOLERANCE
  {
    GapNear(d);
    hide Guessed, NextGuess, Gap, Mean, Next;
    GuessesNearOne(d);
    GuessNext(d, 4);
    var g := Guessed(d, 4);
    var x, z := g - Mean(d), Next(d, g) - Mean(d);
    MeanStep(d, g, x, z);
    RoundedRound(d, g);
    FifthSquare(x, Gap(d));
    FifthStep(g, z, x * x - Gap(d));
  }

  lemma OneMoreRound(d: real, k: nat, rounds: nat)
    requires Abs(Guessed(d, k + 1) - Guessed(d, k)) >= TOLERANCE && rounds > 0
    ensures Iterate(d, Guessed(d, k), rounds) == Iterate(d, Guessed(d, k + 1), rounds - 1)
  {
    hide NextGuess;
    GuessNext(d, k);
    OneRound(d, Guessed(d, k), rounds);
  }

  // Near 1 the loop returns its fifth guess.
  lemma FiveRounds(d: real)
    requires NearOne(d)
    ensures SqrtOf(d) == Ok(Guessed(d, 5))
  {
    FirstNear(d);
    GuessesNearOne(d);
    GapNear(d);
    FifthNear(d);
    assert Guessed(d, 0) == Quotient(d, 2.0);
    hide Guessed, NextGuess, Mean, Iterate, Quotient;
    OneMoreRound(d, 0, ROUNDS);
    OneMoreRound(d, 1, 49);
    OneMoreRound(d, 2, 48);
    OneMoreRound(d, 3, 47);
    OneRound(d, Guessed(d, 4), 46);
  }

  // ---------- the root of a square near 1 ----------

  lemma RoundedTo(x: real, k: int)
    requires k > 0 && Units(k) - HALF_UNIT <= x < Units(k) + HALF_UNIT
    ensures Rounded(x) == Units(k)
  {
    RoundedAtLeast(x, k);
    RoundedAtLeast(x, k + 1);
    RoundedOnGrid(x);
    hide Rounded;
    var n := (Rounded(x) * 10000000000000000.0).Floor;
    assert Rounded(x) == Units(n);
    assert k <= n < k + 1;
  }

  // One round from g for the square of q: both quotients are within half a unit of these.
  lemma SquareRound(q: real, g: real, w: real)
    requires q > 0.0 && g > 0.0 && w * g == (g - q) * (g - q)
    ensures q * q / g == 2.0 * q - g + w
  {
    var z := q * q / g;
    assert z * g == q * q;
    assert (2.0 * q - g + w) * g == 2.0 * (q * g) - g * g + w * g;
    assert (g - q) * (g - q) == g * g - 2.0 * (q * g) + q * q;
    QuotientIs(q * q, g, 2.0 * q - g + w);
  }

  lemma ElevenUnits(q: real, g: real, w: real)
    requires OnGrid(q) && OnGrid(g) && 0.9 <= q <= 1.1 && 0.9 <= g <= 1.1
    requires w * g == (g - q) * (g - q) && 0.00000000000000215 <= w < 0.00000000000000225
    ensures NextGuess(q * q, g) == q + 0.0000000000000011
  {
    var k, n := (q * 10000000000000000.0).Floor, (g * 10000000000000000.0).Floor;
    SquareRound(q, g, w);
    RoundedTo(q * q / g, 2 * k - n + 22);
    hide Rounded;
    assert DivOrZero(q * q, g) == Units(2 * k - n + 22);
    assert (g + Units(2 * k - n + 22)) / 2.0 == Units(k + 11);
    RoundedExact(k + 11);
  }

  lemma GuessedOnGrid(d: real, k: nat)
    ensures OnGrid(Guessed(d, k))
  {
    RoundedOnGrid(d / 2.0);
    if k > 0 {
      var g := Guessed(d, k - 1);
      RoundedOnGrid((g + DivOrZero(d, g)) / 2.0);
    }
  }

  lemma SquareNear(q: real)
    requires 1.0 - 0.00000109 <= q <= 1.0 + 0.00000109
    ensures NearOne(q * q) && 0.0 <= Mean(q * q) - q <= 0.0000000000006
  {
    var e := q - 1.0;
    assert q * q == 1.0 + 2.0 * e + e * e;
    SquareNonNegative(e);
    if e != 0.0 {
      SquareBetween(Abs(e), Abs(e), 0.00000109);
    }
  }

  lemma ShareOfSquare(g: real, y: real) returns (w: real)
    requires 0.999 <= g <= 1.00001 && 0.000000046438 <= y <= 0.000000046484
    ensures w * g == y * y && 0.00000000000000215 <= w < 0.00000000000000225
  {
    w := y * y / g;
    assert w * g == y * y;
    SquareBetween(y, 0.000000046438, 0.000000046484);
    QuotientBetween(w, y * y, g, 0.000000000000002151, 0.000000000000002249,
      0.0000000000000021564, 0.0000000000000021608, 0.999, 1.00001);
  }

  lemma FourthAgainst(q: real, d: real) returns (w: real)
    requires NearOne(d) && 0.9999989 <= q <= 1.0000011 && 0.0 <= Mean(d) - q <= 0.0000000000006
    ensures var g := Guessed(d, 4);
      && 0.999 <= g <= 1.00001 && w * g == (g - q) * (g - q)
      && 0.00000000000000215 <= w < 0.00000000000000225
  {
    hide NextGuess, Guessed, Mean;
    GuessesNearOne(d);
    w := ShareOfSquare(Guessed(d, 4), Guessed(d, 4) - q);
  }

  // The computed root of a square near 1 is eleven units too large, always.
  lemma RootOfSquareNearOne(q: real)
    requires OnGrid(q) && 1.0 - 0.00000109 <= q <= 1.0 + 0.00000109
    ensures SqrtOf(q * q) == Ok(q + 0.0000000000000011)
  {
    hide NextGuess, Guessed, OnGrid, SqrtOf;
    var d := q * q;
    SquareNear(q);
    var w := FourthAgainst(q, d);
    FiveRounds(d);
    FifthNear(d);
    GuessedOnGrid(d, 4);
    ElevenUnits(q, Guessed(d, 4), w);
  }

  // ---------- the root against the mean ----------

  lemma TwiceBetween(g: real, z: real, n: real, u: real)
    requires 0.99999 <= g <= 1.00001 && 2.0 * g * z == n && u > 0.0
    ensures n >= u ==> 2.0 * z >= 0.99998 * u
    ensures n <= -u ==> 2.0 * z <= -0.99998 * u
    ensures n <= u ==> 2.0 * z <= 1.00002 * u
  {
    var y := 2.0 * z;
    assert y * g == n;
    MulOrder(0.99998 * u, y, g);
    MulOrder(y, -0.99998 * u, g);
    MulOrder(y, 1.00002 * u, g);
    assert 0.99998 * u * g <= u by {
      MulOrder(g, 1.00001, u);
    }
    assert 1.00002 * u * g >= u by {
      MulOrder(0.99999, g, u);
    }
  }

  lemma MoreThanMean(g: real, x: real, z: real, gap: real, e: real)
    requires 0.99999 <= g <= 1.00001 && 0.000000046438 <= x <= 0.000000046482 && gap >= 0.0
    requires 2.0 * g * z == x * x - gap && -0.75 * UNIT <= e <= 0.75 * UNIT
    ensures gap <= 0.00000000000000190645 ==> 2.0 * (z + e) >= 0.0000000000000001000001
    ensures gap >= 0.00000000000000241062 ==> 2.0 * (z + e) <= -0.0000000000000001000002
    ensures 2.0 * (z + e) <= 0.00000000000000232
  {
    SquareBetween(x, 0.000000046438, 0.000000046482);
    var n := x * x - gap;
    assert 0.0000000000000021564 <= x * x <= 0.00000000000000216058;
    TwiceBetween(g, z, n, 0.00000000000000025003);
    TwiceBetween(g, z, n, 0.00000000000000216058);
  }

  // The fifth round near 1: from x above the mean to z above it, and e of rounding.
  lemma FifthRound(d: real) returns (g: real, x: real, z: real, e: real)
    requires NearOne(d)
    ensures 0.99999 <= g <= 1.00001 && 0.000000046438 <= x <= 0.000000046482
    ensures 2.0 * g * z == x * x - Gap(d) && -0.75 * UNIT <= e <= 0.75 * UNIT
    ensures SqrtOf(d) == Ok((1.0 + d) / 2.0 + z + e)
  {
    GapNear(d);
    assert Mean(d) == (1.0 + d) / 2.0;
    hide NextGuess, Guessed, SqrtOf, Mean, Gap, Next;
    FiveRounds(d);
    FifthNear(d);
    GuessesNearOne(d);
    g := Guessed(d, 4);
    x, z, e := g - Mean(d), Next(d, g) - Mean(d), NextGuess(d, g) - Next(d, g);
    MeanStep(d, g, x, z);
    RoundedRound(d, g);
  }

  // Near 1 the sign of twice the root less 1 + d is that of the fourth guess's squared distance less the gap.
  lemma RootAgainstMean(d: real)
    requires NearOne(d)
    ensures var r := SqrtOf(d);
      r.Ok? &&
      var more := 2.0 * r.value - (1.0 + d);
      && (Gap(d) <= 0.00000000000000190645 ==> more >= 0.0000000000000001000001)
      && (Gap(d) >= 0.00000000000000241062 ==> more <= -0.0000000000000001000002)
      && more <= 0.00000000000000232
  {
    GapNear(d);
    hide SqrtOf, Gap;
    var g, x, z, e := FifthRound(d);
    MoreThanMean(g, x, z, Gap(d), e);
  }

  lemma GapOf(d: real)
    ensures 1.0 - 0.0000000873 <= d <= 1.0 + 0.0000000873 ==> Gap(d) <= 0.00000000000000190645
    ensures d <= 1.0 - 0.0000000982 || d >= 1.0 + 0.0000000982 ==> Gap(d) >= 0.00000000000000241062
    ensures d <= 1.0 - 0.0000021 || d >= 1.0 + 0.0000021 ==> Gap(d) >= 0.0000000000011025
  {
    var h := Abs((1.0 - d) / 2.0);
    SquareNonNegative((1.0 - d) / 2.0);
    if h > 0.0 {
      SquareOrder(h, 0.0000000436624);
      SquareOrder(h, 0.000000049098);
      SquareOrder(h, 0.00000105);
    }
  }

  // ---------- away from 1 ----------

  // Below the mean by clearly more than any rounding.
  predicate ClearlyBelow(d: real, s: real) {
    2.0 * s <= 1.0 + d - 0.000000000000035
  }

  lemma BelowBySquares(a: real, t: real)
    requires 0.0 < a && 0.0 < t <= 2.75 && t * t - a * a >= 0.0000000000001024
    ensures a <= t - 0.0000000000000186
  {
    assert t * t - a * a == (t - a) * (t + a);
    SquareOrder(a, t);
    if t - a < 0.0000000000000186 {
      MulOrder(t - a, 0.0000000000000186, t + a);
      assert false;
    }
  }

  lemma BelowMean(d: real, a: real, t: real, gap: real, step: real)
    requires 0.0 < a && 0.0 < t <= 2.75 && t * t == d + gap && gap >= 0.0000000000011025
    requires a * a - d == step * step && 0.0 <= step <= 0.0000010000000001
    ensures a <= t - 0.0000000000000186
  {
    SmallSquare(step);
    BelowBySquares(a, t);
  }

  lemma LeavesBelowMean(d: real, g: real)
    requires d >= UNIT && Gap(d) >= 0.0000000000011025 && g > 0.0 && 0.0 < Mean(d) <= 2.75
    requires Abs(NextGuess(d, g) - g) < TOLERANCE
    ensures NextGuess(d, g) <= Mean(d) - 0.0000000000000185
  {
    hide Next, NextGuess, Gap, Mean;
    MeanSquare(d);
    RoundedRound(d, g);
    StepSize(d, g);
    BelowMean(d, Next(d, g), Mean(d), Gap(d), Abs(Next(d, g) - g));
  }

  // A round that leaves by tolerance lands clearly below the mean.
  lemma LeavesBelow(d: real, g: real)
    requires UNIT <= d <= 4.5 && Gap(d) >= 0.0000000000011025 && g > 0.0
    requires Abs(NextGuess(d, g) - g) < TOLERANCE
    ensures ClearlyBelow(d, NextGuess(d, g))
  {
    hide NextGuess, Gap, Mean;
    MeanRange(d);
    LeavesBelowMean(d, g);
  }

  // How far above the mean a guess may be with so many rounds still to go.
  function Above(stage: nat): real {
    if stage == 1 then 0.000000001
    else if stage == 2 then 0.00003
    else if stage == 3 then 0.005
    else if stage == 4 then 0.07
    else if stage == 5 then 0.261
    else if stage == 6 then 0.51
    else 1.01
  }

  // And how far below it once it has fallen there.
  function Below(rounds: nat): real {
    -0.00000000000016 - rounds as real * 0.0000000000000003
  }

  lemma SquareBelow(x: real, high: real)
    requires 0.0 < x <= high
    ensures x * x <= high * high
  {
    SquareBetween(x, x, high);
  }

  lemma SquareAgainstLine(x: real)
    requires 0.0 < x <= 1.01
    ensures x * x <= 1.01 * x
  {
    MulOrder(x, 1.01, x);
  }

  lemma StageQuotient(g: real, z: real, n: real, b: real, x: real)
    requires 2.0 * g * z == n && b > 0.0 && g >= x + 0.5 && x >= 0.0 && n <= b + 2.0 * (b * x)
    ensures z <= b
  {
    assert b * (2.0 * x + 1.0) == b + 2.0 * (b * x);
    MulOrder(2.0 * x + 1.0, 2.0 * g, b);
    if z > b {
      MulOrder(b, z, 2.0 * g);
      assert false;
    }
  }

  lemma StageArithmetic(g: real, x: real, z: real, gap: real, stage: nat)
    requires 2 <= stage <= 7 && 0.0 < x <= Above(stage) && g >= x + 0.5
    requires 2.0 * g * z == x * x - gap && gap >= 0.0
    ensures z <= Above(stage - 1) - UNIT
  {
    if stage == 7 {
      SquareAgainstLine(x);
      StageQuotient(g, z, x * x - gap, 0.51 - UNIT, x);
    } else {
      SquareBelow(x, Above(stage));
      StageQuotient(g, z, x * x - gap, Above(stage - 1) - UNIT, 0.0);
    }
  }

  lemma StageAbove(d: real, g: real, x: real, stage: nat)
    requires d > 0.0 && g > 0.0 && 2 <= stage <= 7 && x == g - Mean(d) && 0.0 < x <= Above(stage) && Mean(d) >= 0.5
    ensures NextGuess(d, g) - Mean(d) <= Above(stage - 1)
  {
    hide NextGuess, Next, Above, Gap, Mean;
    MeanSquare(d);
    RoundedRound(d, g);
    var z := Next(d, g) - Mean(d);
    MeanStep(d, g, x, z);
    StageArithmetic(g, x, z, Gap(d), stage);
  }

  // One round takes a guess from one stage to the next.
  lemma NextStage(d: real, g: real, stage: nat)
    requires UNIT <= d <= 4.5 && NotFarBelow(d, g) && 2 <= stage <= 7 && g - Mean(d) <= Above(stage)
    ensures NextGuess(d, g) - Mean(d) <= Above(stage - 1)
  {
    hide NextGuess;
    if g <= Mean(d) {
      HardlyRises(d, g);
    } else {
      MeanRange(d);
      StageAbove(d, g, g - Mean(d), stage);
    }
  }

  lemma LastStageArithmetic(g: real, x: real, z: real, gap: real)
    requires -0.000000001 <= x <= 0.000000001 && 0.4 < g <= 2.76 && gap >= 0.0000000000011025
    requires 2.0 * g * z == x * x - gap
    ensures z <= -0.000000000000176
  {
    SquareNonNegative(x);
    SquareOrder(Abs(x), 0.0000000011);
    assert x * x <= 0.0000000000000000013;
    var m := 2.0 * g;
    assert z * m <= -0.000000000001;
    MulOrder(z, -0.000000000000176, m);
    assert -0.000000000000176 * m >= -0.000000000001;
  }

  // The round that crosses the mean, from next to it or from below.
  lemma LastStage(d: real, g: real, next: real)
    requires 0.5 < Mean(d) <= 2.75 && Gap(d) >= 0.0000000000011025 && d > 0.0
    requires -0.000000000001 <= g - Mean(d) <= 0.000000001 && Abs(next - Next(d, g)) <= 0.75 * UNIT
    ensures next - Mean(d) <= -0.000000000000175
  {
    hide Next, Gap, Mean;
    var z := Next(d, g) - Mean(d);
    MeanStep(d, g, g - Mean(d), z);
    LastStageArithmetic(g, g - Mean(d), z, Gap(d));
  }

  lemma GuessPositive(d: real, g: real)
    requires NotFarBelow(d, g)
    ensures g > 0.0
  {
  }

  lemma RoundBelow(d: real, g: real, stage: nat, rounds: nat)
    requires UNIT <= d <= 4.5 && Gap(d) >= 0.0000000000011025 && NotFarBelow(d, g) && stage <= 7 && rounds <= 49
    requires g - Mean(d) <= if stage == 0 then Below(rounds + 1) else Above(stage)
    ensures NextGuess(d, g) - Mean(d) <= if stage <= 1 then Below(rounds) else Above(stage - 1)
  {
    MeanRange(d);
    assert Above(1) == 0.000000001;
    hide NextGuess, Next, Gap, Mean, Above, NotFarBelow;
    GuessPositive(d, g);
    if stage >= 2 {
      NextStage(d, g, stage);
    } else if g - Mean(d) <= -0.000000000000176 {
      HardlyRises(d, g);
    } else {
      RoundedRound(d, g);
      LastStage(d, g, NextGuess(d, g));
    }
  }

  // Round by round a guess comes closer to the mean from above, falls below it and stays there.
  lemma ModerateClearlyBelow(d: real)
    requires UNIT <= d <= 4.5 && Gap(d) >= 0.0000000000011025
    ensures var r := SqrtOf(d);
      r.Ok? && ClearlyBelow(d, r.value)
  {
    var g := Quotient(d, 2.0);
    assert Mean(d) == (1.0 + d) / 2.0 && Above(7) == 1.01;
    assert SqrtOf(d) == Ok(Iterate(d, g, ROUNDS));
    FirstGuess(d);
    hide NextGuess, Quotient, Iterate, Gap, Mean, Above, NotFarBelow, SqrtOf;
    SecondGuess(d);
    OneRound(d, g, ROUNDS);
    if Abs(NextGuess(d, g) - g) < TOLERANCE {
      LeavesBelow(d, g);
      return;
    }
    var s := Iterate(d, g, ROUNDS);
    g := NextGuess(d, g);
    var rounds, stage := 49, 7;
    while rounds > 0
      invariant 0 <= stage <= 7 && stage <= rounds <= 49
      invariant s == Iterate(d, g, rounds) && NotFarBelow(d, g)
      invariant g - Mean(d) <= if stage == 0 then Below(rounds) else Above(stage)
    {
      OneRound(d, g, rounds);
      GuessPositive(d, g);
      if Abs(NextGuess(d, g) - g) < TOLERANCE {
        LeavesBelow(d, g);
        return;
      }
      RoundBelow(d, g, stage, rounds - 1);
      StaysNotBelow(d, g);
      g, rounds, stage := NextGuess(d, g), rounds - 1, if stage == 0 then 0 else stage - 1;
    }
    OneRound(d, g, 1);
  }

  // Away from 1 the root is clearly below the mean, however large or small the decimal.
  lemma RootClearlyBelow(d: real)
    requires d >= UNIT && (d <= 1.0 - 0.0000021 || d >= 1.0 + 0.0000021)
    ensures var r := SqrtOf(d);
      r.Ok? && ClearlyBelow(d, r.value) && (d > 4.5 ==> 4.0 * r.value <= d + 6.1)
  {
    hide SqrtOf, Gap, NotFarBelow;
    SqrtNotBelow(d);
    if d <= 4.5 {
      GapOf(d);
      ModerateClearlyBelow(d);
    }
  }
}

/**
 When a computed impermanent loss is really a gain.  The source documents it as never positive; the
 root ends above the true one by more than a loss next to an unchanged price amounts to, and a V3
 position opened outside its range can show a gain of any size.
 */
module LossSign {
  import opened Decimals
  import opened DecimalSqrt
  import opened ImpermanentLoss
  import opened RealMath
  import opened RootNearOne
  import opened TickSearch
  import opened TickTable
  import opened Wrappers

  // The error of the root next to 1.
  const ROOT_ERROR: real := 0.0000000000000011

  // ---------- the V2 formula ----------

  lemma TinyRatio(ratio: real)
    requires 0.0 <= ratio < UNIT
    ensures SqrtOrZero(ratio) == 0.0 && LossAt(ratio) == -1.0
  {
    hide SqrtOf;
    RootOfTiny(ratio);
    QuotientIs(0.0, 1.0 + ratio, 0.0);
    RoundedExact(0);
    hide Rounded;
  }

  lemma LossAway(ratio: real)
    requires ratio >= 0.0 && (ratio <= 1.0 - 0.0000021 || ratio >= 1.0 + 0.0000021)
    ensures LossAt(ratio) < 0.0
  {
    if ratio < UNIT {
      TinyRatio(ratio);
    } else {
      LossAgainstZero(ratio);
      hide LossAt, SqrtOf;
      RootClearlyBelow(ratio);
    }
  }

  lemma LossNearOne(ratio: real)
    requires NearOne(ratio)
    ensures 1.0 - 0.0000000873 <= ratio <= 1.0 + 0.0000000873 ==> LossAt(ratio) > 0.0
    ensures ratio <= 1.0 - 0.0000000982 || ratio >= 1.0 + 0.0000000982 ==> LossAt(ratio) < 0.0
    ensures LossAt(ratio) < 13.0 * UNIT
  {
    hide LossAt, SqrtOf, Gap;
    LossAgainstZero(ratio);
    LossNear(ratio);
    RootAgainstMean(ratio);
    GapOf(ratio);
    ScaledFraction(2.0 * SqrtOrZero(ratio), 1.0 + ratio, 1.00000000000000117);
  }

  lemma SqrtPositive(d: real)
    requires d >= UNIT
    ensures SqrtOrZero(d) > 0.0
  {
    hide SqrtOf;
    SqrtNotBelow(d);
  }

  lemma NothingLostTwice(ratio: real)
    requires ratio >= 0.0
    ensures LossAt(ratio) >= -1.0
  {
    hide SqrtOrZero, Rounded;
    if ratio < UNIT {
      TinyRatio(ratio);
    } else {
      SqrtPositive(ratio);
      var x := 2.0 * SqrtOrZero(ratio) / (1.0 + ratio);
      ScaledFraction(2.0 * SqrtOrZero(ratio), 1.0 + ratio, 0.0);
      RoundedNear(x);
    }
  }

  // V2 at any ratio: a gain when it is within 8.73e-8 of 1, a strict loss from 9.82e-8 on either side, and
  // never a gain of thirteen units or more, nor a loss of more than everything.
  lemma LossBands(ratio: real)
    requires ratio >= 0.0
    ensures 1.0 - 0.0000000873 <= ratio <= 1.0 + 0.0000000873 ==> LossAt(ratio) > 0.0
    ensures ratio <= 1.0 - 0.0000000982 || ratio >= 1.0 + 0.0000000982 ==> LossAt(ratio) < 0.0
    ensures -1.0 <= LossAt(ratio) < 13.0 * UNIT
  {
    NothingLostTwice(ratio);
    hide LossAt;
    if NearOne(ratio) {
      LossNearOne(ratio);
    } else {
      LossAway(ratio);
    }
  }

  // A gain of the V2 formula, decided by the fifth guess alone: half a unit above the mean, relatively.
  predicate ShowsGain(ratio: real) {
    NearOne(ratio) && 2.0 * Guessed(ratio, 5) >= 1.0 + ratio + HalfUnits(1.0 + ratio)
  }

  lemma LossSignIff(ratio: real)
    requires ratio >= 0.0
    ensures LossAt(ratio) > 0.0 <==> ShowsGain(ratio)
    ensures LossAt(ratio) < 0.0 <==>
      !NearOne(ratio) || 2.0 * Guessed(ratio, 5) < 1.0 + ratio - HalfUnits(1.0 + ratio)
  {
    if NearOne(ratio) {
      LossAgainstZero(ratio);
      hide LossAt, SqrtOf, Guessed;
      FiveRounds(ratio);
    } else {
      hide LossAt, Guessed;
      LossAway(ratio);
    }
  }

  lemma RatioOfPositive(price0: real, price1: real)
    requires price0 > 0.0 && price1 > 0.0
    ensures Quotient(price1, price0) >= 0.0
  {
    QuotientAgainstOne(price1, price0);
  }

  // V2 at all positive prices: the sign, the two bands of the rounded ratio that settle it, and the bounds.
  lemma ILV2SignIff(price0: real, price1: real)
    requires price0 > 0.0 && price1 > 0.0
    ensures var r, il := Quotient(price1, price0), ILV2(price0, price1);
      && (il > 0.0 <==> ShowsGain(r))
      && (1.0 - 0.0000000873 <= r <= 1.0 + 0.0000000873 ==> il > 0.0)
      && (r <= 1.0 - 0.0000000982 || r >= 1.0 + 0.0000000982 ==> il < 0.0)
      && -1.0 <= il < 13.0 * UNIT
  {
    RatioOfPositive(price0, price1);
    hide LossAt, ShowsGain, Quotient;
    LossSignIff(Quotient(price1, price0));
    LossBands(Quotient(price1, price0));
  }

  // ---------- the root of a squared ratio ----------

  lemma SquareAway(q: real)
    requires q >= 0.0 && (q < 1.0 - 0.00000109 || q > 1.0 + 0.00000109)
    ensures q * q <= 1.0 - 0.0000021 || q * q >= 1.0 + 0.0000021
    ensures q < 1.0 ==> q * q < 1.0
  {
    if q > 1.0 {
      MulOrder(1.00000109, q, q);
    } else if q > 0.0 {
      MulOrder(q, 0.99999891, q);
    } else {
      assert q * q == 0.0;
    }
  }

  lemma RootNotBelowSquare(q: real, d: real, s: real)
    requires d == q * q && q > 1.00000109 && NotFarBelow(d, s)
    ensures s > 1.0
  {
    SquareOrder(s + UNIT, q);
  }

  lemma RootAwayAt(q: real, d: real)
    requires q >= 0.0 && d == q * q && (q < 1.0 ==> d < 1.0) && (q > 1.0 ==> q > 1.00000109)
    requires d >= UNIT && (d <= 1.0 - 0.0000021 || d >= 1.0 + 0.0000021)
    ensures var s := SqrtOrZero(d);
      (q > 1.0 ==> s > 1.0) && (q < 1.0 ==> s < 1.0) && s > 0.0
  {
    hide SqrtOf, NotFarBelow;
    SqrtNotBelow(d);
    SqrtPositive(d);
    RootClearlyBelow(d);
    if q > 1.0 {
      RootNotBelowSquare(q, d, SqrtOrZero(d));
    }
  }

  lemma RootOfTinySquare(q: real)
    requires q >= 0.0 && q * q < UNIT
    ensures q < 1.0
  {
    if q >= 1.0 {
      MulOrder(1.0, q, q);
    }
  }

  // Away from 1 the root of q^2 is on the same side of 1 as q.
  lemma RootAway(q: real)
    requires q >= 0.0 && (q < 1.0 - 0.00000109 || q > 1.0 + 0.00000109)
    ensures var s := SqrtOrZero(q * q);
      (q > 1.0 ==> s > 1.0) && (q < 1.0 ==> s < 1.0) && (s == 0.0 <==> q * q < UNIT)
  {
    hide SqrtOrZero;
    SquareAway(q);
    var d := q * q;
    SquareNonNegative(q);
    if d < UNIT {
      TinyRatio(d);
      RootOfTinySquare(q);
    } else {
      RootAwayAt(q, d);
    }
  }

  lemma ElevenUnitsAgainstOne(q: real)
    requires OnGrid(q)
    ensures q + ROOT_ERROR > 1.0 <==> q >= 1.0 - 10.0 * UNIT
    ensures q + ROOT_ERROR < 1.0 <==> q <= 1.0 - 12.0 * UNIT
  {
    var k := (q * 10000000000000000.0).Floor;
    assert q == Units(k);
  }

  lemma HalfSquared(q: real)
    requires q >= 0.9
    ensures q * q >= 0.5
  {
    SquareOrder(q, 0.8);
  }

  // The root of d = q^2 as the loop computes it, q a whole number of units, exceeds 1 from ten units below on.
  lemma RootAgainstOneIff(q: real, d: real)
    requires q >= 0.0 && OnGrid(q) && d == q * q
    ensures var s := SqrtOrZero(d);
      && (s > 1.0 <==> q >= 1.0 - 10.0 * UNIT)
      && (s < 1.0 <==> q <= 1.0 - 12.0 * UNIT)
      && (s == 0.0 <==> d < UNIT)
  {
    hide SqrtOf;
    if 1.0 - 0.00000109 <= q <= 1.0 + 0.00000109 {
      HalfSquared(q);
      RootOfSquareNearOne(q);
      ElevenUnitsAgainstOne(q);
    } else {
      hide SqrtOrZero, OnGrid;
      RootAway(q);
    }
  }

  // ---------- the V3 branches ----------

  // In range: the gain of the root, 22 units, outweighs the true loss (1 - q)^2 by a rounding.
  predicate InRangeGain(q: real) {
    (1.0 - q) * (1.0 - q) <= 22.0 * UNIT - HalfUnits(1.0 + q * q)
  }

  predicate InRangeLoss(q: real) {
    (1.0 - q) * (1.0 - q) > 22.0 * UNIT + HalfUnits(1.0 + q * q)
  }

  lemma FarFromOne(q: real)
    requires q >= 0.0 && (q < 1.0 - 0.00000109 || q > 1.0 + 0.00000109)
    ensures InRangeLoss(q) && !InRangeGain(q)
  {
    var e := Abs(1.0 - q);
    SquareNonNegative(1.0 - q);
    SquareOrder(e, 0.00000109);
    var e2 := e * e;
    assert q * q == 1.0 - 2.0 * (1.0 - q) + (1.0 - q) * (1.0 - q);
    assert q * q <= 1.0 + 2.0 * e + e2;
    if e < 1.0 {
    } else {
      MulOrder(1.0, e, e);
    }
    assert HalfUnits(1.0 + q * q) <= HalfUnits(2.0 + 2.0 * e + e2);
  }

  lemma NearSquare(q: real, d: real, s: real)
    requires s == q + ROOT_ERROR && d == q * q
    ensures 2.0 * s >= 1.0 + d + HalfUnits(1.0 + d) <==> InRangeGain(q)
    ensures 2.0 * s < 1.0 + d - HalfUnits(1.0 + d) <==> InRangeLoss(q)
  {
    assert (1.0 - q) * (1.0 - q) == 1.0 - 2.0 * q + q * q;
  }

  lemma GridAgainstOne(s: real)
    requires OnGrid(s)
    ensures s >= 1.0 + UNIT || s <= 1.0 - UNIT || s == 1.0
  {
    var k := (s * 10000000000000000.0).Floor;
    assert s == Units(k);
  }

  lemma InverseAgainstOne(s: real)
    requires s > 0.0 && OnGrid(s)
    ensures Quotient(1.0, s) > 1.0 <==> s < 1.0
    ensures Quotient(1.0, s) < 1.0 <==> s > 1.0
  {
    GridAgainstOne(s);
    AgainstOne(1.0 / s);
    ScaledFraction(1.0, s, 1.0 + HALF_UNIT);
    ScaledFraction(1.0, s, 1.0 - HALF_UNIT);
    var p := HALF_UNIT * s;
    assert (1.0 + HALF_UNIT) * s == s + p && (1.0 - HALF_UNIT) * s == s - p;
    MulOrder(s, 2.0, HALF_UNIT);
  }

  // ---------- main results ----------

  lemma RootOfSquareIs(q: real, d: real)
    requires OnGrid(q) && 1.0 - 0.00000109 <= q <= 1.0 + 0.00000109 && d == q * q
    ensures SqrtOrZero(d) == q + ROOT_ERROR
  {
    hide SqrtOf, OnGrid;
    RootOfSquareNearOne(q);
  }

  lemma RootOfOne()
    ensures SqrtOrZero(1.0) == 1.0 + ROOT_ERROR
  {
    UnitsOnGrid(10000000000000000);
    assert Units(10000000000000000) == 1.0;
    hide SqrtOrZero, OnGrid;
    RootOfSquareIs(1.0, 1.0);
  }

  lemma LossAtOne()
    ensures LossAt(1.0) == ROOT_ERROR
  {
    assert Units(10000000000000011) == 1.0 + ROOT_ERROR;
    RoundedExact(10000000000000011);
    hide SqrtOrZero, Rounded;
    RootOfOne();
  }

  // An unchanged price shows a gain of eleven units, whatever the price.
  lemma UnchangedPriceShowsGain(price: real)
    requires price > 0.0
    ensures ILV2(price, price) == ROOT_ERROR
  {
    QuotientIs(price, price, 1.0);
    RoundedExact(10000000000000000);
    assert Units(10000000000000000) == 1.0;
    UnitsOnGrid(10000000000000000);
    hide SqrtOf, Rounded, OnGrid;
    LossAtOne();
  }

  lemma RatioFacts(p0: nat, p1: nat) returns (q: real, d: real)
    ensures q == SqrtRatio(p0, p1) && q >= 0.0 && OnGrid(q)
    ensures d == PriceRatio(p0, p1) == q * q && d >= 0.0
  {
    hide SqrtRatio, OnGrid, Normalized, Resolved;
    q, d := SqrtRatio(p0, p1), PriceRatio(p0, p1);
    RatioOrder(p0, p1);
    SquareNonNegative(q);
  }

  // V3 at all positive prices and any range, decided by the rounded ratio q of the square-root prices: in
  // range a gain exactly when the root's error outweighs the loss, below the range exactly when q is at
  // least ten units below 1, above it exactly when q is at most twelve units below 1, unless the root is
  // zero, where the inverse fails.
  lemma ILV3SignIff(p0: nat, p1: nat, tickLower: int, tickUpper: int)
    requires p1 > 0
    ensures var r, q := ILV3(p0, p1, tickLower, tickUpper), SqrtRatio(p0, p1);
      if tickLower <= TickOf(p1) < tickUpper then
        r.Ok? && (r.value > 0.0 <==> InRangeGain(q)) && (r.value < 0.0 <==> InRangeLoss(q))
      else if TickOf(p1) < tickLower then
        && r.Ok? && (r.value > 0.0 <==> q >= 1.0 - 10.0 * UNIT)
        && (r.value < 0.0 <==> q <= 1.0 - 12.0 * UNIT)
      else if PriceRatio(p0, p1) < UNIT then r == Err(InvalidDivision)
      else
        && r.Ok? && (r.value > 0.0 <==> q <= 1.0 - 12.0 * UNIT)
        && (r.value < 0.0 <==> q >= 1.0 - 10.0 * UNIT)
  {
    hide SqrtOf, SqrtRatio, PriceRatio, TickOf, LossAt, InRangeGain, InRangeLoss, Quotient, OnGrid;
    var q, d := RatioFacts(p0, p1);
    RootAgainstOneIff(q, d);
    if 1.0 - 0.00000109 <= q <= 1.0 + 0.00000109 {
      RootOfSquareIs(q, d);
      NearSquare(q, d, q + ROOT_ERROR);
      LossAgainstZero(d);
    } else {
      SquareAway(q);
      LossAway(d);
      FarFromOne(q);
    }
    SqrtOnGrid(d);
    if SqrtOrZero(d) > 0.0 {
      InverseAgainstOne(SqrtOrZero(d));
    }
    if d >= UNIT {
      SqrtPositive(d);
    }
  }

  lemma SquareAtLeastOne(q: real, d: real)
    requires q >= 1.0 && d == q * q
    ensures d >= 1.0
  {
    MulOrder(1.0, q, q);
  }

  // Opened below the range, a price that does not fall and stays below it shows a gain exactly when the
  // opening price is resolved, and one no constant bounds; otherwise everything counts as lost.
  lemma OpenedBelowGainIff(p0: nat, p1: nat, tickLower: int, tickUpper: int)
    requires 0 < p0 <= p1 && TickOf(p1) < tickLower
    ensures var r := ILV3(p0, p1, tickLower, tickUpper);
      && r.Ok?
      && (r.value > 0.0 <==> Resolved(p0))
      && (!Resolved(p0) ==> r.value == -1.0)
      && (Resolved(p0) ==> NotFarBelow(PriceRatio(p0, p1), 1.0 + r.value) && PriceRatio(p0, p1) >= 1.0)
  {
    hide SqrtOf, SqrtRatio, PriceRatio, TickOf, NotFarBelow, OnGrid;
    var q, d := RatioFacts(p0, p1);
    RatioOrder(p0, p1);
    RootAgainstOneIff(q, d);
    if Resolved(p0) {
      SquareAtLeastOne(q, d);
      SqrtNotBelow(d);
      assert 1.0 + (SqrtOrZero(d) - 1.0) == SqrtOrZero(d);
    } else {
      assert d == 0.0;
      TinyRatio(d);
    }
  }

  // A fall by one part in 10^12 is seen from a square-root price of 2^96 / 1000 on.
  lemma FallIsSeen(p0: nat, p1: nat)
    requires 1000 * p0 >= Q96 && 1000000000000 * p1 <= 999999999999 * p0
    ensures Resolved(p0) && SqrtRatio(p0, p1) <= 1.0 - 12.0 * UNIT
  {
    var y0, y1 := p0 as real / Q96 as real, p1 as real / Q96 as real;
    ScaledFraction(p0 as real, Q96 as real, 0.001);
    assert y0 * Q96 as real == p0 as real && y1 * Q96 as real == p1 as real;
    RatioPrecision(p0, p1);
    hide SqrtRatio, Normalized;
    ScaledFraction(Normalized(p1), Normalized(p0), 0.9999999999995);
  }

  // Opened above the range, such a fall that stays above it is a gain, unless the ratio is too small to have
  // a root.
  lemma OpenedAboveGains(p0: nat, p1: nat, tickLower: int, tickUpper: int)
    requires 0 < p1 && 1000 * p0 >= Q96 && 1000000000000 * p1 <= 999999999999 * p0
    requires TickOf(p1) >= tickUpper >= tickLower
    ensures var r := ILV3(p0, p1, tickLower, tickUpper);
      if PriceRatio(p0, p1) < UNIT then r == Err(InvalidDivision) else r.Ok? && r.value > 0.0
  {
    hide ILV3, TickOf, PriceRatio, SqrtRatio;
    FallIsSeen(p0, p1);
    ILV3SignIff(p0, p1, tickLower, tickUpper);
  }

  lemma RootAtMost(q: real, d: real)
    requires 0.0 <= q <= 1.0 && OnGrid(q) && d == q * q
    ensures 0.0 <= SqrtOrZero(d) <= 1.0 + ROOT_ERROR
  {
    hide SqrtOf, OnGrid;
    SquareNonNegative(q);
    if d >= UNIT {
      SqrtPositive(d);
    } else {
      TinyRatio(d);
    }
    if q >= 1.0 - 0.00000109 {
      RootOfSquareNearOne(q);
    } else {
      RootAway(q);
    }
  }

  lemma InverseNotNegative(s: real)
    requires s > 0.0
    ensures Quotient(1.0, s) >= 0.0
  {
    QuotientAgainstOne(1.0, s);
  }

  // Opened inside the range: a strict loss above it, or the inverse's failure if the opening price is not
  // resolved; below it a gain only down to ten units under 1; in range as the V2 formula.  Nowhere a gain of
  // thirteen units or a loss of more than everything.
  lemma OpenedInsideGainIff(p0: nat, p1: nat, tickLower: int, tickUpper: int)
    requires p1 > 0 && tickLower <= TickOf(p0) < tickUpper
    ensures var r, q := ILV3(p0, p1, tickLower, tickUpper), SqrtRatio(p0, p1);
      && (r.Err? <==> TickOf(p1) >= tickUpper && !Resolved(p0))
      && (r.Ok? ==> -1.0 <= r.value < 13.0 * UNIT)
      && (TickOf(p1) >= tickUpper && Resolved(p0) ==> r.value < 0.0)
      && (TickOf(p1) < tickLower ==> (r.value > 0.0 <==> q >= 1.0 - 10.0 * UNIT))
      && (tickLower <= TickOf(p1) < tickUpper ==> (r.value > 0.0 <==> InRangeGain(q)))
  {
    hide SqrtOf, SqrtRatio, PriceRatio, TickOf, LossAt, InRangeGain, InRangeLoss, Quotient, OnGrid;
    ILV3SignIff(p0, p1, tickLower, tickUpper);
    var q, d := RatioFacts(p0, p1);
    RatioOrder(p0, p1);
    if tickLower <= TickOf(p1) < tickUpper {
      LossBands(d);
    } else if TickOf(p1) < tickLower {
      LowerTickLowerPrice(p1, p0);
      RootAtMost(q, d);
    } else {
      LowerTickLowerPrice(p0, p1);
      if Resolved(p0) {
        SquareAtLeastOne(q, d);
        SqrtPositive(d);
        InverseNotNegative(SqrtOrZero(d));
      } else {
        assert d == 0.0;
      }
    }
  }

  lemma InverseOfElevenUnits()
    ensures Quotient(1.0, 1.0 + ROOT_ERROR) == 1.0 - ROOT_ERROR
  {
    var x := 1.0 / (1.0 + ROOT_ERROR);
    assert Units(9999999999999989) == 1.0 - ROOT_ERROR;
    ScaledFraction(1.0, 1.0 + ROOT_ERROR, 1.0 - ROOT_ERROR - HALF_UNIT);
    ScaledFraction(1.0, 1.0 + ROOT_ERROR, 1.0 - ROOT_ERROR + HALF_UNIT);
    RoundedTo(x, 9999999999999989);
  }

  lemma RatioOfAlike(p0: nat, p1: nat)
    requires Resolved(p0) && Normalized(p0) == Normalized(p1)
    ensures PriceRatio(p0, p1) == 1.0
  {
    hide SqrtRatio, Normalized, OnGrid;
    RatioOrder(p0, p1);
  }

  // Prices that normalize alike count as unchanged: a gain of eleven units below and inside the range, a
  // loss of eleven units above it, whatever the prices are.
  lemma AlikeCountAsUnchanged(p0: nat, p1: nat, tickLower: int, tickUpper: int)
    requires p1 > 0 && Resolved(p0) && Normalized(p0) == Normalized(p1)
    ensures ILV3(p0, p1, tickLower, tickUpper) ==
      Ok(if TickOf(p1) < tickLower || TickOf(p1) < tickUpper then ROOT_ERROR else -ROOT_ERROR)
  {
    hide SqrtOrZero, PriceRatio, TickOf, LossAt, Quotient, Normalized;
    RatioOfAlike(p0, p1);
    LossAtOne();
    RootOfOne();
    InverseOfElevenUnits();
  }

  lemma LowNormalized(p: nat)
    requires 259868677534809 <= p <= 260847314474219
    ensures Normalized(p) == Units(33) && Resolved(p)
  {
    ScaledFraction(p as real, Q96 as real, Units(33) - HALF_UNIT);
    ScaledFraction(p as real, Q96 as real, Units(33) + HALF_UNIT);
    RoundedTo(p as real / Q96 as real, 33);
  }

  lemma LowRatio()
    ensures Squared(259868677534809) > 0.0
    ensures Quotient(Squared(260847314474219), Squared(259868677534809)) >= 1.0 + 0.0000021
  {
    var a, b := Squared(260847314474219), Squared(259868677534809);
    ScaledFraction(a, b, 1.007);
    RoundedNear(a / b);
  }

  // At the bottom of the table that is 0.4 % apart: a position in range shows a gain where V2 at the same
  // prices shows a loss.
  lemma LowPricesShowGain(tickLower: int, tickUpper: int)
    requires tickLower <= TickOf(260847314474219) < tickUpper
    ensures ILV3(259868677534809, 260847314474219, tickLower, tickUpper) == Ok(ROOT_ERROR)
    ensures ILV2(Squared(259868677534809), Squared(260847314474219)) < 0.0
  {
    hide TickOf, LossAt;
    LowNormalized(259868677534809);
    LowNormalized(260847314474219);
    AlikeCountAsUnchanged(259868677534809, 260847314474219, tickLower, tickUpper);
    LowRatio();
    LossAway(Quotient(Squared(260847314474219), Squared(259868677534809)));
  }

  lemma RoundedZero()
    ensures Rounded(0.0) == 0.0
  {
    RoundedExact(0);
  }

  lemma NoRootLosesAll(ratio: real)
    requires ratio <= 0.0
    ensures LossAt(ratio) == -1.0
  {
    hide Iterate, Rounded;
    assert SqrtOrZero(ratio) == 0.0;
    if ratio != -1.0 {
      assert 0.0 / (1.0 + ratio) == 0.0;
    }
    RoundedZero();
  }

  // Without a positive ratio everything counts as lost.
  lemma NoRatioLosesAll(price0: real, price1: real)
    requires price0 == 0.0 || Quotient(price1, price0) <= 0.0
    ensures ILV2(price0, price1) == -1.0
  {
    hide SqrtOf, Quotient;
    NoRootLosesAll(DivOrZero(price1, price0));
  }

  // The current price is refused exactly when it is not positive, whatever the opening price.
  lemma ILV3RefusesIff(p0: int, p1: int, tickLower: int, tickUpper: int)
    ensures ILV3(p0, p1, tickLower, tickUpper) == Err(InvalidCurrentPrice) <==> p1 <= 0
  {
    hide LossAt, SqrtOf, TickOf, PriceRatio, Quotient;
  }
}

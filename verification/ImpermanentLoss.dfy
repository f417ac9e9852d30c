/**
 Impermanent loss of a V2 and of a V3 position, as a fraction of the position's value.  Quotients and the
 square root are the rounded ones of Decimals and DecimalSqrt.
 */
module ImpermanentLoss {
  import opened Decimals
  import opened DecimalSqrt
  import opened RealMath
  import opened TickSearch
  import opened TickTable
  import opened Wrappers

  datatype LossError = InvalidCurrentPrice | InvalidDivision

  // Where the source drops an error, the zero decimal stands for the result.
  function SqrtOrZero(d: real): real {
    var r := SqrtOf(d);
    if r.Ok? then r.value else 0.0
  }

  // 2 sqrt(r) / (1 + r) - 1
  function LossAt(ratio: real): real {
    DivOrZero(2.0 * SqrtOrZero(ratio), 1.0 + ratio) - 1.0
  }

  function ILV2(price0: real, price1: real): real {
    LossAt(DivOrZero(price1, price0))
  }

  // A square-root price as a decimal.
  function Normalized(sqrtPrice: int): real {
    DivOrZero(sqrtPrice as real, Q96 as real)
  }

  function SqrtRatio(sqrtPrice0: int, sqrtPrice1: int): real {
    DivOrZero(Normalized(sqrtPrice1), Normalized(sqrtPrice0))
  }

  // The price ratio as ILV3 computes it from two square-root prices.
  function PriceRatio(sqrtPrice0: int, sqrtPrice1: int): real {
    SqrtRatio(sqrtPrice0, sqrtPrice1) * SqrtRatio(sqrtPrice0, sqrtPrice1)
  }

  // The square of the ratio is never negative, so the source's square-root errors cannot occur here.
  function ILV3(sqrtPrice0: int, sqrtPriceCurrent: int, tickLower: int, tickUpper: int): Result<real, LossError> {
    if sqrtPriceCurrent <= 0 then Err(InvalidCurrentPrice)
    else
      var tick := TickOf(sqrtPriceCurrent);
      var ratio := PriceRatio(sqrtPrice0, sqrtPriceCurrent);
      var root := SqrtOrZero(ratio);
      if tickLower <= tick < tickUpper then
        if 1.0 + ratio == 0.0 then Err(InvalidDivision) else Ok(LossAt(ratio))
      else if tick < tickLower then Ok(root - 1.0)
      else if root == 0.0 then Err(InvalidDivision)
      else Ok(Quotient(1.0, root) - 1.0)
  }

  // ---------- the normalized prices ----------

  // Half a unit of the normalized price: below it a square-root price counts as zero.
  predicate Resolved(p: nat) {
    20000000000000000 * p >= Q96
  }

  lemma ScaledFraction(a: real, b: real, c: real)
    requires b > 0.0
    ensures a / b >= c <==> a >= c * b
  {
    assert a / b * b == a;
    MulOrder(c, a / b, b);
  }

  lemma NormalizedResolved(p: nat)
    ensures 0.0 <= Normalized(p) && OnGrid(Normalized(p))
    ensures Normalized(p) > 0.0 <==> Resolved(p)
  {
    var a, b := p as real, Q96 as real;
    var x := a / b;
    ScaledFraction(a, b, 0.0);
    ScaledFraction(a, b, HALF_UNIT);
    RoundedNear(x);
    RoundedOnGrid(x);
    RoundedAtLeast(x, 1);
    assert Normalized(p) == Rounded(x);
    hide Rounded;
    if Rounded(x) > 0.0 {
      assert (Rounded(x) * 10000000000000000.0).Floor >= 1;
    }
  }

  lemma QuotientMonotone(a: real, a': real, b: real)
    requires b > 0.0 && a <= a'
    ensures Quotient(a, b) <= Quotient(a', b)
  {
    assert a / b * b == a && a' / b * b == a';
    MulOrder(a / b, a' / b, b);
    RoundedMonotone(a / b, a' / b);
  }

  lemma QuotientAgainstOne(a: real, b: real)
    requires b > 0.0
    ensures a >= b ==> Quotient(a, b) >= 1.0
    ensures a <= b ==> Quotient(a, b) <= 1.0
    ensures a >= 0.0 ==> Quotient(a, b) >= 0.0
  {
    ScaledFraction(a, b, 1.0);
    ScaledFraction(a, b, 0.0);
    ScaledFraction(-a, b, -1.0);
    assert -a / b == -(a / b);
    RoundedNear(a / b);
    AgainstOne(a / b);
  }

  // The computed ratio is ordered like the prices as far as it can tell them apart: equal normalized
  // prices give exactly 1, and an opening price too low to be resolved gives 0.
  lemma RatioOrder(p0: nat, p1: nat)
    ensures var q := SqrtRatio(p0, p1);
      && q >= 0.0 && OnGrid(q)
      && (!Resolved(p0) ==> q == 0.0)
      && (Resolved(p0) && p1 >= p0 ==> q >= 1.0)
      && (Resolved(p0) && p1 <= p0 ==> q <= 1.0)
      && (Resolved(p0) && Normalized(p1) == Normalized(p0) ==> q == 1.0)
  {
    NormalizedResolved(p0);
    NormalizedResolved(p1);
    var x0, x1 := Normalized(p0), Normalized(p1);
    if p0 <= p1 {
      QuotientMonotone(p0 as real, p1 as real, Q96 as real);
    }
    if p1 <= p0 {
      QuotientMonotone(p1 as real, p0 as real, Q96 as real);
    }
    if x0 > 0.0 {
      RoundedOnGrid(x1 / x0);
      hide Rounded, Normalized;
      QuotientAgainstOne(x1, x0);
    } else {
      UnitsOnGrid(0);
    }
  }

  // What the two roundings of the ratio cost: half a unit of each normalized price and of their quotient.
  lemma RatioPrecision(p0: nat, p1: nat)
    requires Resolved(p0)
    ensures Normalized(p0) > 0.0
    ensures Abs(Normalized(p0) - p0 as real / Q96 as real) <= HALF_UNIT
    ensures Abs(Normalized(p1) - p1 as real / Q96 as real) <= HALF_UNIT
    ensures Abs(SqrtRatio(p0, p1) - Normalized(p1) / Normalized(p0)) <= HALF_UNIT
  {
    NormalizedResolved(p0);
    RoundedNear(p0 as real / Q96 as real);
    RoundedNear(p1 as real / Q96 as real);
    RoundedNear(Normalized(p1) / Normalized(p0));
  }

  // ---------- the formulas ----------

  // The sign of the V2 formula: whether twice the root misses 1 + ratio by half a unit of it.
  lemma LossAgainstZero(ratio: real)
    requires ratio >= 0.0
    ensures LossAt(ratio) > 0.0 <==> 2.0 * SqrtOrZero(ratio) >= 1.0 + ratio + HalfUnits(1.0 + ratio)
    ensures LossAt(ratio) < 0.0 <==> 2.0 * SqrtOrZero(ratio) < 1.0 + ratio - HalfUnits(1.0 + ratio)
  {
    hide SqrtOrZero;
    var n, m := 2.0 * SqrtOrZero(ratio), 1.0 + ratio;
    ScaledFraction(n, m, 1.0 + HALF_UNIT);
    ScaledFraction(n, m, 1.0 - HALF_UNIT);
    AgainstOne(n / m);
  }

  // The loss keeps the fraction 2 sqrt(r) / (1 + r) of the value to within half a unit.
  lemma LossNear(ratio: real)
    requires ratio >= 0.0
    ensures Abs(1.0 + LossAt(ratio) - 2.0 * SqrtOrZero(ratio) / (1.0 + ratio)) <= HALF_UNIT
  {
    hide SqrtOrZero;
    RoundedNear(2.0 * SqrtOrZero(ratio) / (1.0 + ratio));
  }

  // V2 up to a ratio of 2^90: the formula at a root that is accurate, to within half a unit.
  lemma ILV2Accurate(price0: real, price1: real)
    requires price0 > 0.0 && UNIT <= Quotient(price1, price0) <= TWO_90
    ensures var r := Quotient(price1, price0);
      var s := SqrtOrZero(r);
      && Abs(r - price1 / price0) <= HALF_UNIT
      && Accurate(r, s)
      && Abs(1.0 + ILV2(price0, price1) - 2.0 * s / (1.0 + r)) <= HALF_UNIT
  {
    RoundedNear(price1 / price0);
    var r := Quotient(price1, price0);
    hide Quotient, LossAt, SqrtOf, Accurate;
    SqrtAccurate(r);
    LossNear(r);
  }

  // V3 up to a ratio of 2^90: below the range the value kept is the root, above it the root's inverse and
  // in range the V2 fraction, the last two to within half a unit, at an accurate root of the computed ratio.
  lemma ILV3Accurate(p0: nat, p1: nat, tickLower: int, tickUpper: int)
    requires p1 > 0 && UNIT <= PriceRatio(p0, p1) <= TWO_90
    ensures var r := ILV3(p0, p1, tickLower, tickUpper);
      var ratio := PriceRatio(p0, p1);
      var s := SqrtOrZero(ratio);
      && r.Ok? && s > 0.0 && Accurate(ratio, s)
      && var kept := 1.0 + r.value;
        if tickLower <= TickOf(p1) < tickUpper then Abs(kept - 2.0 * s / (1.0 + ratio)) <= HALF_UNIT
        else if TickOf(p1) < tickLower then kept == s
        else Abs(kept - 1.0 / s) <= HALF_UNIT
  {
    var ratio := PriceRatio(p0, p1);
    hide LossAt, SqrtOf, Accurate, PriceRatio, TickOf;
    SqrtAccurate(ratio);
    SqrtNotBelow(ratio);
    LossNear(ratio);
    RoundedNear(1.0 / SqrtOrZero(ratio));
  }

  function Squared(p: int): real {
    p as real * p as real
  }

  // In range ILV3 takes the V2 formula, but at the square of a rounded quotient where ILV2 takes the
  // rounded quotient of the squares: they agree when those ratios do.
  lemma InRangeSameFormula(p0: nat, p1: nat, tickLower: int, tickUpper: int)
    requires p1 > 0 && tickLower <= TickOf(p1) < tickUpper
    ensures ILV3(p0, p1, tickLower, tickUpper) == Ok(LossAt(PriceRatio(p0, p1)))
    ensures DivOrZero(Squared(p1), Squared(p0)) == PriceRatio(p0, p1) ==>
      ILV3(p0, p1, tickLower, tickUpper) == Ok(ILV2(Squared(p0), Squared(p1)))
  {
    hide LossAt, TickOf, SqrtRatio;
    SquareNonNegative(SqrtRatio(p0, p1));
  }

  lemma LowerTickLowerPrice(p: nat, q: nat)
    requires TickOf(p) < TickOf(q)
    ensures p < q
  {
    if p >= q {
      TickOfMonotone(q, p);
    }
  }
}

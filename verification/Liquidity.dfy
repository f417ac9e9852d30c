/** Liquidity bought by token amounts, and its round trip with the amounts of a position. */
module Liquidity {
  import opened Amounts
  import opened FloorMath
  import opened TickSearch
  import opened TickTable
  import opened Wrappers

  // The amounts are decimals; the source parses their text as a whole number and fails otherwise.
  function Whole(d: real): Option<int> {
    if d == d.Floor as real then Some(d.Floor) else None
  }

  function LiquidityBelow(lower: int, upper: int, amount0: int): int
    requires lower < upper
  {
    Div(Div(amount0 * (upper * lower), upper - lower), Q96)
  }

  function Liquidity0(lower: int, upper: int, amount0: int): int
    requires lower < upper
  {
    Div(upper * lower * amount0, (upper - lower) * Q96)
  }

  function Liquidity1(lower: int, upper: int, amount1: int): int
    requires lower < upper
  {
    Div(amount1 * Q96, upper - lower)
  }

  function Bought(lower: int, upper: int, current: int, amount0: real, amount1: real): Result<int, PositionError> {
    if upper <= lower then Err(UpperNotAboveLower)
    else if TickOrZero(current) < TickOrZero(lower) then
      match Whole(amount0)
      case None => Err(NotWhole)
      case Some(a0) => Ok(LiquidityBelow(lower, upper, a0))
    else if TickOrZero(current) >= TickOrZero(upper) then
      match Whole(amount1)
      case None => Err(NotWhole)
      case Some(a1) => Ok(Liquidity1(lower, upper, a1))
    else
      match (Whole(amount0), Whole(amount1))
      case (Some(a0), Some(a1)) =>
        var l0, l1 := Liquidity0(lower, upper, a0), Liquidity1(lower, upper, a1);
        Ok(if l0 < l1 then l0 else l1)
      case _ => Err(NotWhole)
  }

  method LiquidityForAmounts(lower: int, upper: int, current: int, amount0: real, amount1: real)
    returns (r: Result<int, PositionError>)
    ensures r == Bought(lower, upper, current, amount0, amount1)
  {
    if upper <= lower {
      return Err(UpperNotAboveLower);
    }
    var tickLower := SearchOrZero(lower);
    var tickUpper := SearchOrZero(upper);
    var tickCurrent := SearchOrZero(current);
    var whole0, whole1 := Whole(amount0), Whole(amount1);
    var liquidity := 0;
    if tickCurrent < tickLower {
      if whole0.None? {
        return Err(NotWhole);
      }
      var num := upper * lower;
      var denom := upper - lower;
      liquidity := whole0.value;
      liquidity := liquidity * num;
      DivIsDivision(liquidity, denom);
      liquidity := liquidity / denom;
      DivIsDivision(liquidity, Q96);
      liquidity := liquidity / Q96;
    } else if tickCurrent >= tickUpper {
      if whole1.None? {
        return Err(NotWhole);
      }
      liquidity := whole1.value;
      liquidity := liquidity * Q96;
      var denom := upper - lower;
      DivIsDivision(liquidity, denom);
      liquidity := liquidity / denom;
    } else {
      if whole0.None? || whole1.None? {
        return Err(NotWhole);
      }
      var l0 := Liquidity0(lower, upper, whole0.value);
      var l1 := Liquidity1(lower, upper, whole1.value);
      if l0 < l1 {
        liquidity := l0;
      } else {
        liquidity := l1;
      }
    }
    return Ok(liquidity);
  }

  predicate Is(k: int, d: real) {
    d == k as real
  }

  ghost predicate IsWhole(d: real) {
    exists k: int :: Is(k, d)
  }

  lemma WholeIff(d: real)
    ensures Whole(d).Some? <==> IsWhole(d)
    ensures Whole(d).Some? ==> Whole(d).value as real == d
  {
    if Whole(d).Some? {
      assert Is(d.Floor, d);
    }
  }

  // When the two errors arise: bounds not in order, or an amount that its branch needs is not whole, token 0
  // below the upper tick and token 1 from the lower tick on.
  lemma BoughtErrors(lower: int, upper: int, current: int, amount0: real, amount1: real)
    ensures var r := Bought(lower, upper, current, amount0, amount1);
      var tl, tu, tc := TickOrZero(lower), TickOrZero(upper), TickOrZero(current);
      && (r == Err(UpperNotAboveLower) <==> upper <= lower)
      && (r == Err(NotWhole) <==>
            lower < upper && (((tc < tl || tc < tu) && !IsWhole(amount0)) || (tc >= tl && !IsWhole(amount1))))
      && (r.Err? ==> r == Err(UpperNotAboveLower) || r == Err(NotWhole))
  {
    hide TickOrZero, IsWhole, Liquidity0, Liquidity1, LiquidityBelow;
    WholeIff(amount0);
    WholeIff(amount1);
  }

  // ---------- laws of the two amount formulas ----------

  lemma Positive3(a: nat, b: nat, c: nat)
    requires 0 < a && 0 < b && 0 < c
    ensures 0 < b * a && 0 < c * b && 0 < c * a && 0 < a * b * c
    ensures b * a * c == a * b * c && c * b * a == a * b * c && c * a * b == a * b * c
  {
  }

  lemma CommonDenominator(x: int, m: nat, c: nat, d: nat)
    requires 0 < m && 0 < c && d == m * c
    ensures d > 0 && Div(x, m) == Div(x * c, d)
  {
    assert x * d == x * c * m;
    CrossDivEqual(x, m, x * c, d);
  }

  // Token 0 of adjacent ranges adds up, short by at most one unit.
  lemma Amount0Adds(l: int, a: nat, b: nat, c: nat)
    requires 0 < a && 0 < b && 0 < c
    ensures Amount0(l, a, b) + Amount0(l, b, c) <= Amount0(l, a, c) <= Amount0(l, a, b) + Amount0(l, b, c) + 1
  {
    var k := l * Q96;
    var d := a * b * c;
    Positive3(a, b, c);
    assert k * (b - a) * c + k * (c - b) * a == k * (c - a) * b;
    CommonDenominator(k * (b - a), b * a, c, d);
    CommonDenominator(k * (c - b), c * b, a, d);
    CommonDenominator(k * (c - a), c * a, b, d);
    FloorSum(k * (b - a) * c, k * (c - b) * a, d);
  }

  lemma Amount1Adds(l: int, a: int, b: int, c: int)
    ensures Amount1(l, a, b) + Amount1(l, b, c) <= Amount1(l, a, c) <= Amount1(l, a, b) + Amount1(l, b, c) + 1
  {
    assert l * (b - a) + l * (c - b) == l * (c - a);
    FloorSum(l * (b - a), l * (c - b), Q96);
  }

  lemma Swap4(k: int, d: int, b: int, a: int)
    ensures k * d * (b * a) == k * b * (d * a)
  {
  }

  lemma CrossProducts(a: nat, a': nat, b: nat)
    requires a <= a' <= b
    ensures (b - a') * a <= (b - a) * a'
  {
    MulMono(b - a', b - a, a);
    MulMono(a, a', b - a);
  }

  // A higher price leaves less token 0 up to the upper bound, and more token 1 from the lower one.
  lemma Amount0NotNegative(l: nat, a: nat, b: nat)
    requires 0 < a <= b
    ensures Amount0(l, a, b) >= 0
  {
    ProductNonzero(b, a);
  }

  lemma FractionFalls(k: nat, a: nat, a': nat, b: nat, n: int, m: nat, n': int, m': nat)
    requires 0 < a <= a' <= b && n == k * (b - a) && m == b * a && n' == k * (b - a') && m' == b * a'
    ensures 0 < m && 0 < m' && Div(n', m') <= Div(n, m)
  {
    CrossProducts(a, a', b);
    MulMono((b - a') * a, (b - a) * a', k * b);
    Swap4(k, b - a', b, a);
    Swap4(k, b - a, b, a');
    CrossDiv(n', m', n, m);
  }

  // The two numbers of which Amount0 is the quotient.
  lemma Amount0Parts(l: int, a: nat, b: nat) returns (n: int, m: nat)
    requires 0 < a && 0 < b
    ensures n == l * Q96 * (b - a) && m == b * a > 0 && Amount0(l, a, b) == Div(n, m)
  {
    ProductNonzero(b, a);
    n, m := l * Q96 * (b - a), b * a;
  }

  lemma Amount1Monotone(l: nat, a: nat, b: nat, b': nat)
    requires a <= b <= b'
    ensures 0 <= Amount1(l, a, b) <= Amount1(l, a, b')
  {
    MulMono(b - a, b' - a, l);
    CrossDiv(l * (b - a), Q96, l * (b' - a), Q96);
  }

  // ---------- main results about positions ----------

  // Splitting a range at an interior tick conserves tokens up to one unit each, wherever the price is.
  lemma SplitConserves(ta: int, tb: int, tc: int, price: nat, l: int)
    requires MIN_TICK <= ta < tb < tc <= MAX_TICK && price > 0
    ensures var left, right := Position(ta, tb, price, l), Position(tb, tc, price, l);
      var whole := Position(ta, tc, price, l);
      && left.amount0 + right.amount0 <= whole.amount0 <= left.amount0 + right.amount0 + 1
      && left.amount1 + right.amount1 <= whole.amount1 <= left.amount1 + right.amount1 + 1
  {
    var left, right, whole := Position(ta, tb, price, l), Position(tb, tc, price, l), Position(ta, tc, price, l);
    var a, b, c := SqrtPriceAt(ta), SqrtPriceAt(tb), SqrtPriceAt(tc);
    EmptyRange(l, b);
    Amount0Adds(l, Clamp(price, a, b), b, c);
    Amount1Adds(l, a, b, Clamp(price, b, c));
  }

  // Over all prices, across branch boundaries included: amounts are never negative, token 0 never
  // rises with the price and token 1 never falls.
  lemma AmountsMonotoneInPrice(tl: int, tu: int, p: nat, q: nat, l: nat)
    requires MIN_TICK <= tl < tu <= MAX_TICK && 0 < p <= q
    ensures 0 <= Position(tl, tu, q, l).amount0 <= Position(tl, tu, p, l).amount0
    ensures 0 <= Position(tl, tu, p, l).amount1 <= Position(tl, tu, q, l).amount1
  {
    var atP, atQ := Position(tl, tu, p, l), Position(tl, tu, q, l);
    var lo, up := SqrtPriceAt(tl), SqrtPriceAt(tu);
    var a, a' := Clamp(p, lo, up), Clamp(q, lo, up);
    assert 0 < lo <= a <= a' <= up;
    hide Amount0, Amount1, Div, Clamp, Position, SqrtPriceAt;
    Amount0NotNegative(l, a', up);
    var n, m := Amount0Parts(l, a, up);
    var n', m' := Amount0Parts(l, a', up);
    FractionFalls(l * Q96, a, a', up, n, m, n', m');
    Amount1Monotone(l, lo, a, a');
  }

  lemma SignOfProduct(l: int, d: int)
    ensures l * d < 0 <==> (l < 0 < d) || (d < 0 < l)
  {
  }

  lemma SignOfFloor(n: int, d: nat)
    requires d > 0
    ensures Div(n, d) < 0 <==> n < 0
  {
    if n < 0 {
      DivAtMost(n, d, -1);
    } else {
      DivAtLeast(n, d, 0);
    }
  }

  lemma Amount0Sign(l: int, a: nat, b: nat)
    requires 0 < a && 0 < b
    ensures Amount0(l, a, b) < 0 <==> l * (b - a) < 0
  {
    ProductNonzero(b, a);
    SignOfFloor(l * Q96 * (b - a), b * a);
    assert l * Q96 * (b - a) == l * (b - a) * Q96;
  }

  lemma Amount1Sign(l: int, a: int, b: int)
    ensures Amount1(l, a, b) < 0 <==> l * (b - a) < 0
  {
    SignOfFloor(l * (b - a), Q96);
  }

  // The bounds are not checked and may be off the table or in the wrong order.  For any positive
  // prices and any liquidity, an amount is negative exactly when liquidity and the bounds disagree in
  // sign or, on the in-range branch, liquidity is negative or the price is below the lower bound's.
  lemma NegativeAmountIff(lower: nat, upper: nat, current: nat, l: int)
    requires 0 < lower && 0 < upper && 0 < current
    ensures var r := Holdings(lower, upper, current, l);
      && r.Ok?
      && (r.value.amount0 < 0 || r.value.amount1 < 0 <==>
          if TickOf(lower) <= TickOf(current) < TickOf(upper) then l < 0 || (l > 0 && current < lower)
          else l * (upper - lower) < 0)
  {
    hide TickOf, Amount0, Amount1;
    Amount0Sign(l, lower, upper);
    Amount1Sign(l, lower, upper);
    Amount0Sign(l, current, upper);
    Amount1Sign(l, lower, current);
    SignOfProduct(l, upper - current);
    SignOfProduct(l, current - lower);
    if upper <= current {
      TickOfMonotone(upper, current);
    }
  }

  // Bounds in the wrong order, with the price under both, are such an input.
  lemma SwappedBoundsGoNegative()
    ensures var r := Holdings(SqrtPriceAt(10), SqrtPriceAt(0), SqrtPriceAt(-5), Q96);
      r.Ok? && (r.value.amount0 < 0 || r.value.amount1 < 0)
  {
    hide SqrtPriceAt, Holdings, TickOf;
    TablePositive(10);
    TablePositive(0);
    TablePositive(-5);
    TableStrictlyIncreasing(0, 10);
    RoundTrip(10);
    RoundTrip(0);
    RoundTrip(-5);
    NegativeAmountIff(SqrtPriceAt(10), SqrtPriceAt(0), SqrtPriceAt(-5), Q96);
  }
}

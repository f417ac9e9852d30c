/**
 Token amounts of a liquidity position and liquidity of token amounts, after section 6.4.1 of
 the Uniswap v3 Core whitepaper.  Both functions choose a branch by comparing ticks and then do
 floored arithmetic on the prices.
 */
module Amounts {
  import opened FloorMath
  import opened TickSearch
  import opened TickTable
  import opened Wrappers

  datatype TokenAmounts = TokenAmounts(amount0: int, amount1: int)

  // UpperNotAboveLower is the only error the source returns; the other two are its run-time panics.
  datatype PositionError = UpperNotAboveLower | NotWhole | DivisionByZero

  // The callers drop the search's error, which leaves tick 0 for a price that is not positive.
  function TickOrZero(price: int): int {
    if price > 0 then TickOf(price) else 0
  }

  method SearchOrZero(price: int) returns (t: int)
    ensures t == TickOrZero(price)
  {
    var r := SqrtPriceX96ToTick(price);
    return if r.Ok? then r.value else 0;
  }

  // Token 0 held by liquidity l between square-root prices a and b.
  function Amount0(l: int, a: int, b: int): int
    requires a != 0 && b != 0
  {
    Div(l * Q96 * (b - a), b * a)
  }

  // Token 1 held by liquidity l between square-root prices a and b.
  function Amount1(l: int, a: int, b: int): int {
    Div(l * (b - a), Q96)
  }

  function Holdings(lower: int, upper: int, current: int, liquidity: int): Result<TokenAmounts, PositionError> {
    if TickOrZero(current) < TickOrZero(lower) then
      if lower == 0 || upper == 0 then Err(DivisionByZero)
      else Ok(TokenAmounts(Amount0(liquidity, lower, upper), 0))
    else if TickOrZero(current) >= TickOrZero(upper) then
      Ok(TokenAmounts(0, Amount1(liquidity, lower, upper)))
    else if current == 0 || upper == 0 then Err(DivisionByZero)
    else Ok(TokenAmounts(Amount0(liquidity, current, upper), Amount1(liquidity, lower, current)))
  }

  lemma ProductNonzero(a: int, b: int)
    ensures a * b == 0 <==> a == 0 || b == 0
  {
  }

  method AmountsForLiquidity(lower: int, upper: int, current: int, liquidity: int)
    returns (r: Result<TokenAmounts, PositionError>)
    ensures r == Holdings(lower, upper, current, liquidity)
  {
    var tickLower := SearchOrZero(lower);
    var tickUpper := SearchOrZero(upper);
    var tickCurrent := SearchOrZero(current);
    var amount0, amount1 := 0, 0;
    if tickCurrent < tickLower {
      var delta := upper - lower;
      var product := upper * lower;
      ProductNonzero(upper, lower);
      if product == 0 {
        return Err(DivisionByZero);
      }
      var num := liquidity * Q96;
      num := num * delta;
      DivIsDivision(num, product);
      num := num / product;
      amount0 := num;
    } else if tickCurrent >= tickUpper {
      var delta := upper - lower;
      var num := liquidity * delta;
      DivIsDivision(num, Q96);
      num := num / Q96;
      amount1 := num;
    } else {
      var delta0 := upper - current;
      var prod0 := upper * current;
      ProductNonzero(upper, current);
      if prod0 == 0 {
        return Err(DivisionByZero);
      }
      var num0 := liquidity * Q96;
      num0 := num0 * delta0;
      DivIsDivision(num0, prod0);
      num0 := num0 / prod0;
      amount0 := num0;
      var delta1 := current - lower;
      var num1 := liquidity * delta1;
      DivIsDivision(num1, Q96);
      num1 := num1 / Q96;
      amount1 := num1;
    }
    return Ok(TokenAmounts(amount0, amount1));
  }

  // ---------- what the branches mean ----------

  function Clamp(p: int, a: int, b: int): int {
    if p < a then a else if p > b then b else p
  }

  lemma EmptyRange(l: int, a: int)
    requires a > 0
    ensures Amount0(l, a, a) == 0 && Amount1(l, a, a) == 0
  {
    ProductNonzero(a, a);
    assert 0 < a * a;
    DivIs(l * Q96 * (a - a), a * a, 0);
    DivIs(l * (a - a), Q96, 0);
  }

  lemma BranchesAreClamped(tl: int, tu: int, price: nat, l: int)
    requires MIN_TICK <= tl < tu <= MAX_TICK && price > 0
    ensures 0 < SqrtPriceAt(tl) < SqrtPriceAt(tu)
    ensures var lo, up := SqrtPriceAt(tl), SqrtPriceAt(tu);
      var c := Clamp(price, lo, up);
      Holdings(lo, up, price, l) == Ok(TokenAmounts(Amount0(l, c, up), Amount1(l, lo, c)))
  {
    var lo, up := SqrtPriceAt(tl), SqrtPriceAt(tu);
    TablePositive(tl);
    TableStrictlyIncreasing(tl, tu);
    RoundTrip(tl);
    RoundTrip(tu);
    TickOrderIsPriceOrder(price, tl);
    TickOrderIsPriceOrder(price, tu);
    EmptyRange(l, lo);
    EmptyRange(l, up);
  }

  // With bounds on the table the three branches are one formula: token 0 above the clamped price,
  // token 1 below it.
  function Position(tl: int, tu: int, price: nat, l: int): (r: TokenAmounts)
    requires MIN_TICK <= tl < tu <= MAX_TICK && price > 0
    ensures 0 < SqrtPriceAt(tl) < SqrtPriceAt(tu)
    ensures Holdings(SqrtPriceAt(tl), SqrtPriceAt(tu), price, l) == Ok(r)
    ensures var c := Clamp(price, SqrtPriceAt(tl), SqrtPriceAt(tu));
      r == TokenAmounts(Amount0(l, c, SqrtPriceAt(tu)), Amount1(l, SqrtPriceAt(tl), c))
  {
    BranchesAreClamped(tl, tu, price, l);
    Holdings(SqrtPriceAt(tl), SqrtPriceAt(tu), price, l).value
  }

  // A price that is not positive counts as tick 0, and the only failure is the division by a zero price that
  // the branch divides by.
  lemma HoldingsFailIff(lower: int, upper: int, current: int, l: int)
    ensures var r := Holdings(lower, upper, current, l);
      var tl, tu, tc := TickOrZero(lower), TickOrZero(upper), TickOrZero(current);
      && (r.Err? ==> r == Err(DivisionByZero))
      && (r.Err? <==> (tc < tl && (lower == 0 || upper == 0)) || (tl <= tc < tu && (current == 0 || upper == 0)))
    ensures current <= 0 ==> TickOrZero(current) == 0
    ensures current > 0 ==> TickOrZero(current) == TickOf(current)
  {
    hide TickOf, Amount0, Amount1;
  }
}

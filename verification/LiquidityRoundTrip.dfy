/** Going from amounts to liquidity and back, and from liquidity to amounts and back. */
module LiquidityRoundTrip {
  import opened Amounts
  import opened FloorMath
  import opened Liquidity
  import opened TickSearch
  import opened TickTable
  import opened Wrappers

  // The two ways of computing liquidity from token 0 agree.
  lemma BelowIsLiquidity0(lower: nat, upper: nat, amount0: int)
    requires lower < upper
    ensures LiquidityBelow(lower, upper, amount0) == Liquidity0(lower, upper, amount0)
  {
    assert amount0 * (upper * lower) == upper * lower * amount0;
    DivDiv(amount0 * (upper * lower), upper - lower, Q96, (upper - lower) * Q96);
  }

  // With bounds on the table, the branch is chosen by price.
  lemma BoughtByPrice(tl: int, tu: int, price: nat, a0: int, a1: int)
    requires MIN_TICK <= tl < tu <= MAX_TICK && price > 0
    ensures 0 < SqrtPriceAt(tl) < SqrtPriceAt(tu)
    ensures var lo, up := SqrtPriceAt(tl), SqrtPriceAt(tu);
      var l0, l1 := Liquidity0(lo, up, a0), Liquidity1(lo, up, a1);
      Bought(lo, up, price, a0 as real, a1 as real) ==
        Ok(if price < lo || (price < up && l0 < l1) then l0 else l1)
  {
    var lo, up := SqrtPriceAt(tl), SqrtPriceAt(tu);
    TablePositive(tl);
    TableStrictlyIncreasing(tl, tu);
    RoundTrip(tl);
    RoundTrip(tu);
    TickOrderIsPriceOrder(price, tl);
    TickOrderIsPriceOrder(price, tu);
    BelowIsLiquidity0(lo, up, a0);
  }

  // ---------- amounts to liquidity to amounts ----------

  lemma Affordable(l: nat, bought: nat, w: nat, m: nat, a: nat)
    requires l <= bought && bought * w <= m * a && m > 0
    ensures Div(l * w, m) <= a
  {
    MulMono(l, bought, w);
    assert (a + 1) * m == m * a + m;
    DivAtMost(l * w, m, a);
  }

  lemma Regroup(l: int, q: int, w: int)
    ensures l * q * w == l * (w * q)
  {
  }

  lemma Liquidity0Affordable(lo: nat, up: nat, l: nat, a0: nat)
    requires 0 < lo < up && l <= Liquidity0(lo, up, a0)
    ensures Amount0(l, lo, up) <= a0
  {
    var m, w := up * lo, (up - lo) * Q96;
    ProductNonzero(up, lo);
    DivBrackets(m * a0, w);
    Affordable(l, Liquidity0(lo, up, a0), w, m, a0);
    Regroup(l, Q96, up - lo);
  }

  lemma Liquidity1Affordable(lo: nat, up: nat, l: nat, a1: nat)
    requires lo < up && l <= Liquidity1(lo, up, a1)
    ensures Amount1(l, lo, up) <= a1
  {
    DivBrackets(a1 * Q96, up - lo);
    Affordable(l, Liquidity1(lo, up, a1), up - lo, Q96, a1);
  }

  lemma AtMostQuotient(n: int, d: nat, l: int)
    requires d > 0
    ensures l <= Div(n, d) <==> l * d <= n
  {
    DivBrackets(n, d);
    if l <= Div(n, d) {
      MulMono(l, Div(n, d), d);
    } else {
      MulMono(Div(n, d) + 1, l, d);
    }
  }

  // The liquidity bought is the greatest whose exact cost over the full range fits the amounts: in
  // token 0 below the range, in token 1 above it, in both inside.
  lemma BoughtIsGreatest(tl: int, tu: int, price: nat, a0: int, a1: int, l: int)
    requires MIN_TICK <= tl < tu <= MAX_TICK && price > 0
    ensures 0 < SqrtPriceAt(tl) < SqrtPriceAt(tu)
    ensures var lo, up := SqrtPriceAt(tl), SqrtPriceAt(tu);
      var bought := Bought(lo, up, price, a0 as real, a1 as real);
      bought.Ok? &&
      (l <= bought.value <==>
        && (price < up ==> l * ((up - lo) * Q96) <= up * lo * a0)
        && (price >= lo ==> l * (up - lo) <= a1 * Q96))
  {
    BoughtByPrice(tl, tu, price, a0, a1);
    var lo, up := SqrtPriceAt(tl), SqrtPriceAt(tu);
    AtMostQuotient(up * lo * a0, (up - lo) * Q96, l);
    AtMostQuotient(a1 * Q96, up - lo, l);
  }

  lemma LiquidityNonNegative(lo: nat, up: nat, a0: nat, a1: nat)
    requires lo < up
    ensures Liquidity0(lo, up, a0) >= 0 && Liquidity1(lo, up, a1) >= 0
  {
  }

  // A position opened with the liquidity its amounts buy never holds more than those amounts.
  lemma NeverOverspends(tl: int, tu: int, price: nat, a0: nat, a1: nat)
    requires MIN_TICK <= tl < tu <= MAX_TICK && price > 0
    ensures 0 < SqrtPriceAt(tl) < SqrtPriceAt(tu)
    ensures var bought := Bought(SqrtPriceAt(tl), SqrtPriceAt(tu), price, a0 as real, a1 as real);
      && bought.Ok? && bought.value >= 0
      && Position(tl, tu, price, bought.value).amount0 <= a0
      && Position(tl, tu, price, bought.value).amount1 <= a1
  {
    BoughtByPrice(tl, tu, price, a0, a1);
    var lo, up := SqrtPriceAt(tl), SqrtPriceAt(tu);
    var c := Clamp(price, lo, up);
    var l := Bought(lo, up, price, a0 as real, a1 as real).value;
    LiquidityNonNegative(lo, up, a0, a1);
    var held := Position(tl, tu, price, l);
    EmptyRange(l, lo);
    EmptyRange(l, up);
    if price < up {
      Liquidity0Affordable(lo, up, l, a0);
      assert lo <= c <= up;
      hide Amount0, Div, Liquidity0, Liquidity1, Amount1, Bought, TickOrZero;
      var n, m := Amount0Parts(l, lo, up);
      var n', m' := Amount0Parts(l, c, up);
      FractionFalls(l * Q96, lo, c, up, n, m, n', m');
    }
    if price >= lo {
      Liquidity1Affordable(lo, up, l, a1);
      Amount1Monotone(l, lo, c, up);
    }
  }

  // ---------- liquidity to amounts to liquidity ----------

  lemma Share0Arithmetic(lo: nat, c: nat, up: nat, l: nat, a0: nat, l0: int)
    requires lo <= c <= up
    requires a0 * (up * c) <= l * Q96 * (up - c)
    requires l0 * ((up - lo) * Q96) <= up * lo * a0
    ensures l0 * (up - lo) <= l * (up - c)
  {
    MulMono(lo, c, up * a0);
    assert up * lo * a0 == lo * (up * a0);
    assert a0 * (up * c) == c * (up * a0);
    Regroup(l0, Q96, up - lo);
    Regroup(l, Q96, up - c);
    CancelFactor(l0 * (up - lo), l * (up - c), Q96);
  }

  // Buying with what liquidity l holds at price c, each token gives back at most its share of l.
  lemma Share0(lo: nat, c: nat, up: nat, l: nat)
    requires 0 < lo <= c <= up && lo < up
    ensures Liquidity0(lo, up, Amount0(l, c, up)) * (up - lo) <= l * (up - c)
  {
    Amount0NotNegative(l, c, up);
    var a0: nat := Amount0(l, c, up);
    ProductNonzero(up, c);
    DivBrackets(l * Q96 * (up - c), up * c);
    DivBrackets(up * lo * a0, (up - lo) * Q96);
    Share0Arithmetic(lo, c, up, l, a0, Liquidity0(lo, up, a0));
  }

  lemma Share1(lo: nat, c: nat, up: nat, l: nat)
    requires lo <= c <= up && lo < up
    ensures Liquidity1(lo, up, Amount1(l, lo, c)) * (up - lo) <= l * (c - lo)
  {
    DivBrackets(l * (c - lo), Q96);
    DivBrackets(Amount1(l, lo, c) * Q96, up - lo);
  }

  // The liquidity that the holdings of liquidity l buy back.
  function BoughtBack(tl: int, tu: int, price: nat, l: nat): Result<int, PositionError>
    requires MIN_TICK <= tl < tu <= MAX_TICK && price > 0
  {
    var held := Position(tl, tu, price, l);
    Bought(SqrtPriceAt(tl), SqrtPriceAt(tu), price, held.amount0 as real, held.amount1 as real)
  }

  lemma SharesAddUp(lo: nat, c: nat, up: nat, l: nat, l0: int, l1: int)
    requires lo <= c <= up && lo < up
    requires l0 * (up - lo) <= l * (up - c) && l1 * (up - lo) <= l * (c - lo)
    ensures l0 + l1 <= l
  {
    assert l * (up - c) + l * (c - lo) == l * (up - lo);
    assert (l0 + l1) * (up - lo) == l0 * (up - lo) + l1 * (up - lo);
    CancelFactor(l0 + l1, l, up - lo);
  }

  // In range the two shares add up to l, and the smaller one is taken: at least half of it is lost.
  lemma InRangeLosesHalf(tl: int, tu: int, price: nat, l: nat)
    requires MIN_TICK <= tl < tu <= MAX_TICK
    requires SqrtPriceAt(tl) <= price < SqrtPriceAt(tu) && price > 0
    ensures var back := BoughtBack(tl, tu, price, l);
      back.Ok? && 0 <= 2 * back.value <= l
  {
    var lo, up := SqrtPriceAt(tl), SqrtPriceAt(tu);
    var held := Position(tl, tu, price, l);
    BoughtByPrice(tl, tu, price, held.amount0, held.amount1);
    AmountsMonotoneInPrice(tl, tu, price, price, l);
    LiquidityNonNegative(lo, up, held.amount0, held.amount1);
    Share0(lo, price, up, l);
    Share1(lo, price, up, l);
    SharesAddUp(lo, price, up, l, Liquidity0(lo, up, held.amount0), Liquidity1(lo, up, held.amount1));
  }

  // The exact share of token 0 that liquidity l holds at price c, measured against the whole range, when
  // the amount is short by a part of one unit: nothing for lost = 0, a whole unit for lost = up * c.
  function Part0(lo: nat, c: nat, up: nat, l: int, lost: int): int
    requires lo < up && 0 < c
  {
    ProductNonzero((up - lo) * Q96, c);
    Div(lo * (l * Q96 * (up - c) - lost), (up - lo) * Q96 * c)
  }

  // The same for token 1, where a whole unit is lost = 2^96.
  function Part1(lo: nat, c: nat, up: nat, l: int, lost: int): int
    requires lo < up
  {
    Div(l * (c - lo) - lost, up - lo)
  }

  // The smaller of the two shares, each exact or short by a whole unit of its token.
  function SmallerShare(lo: nat, c: nat, up: nat, l: int, exact: bool): int
    requires 0 < lo <= c < up
  {
    var part0 := Part0(lo, c, up, l, if exact then 0 else up * c);
    var part1 := Part1(lo, c, up, l, if exact then 0 else Q96);
    if part0 < part1 then part0 else part1
  }

  lemma ProductPositive(a: nat, b: nat)
    requires 0 < a && 0 < b
    ensures 0 < a * b
  {
  }

  lemma ScaledUnit(lo: nat, c: nat, up: nat, a: int, n: int)
    requires a * (up * c) <= n < (a + 1) * (up * c)
    ensures lo * (n - up * c) <= up * lo * a * c <= lo * n
  {
    assert up * lo * a * c == lo * (a * (up * c));
    assert (a + 1) * (up * c) == a * (up * c) + up * c;
    MulMono(n - up * c, a * (up * c), lo);
    MulMono(a * (up * c), n, lo);
  }

  lemma ScaledBelow(x: int, y: int, c: nat, w: nat)
    requires 0 < c && 0 < w && x <= y * c
    ensures 0 < w * c && Div(x, w * c) <= Div(y, w)
  {
    MulMono(x, y * c, w);
    assert y * c * w == y * (w * c);
    CrossDiv(x, w * c, y, w);
  }

  lemma ScaledAbove(y: int, x: int, c: nat, w: nat)
    requires 0 < c && 0 < w && y * c <= x
    ensures 0 < w * c && Div(y, w) <= Div(x, w * c)
  {
    MulMono(y * c, x, w);
    assert y * c * w == y * (w * c);
    CrossDiv(y, w, x, w * c);
  }

  lemma Part0Parts(lo: nat, c: nat, up: nat, l: int, lost: int) returns (x: int, d: nat)
    requires lo < up && 0 < c
    ensures x == lo * (l * Q96 * (up - c) - lost) && d == (up - lo) * Q96 * c > 0
    ensures Part0(lo, c, up, l, lost) == Div(x, d)
  {
    ProductPositive((up - lo) * Q96, c);
    x, d := lo * (l * Q96 * (up - c) - lost), (up - lo) * Q96 * c;
  }

  // On the numbers the shares are quotients of: p / w is bought with the a units that n / (up * c) gives.
  lemma Part0Brackets(lo: nat, c: nat, up: nat, n: int, m: nat, p: int, w: nat, d: nat, low: int, high: int)
    requires m == up * c > 0 && p == up * lo * Div(n, m) && 0 < w && 0 < c && d == w * c
    requires low == lo * (n - up * c) && high == lo * (n - 0)
    ensures d > 0 && Div(low, d) <= Div(p, w) <= Div(high, d)
  {
    DivBrackets(n, m);
    ScaledUnit(lo, c, up, Div(n, m), n);
    ScaledBelow(low, p, c, w);
    ScaledAbove(p, high, c, w);
  }

  lemma Part1Brackets(lo: nat, c: nat, up: nat, l: nat)
    requires lo <= c < up
    ensures Part1(lo, c, up, l, Q96) <= Liquidity1(lo, up, Amount1(l, lo, c)) <= Part1(lo, c, up, l, 0)
  {
    var n := l * (c - lo);
    var a1 := Amount1(l, lo, c);
    DivBrackets(n, Q96);
    MulMono(n - Q96, a1 * Q96, up - lo);
    MulMono(a1 * Q96, n, up - lo);
    CrossDiv(n - Q96, up - lo, a1 * Q96, up - lo);
    CrossDiv(a1 * Q96, up - lo, n, up - lo);
  }

  lemma Liquidity0Parts(lo: nat, up: nat, amount0: int) returns (p: int, w: nat)
    requires lo < up
    ensures p == up * lo * amount0 && w == (up - lo) * Q96 && Liquidity0(lo, up, amount0) == Div(p, w)
  {
    p, w := up * lo * amount0, (up - lo) * Q96;
  }

  lemma Token0Bracket(lo: nat, c: nat, up: nat, l: nat, amount0: int) returns (back: int)
    requires 0 < lo <= c < up && amount0 == Amount0(l, c, up)
    ensures back == Liquidity0(lo, up, amount0)
    ensures Part0(lo, c, up, l, up * c) <= back <= Part0(lo, c, up, l, 0)
  {
    hide Amount0, Liquidity0, Part0, Div;
    var n, m := Amount0Parts(l, c, up);
    var p, w := Liquidity0Parts(lo, up, amount0);
    var low, d := Part0Parts(lo, c, up, l, up * c);
    var high, d' := Part0Parts(lo, c, up, l, 0);
    back := Div(p, w);
    Part0Brackets(lo, c, up, n, m, p, w, d, low, high);
  }

  // In range exactly the smaller of the two shares comes back, short by less than one unit of its token.
  lemma InRangeBracket(tl: int, tu: int, price: nat, l: nat)
    requires MIN_TICK <= tl < tu <= MAX_TICK
    requires SqrtPriceAt(tl) <= price < SqrtPriceAt(tu) && price > 0
    ensures 0 < SqrtPriceAt(tl) < SqrtPriceAt(tu)
    ensures var lo, up := SqrtPriceAt(tl), SqrtPriceAt(tu);
      var back := BoughtBack(tl, tu, price, l);
      && back.Ok?
      && SmallerShare(lo, price, up, l, false) <= back.value <= SmallerShare(lo, price, up, l, true)
  {
    hide Amount0, Amount1, Liquidity0, Liquidity1, Bought, TickOrZero, Part0, Part1, Div;
    var lo, up := SqrtPriceAt(tl), SqrtPriceAt(tu);
    var held := Position(tl, tu, price, l);
    BoughtByPrice(tl, tu, price, held.amount0, held.amount1);
    Part1Brackets(lo, price, up, l);
    var back := Token0Bracket(lo, price, up, l, held.amount0);
  }

  lemma Remainder(n: int, m: nat)
    requires 0 < m
    ensures n % m == 0 <==> n == Div(n, m) * m
  {
    DivIsDivision(n, m);
    assert n == n / m * m + n % m;
  }

  lemma QuotientOf(p: int, w: nat, l: int)
    requires 0 < w && p <= l * w
    ensures Div(p, w) == l <==> p == l * w
  {
    DivBrackets(p, w);
    if p == l * w {
      DivIs(p, w, l);
    }
  }

  // Off the range a round trip through w / m and back is exact exactly when the first division is.
  lemma ExactIff(n: int, l: nat, w: nat, m: nat)
    requires 0 < w && 0 < m && n == l * w
    ensures Div(m * Div(n, m), w) == l <==> n % m == 0
  {
    var a := Div(n, m);
    DivBrackets(n, m);
    QuotientOf(m * a, w, l);
    Remainder(n, m);
  }

  lemma ExactBelow(lo: nat, up: nat, l: nat, amount0: int) returns (exact: bool)
    requires 0 < lo < up && amount0 == Amount0(l, lo, up)
    ensures exact <==> Liquidity0(lo, up, amount0) == l
    ensures up * lo > 0 && (exact <==> l * (up - lo) * Q96 % (up * lo) == 0)
  {
    hide Amount0, Liquidity0, Div;
    var n, m := Amount0Parts(l, lo, up);
    var p, w := Liquidity0Parts(lo, up, amount0);
    Regroup(l, Q96, up - lo);
    var n' := l * (up - lo) * Q96;
    assert n' == n;
    exact := Div(p, w) == l;
    ExactIff(n, l, w, m);
  }

  lemma ExactAbove(lo: nat, up: nat, l: nat, amount1: int) returns (exact: bool)
    requires lo < up && amount1 == Amount1(l, lo, up)
    ensures exact <==> Liquidity1(lo, up, amount1) == l
    ensures exact <==> l * (up - lo) % Q96 == 0
  {
    exact := Liquidity1(lo, up, amount1) == l;
    hide Div;
    ExactIff(l * (up - lo), l, up - lo, Q96);
  }

  // The source's comment calls the two functions inverse.  They are exactly when the division by which
  // the amount was computed left no remainder, and in range for no liquidity but zero.
  lemma InverseIff(tl: int, tu: int, price: nat, l: nat)
    requires MIN_TICK <= tl < tu <= MAX_TICK && price > 0
    ensures 0 < SqrtPriceAt(tl) < SqrtPriceAt(tu)
    ensures var lo, up := SqrtPriceAt(tl), SqrtPriceAt(tu);
      BoughtBack(tl, tu, price, l) == Ok(l) <==>
        if price < lo then l * (up - lo) * Q96 % (up * lo) == 0
        else if price >= up then l * (up - lo) % Q96 == 0
        else l == 0
  {
    hide Amount0, Amount1, Liquidity0, Liquidity1, Bought, TickOrZero, Div;
    var lo, up := SqrtPriceAt(tl), SqrtPriceAt(tu);
    var held := Position(tl, tu, price, l);
    BoughtByPrice(tl, tu, price, held.amount0, held.amount1);
    if price < lo {
      var exact := ExactBelow(lo, up, l, held.amount0);
    } else if price >= up {
      var exact := ExactAbove(lo, up, l, held.amount1);
    } else {
      InRangeLosesHalf(tl, tu, price, l);
    }
  }

  lemma LossArithmetic(l: int, back: int, a: int, m: int, w: int)
    requires l * w < (a + 1) * m && m * a < (back + 1) * w
    ensures (l - back - 1) * w <= m
  {
    assert (l - back - 1) * w == l * w - (back + 1) * w;
    assert (a + 1) * m == m * a + m;
  }

  // Multiplying by w, dividing by m and back gains nothing and loses at most m / w and one unit.
  lemma DivisionLoss(l: nat, w: nat, m: nat, n: int)
    requires 0 < w && 0 < m && n == l * w
    ensures Div(m * Div(n, m), w) <= l <= Div(m * Div(n, m), w) + Div(m, w) + 1
  {
    var a := Div(n, m);
    var back := Div(m * a, w);
    DivBrackets(n, m);
    DivBrackets(m * a, w);
    LossArithmetic(l, back, a, m, w);
    DivAtLeast(m, w, l - back - 1);
    CancelFactor(back, l, w);
  }

  // Liquidity is never inflated by a round trip, and outside the range the loss is bounded.
  lemma NeverInflates(tl: int, tu: int, price: nat, l: nat)
    requires MIN_TICK <= tl < tu <= MAX_TICK && price > 0
    ensures 0 < SqrtPriceAt(tl) < SqrtPriceAt(tu)
    ensures var lo, up := SqrtPriceAt(tl), SqrtPriceAt(tu);
      var back := BoughtBack(tl, tu, price, l);
      && back.Ok? && back.value <= l
      && (price < lo ==> l - back.value <= Div(up * lo, (up - lo) * Q96) + 1)
      && (price >= up ==> l - back.value <= Div(Q96, up - lo) + 1)
  {
    hide Amount0, Liquidity0, Bought, TickOrZero, Div;
    var held := Position(tl, tu, price, l);
    var lo, up := SqrtPriceAt(tl), SqrtPriceAt(tu);
    BoughtByPrice(tl, tu, price, held.amount0, held.amount1);
    if price < lo {
      var n, m := Amount0Parts(l, lo, up);
      var p, w := Liquidity0Parts(lo, up, held.amount0);
      hide Amount1, Liquidity1;
      Regroup(l, Q96, up - lo);
      DivisionLoss(l, w, m, n);
    } else if price >= up {
      DivisionLoss(l, up - lo, Q96, l * (up - lo));
    } else {
      InRangeLosesHalf(tl, tu, price, l);
    }
  }

  lemma UnitPrice()
    ensures SqrtPriceAt(0) == Q96
  {
  }

  lemma SmallRemainder(n: int)
    requires 0 < n < Q96
    ensures n % Q96 == n
  {
  }

  // One unit of liquidity between the ticks -1 and 0, at the upper price, is such a remainder: it is lost.
  lemma OneUnitIsLost()
    ensures BoughtBack(-1, 0, Q96, 1) != Ok(1)
  {
    hide SqrtPriceAt, BoughtBack;
    TablePositive(-1);
    TableStrictlyIncreasing(-1, 0);
    UnitPrice();
    InverseIff(-1, 0, Q96, 1);
    SmallRemainder(1 * (SqrtPriceAt(0) - SqrtPriceAt(-1)));
  }
}

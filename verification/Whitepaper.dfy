/**
 The amount formulas of section 6.4.1 of the Uniswap v3 Core whitepaper over exact reals, and the
 code's whole-number amounts as their floors.
 */
module Whitepaper {
  import opened Amounts
  import opened FloorMath
  import opened RealMath
  import opened TickTable

  // Square-root prices are in units of 1 / 2^96: l (1/a - 1/b) of token 0, l (b - a) of token 1.
  function Exact0(l: int, a: nat, b: nat): real
    requires 0 < a && 0 < b
  {
    l as real * (Q96 as real / a as real - Q96 as real / b as real)
  }

  function Exact1(l: int, a: nat, b: nat): real {
    l as real * (b as real / Q96 as real - a as real / Q96 as real)
  }

  predicate IsFloorOf(n: int, x: real) {
    n as real <= x < n as real + 1.0
  }

  lemma {:induction false} CastProduct(a: int, b: nat)
    ensures (a * b) as real == a as real * b as real
  {
    if b > 0 {
      CastProduct(a, b - 1);
      assert a * b == a * (b - 1) + a;
      assert a as real * b as real == a as real * (b - 1) as real + a as real;
    }
  }

  lemma QuotientBetween(q: real, n: real, d: real)
    requires d > 0.0 && q * d <= n < (q + 1.0) * d
    ensures q <= n / d < q + 1.0
  {
    var x := n / d;
    assert x * d == n;
    MulOrder(q, x, d);
    MulOrder(x, q + 1.0, d);
  }

  lemma CastBrackets(n: int, d: nat, q: int)
    requires q * d <= n < (q + 1) * d
    ensures q as real * d as real <= n as real < (q as real + 1.0) * d as real
  {
    CastProduct(q, d);
    CastProduct(q + 1, d);
    assert (q + 1) as real == q as real + 1.0;
  }

  lemma {:induction false} QuotientFloor(n: int, d: nat)
    requires d > 0
    ensures IsFloorOf(Div(n, d), n as real / d as real)
  {
    DivBrackets(n, d);
    CastBrackets(n, d, Div(n, d));
    QuotientBetween(Div(n, d) as real, n as real, d as real);
  }

  lemma DifferenceOfReciprocals(l: real, q: real, a: real, b: real)
    requires a > 0.0 && b > 0.0
    ensures b * a > 0.0 && l * (q / a - q / b) == l * q * (b - a) / (b * a)
  {
    MulOrder(0.0, a, b);
    var u, v := q / a, q / b;
    assert u * a == q && v * b == q;
    assert l * (u - v) * (b * a) == l * (u * a * b - v * b * a);
    assert l * (u - v) * (b * a) == l * q * (b - a);
  }

  lemma DifferenceOfShares(l: real, q: real, a: real, b: real)
    requires q > 0.0
    ensures l * (b / q - a / q) == l * (b - a) / q
  {
    var u, v := b / q, a / q;
    assert u * q == b && v * q == a;
    assert l * (u - v) * q == l * (b - a);
  }

  lemma CastDifference(l: int, a: nat, b: nat)
    ensures (l * (b - a)) as real == l as real * (b as real - a as real)
  {
    CastProduct(l, b);
    CastProduct(l, a);
    assert l * (b - a) == l * b - l * a;
    assert l as real * (b as real - a as real) == l as real * b as real - l as real * a as real;
  }

  lemma Exact0Quotient(l: int, a: nat, b: nat, x: real, d: real)
    requires 0 < a && 0 < b
    requires x == l as real * Q96 as real * (b as real - a as real) && d == b as real * a as real
    ensures d > 0.0 && Exact0(l, a, b) == x / d
  {
    DifferenceOfReciprocals(l as real, Q96 as real, a as real, b as real);
  }

  lemma Amount0IsFloor(l: int, a: nat, b: nat)
    requires 0 < a && 0 < b
    ensures IsFloorOf(Amount0(l, a, b), Exact0(l, a, b))
  {
    ProductNonzero(b, a);
    QuotientFloor(l * Q96 * (b - a), b * a);
    CastDifference(l * Q96, a, b);
    CastProduct(l, Q96);
    CastProduct(b, a);
    Exact0Quotient(l, a, b, (l * Q96 * (b - a)) as real, (b * a) as real);
  }

  lemma Amount1IsFloor(l: int, a: nat, b: nat)
    ensures IsFloorOf(Amount1(l, a, b), Exact1(l, a, b))
  {
    QuotientFloor(l * (b - a), Q96);
    CastDifference(l, a, b);
    DifferenceOfShares(l as real, Q96 as real, a as real, b as real);
  }
}

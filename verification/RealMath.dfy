/** Order and squares of reals: the steps of nonlinear arithmetic the decimal proofs share. */
module RealMath {

  function Abs(x: real): (r: real)
    ensures r >= 0.0
  {
    if x < 0.0 then -x else x
  }

  lemma SquareNonNegative(x: real)
    ensures x * x >= 0.0
    ensures Abs(x) * Abs(x) == x * x
  {
  }

  lemma MulOrder(a: real, b: real, c: real)
    requires c > 0.0
    ensures a <= b <==> a * c <= b * c
    ensures a < b <==> a * c < b * c
  {
    if a < b {
      assert (b - a) * c > 0.0;
    } else if b < a {
      assert (a - b) * c > 0.0;
    }
  }

  lemma SquareOrder(x: real, y: real)
    requires x >= 0.0 && y > 0.0
    ensures x < y <==> x * x < y * y
  {
    assert y * y - x * x == (y - x) * (y + x);
    MulOrder(0.0, y - x, y + x);
  }

  lemma ProductPositive(a: real, b: real, y: real)
    requires a > 0.0 && b > 0.0 && a * b == y
    ensures y > 0.0
  {
  }

  lemma QuotientPositive(a: real, b: real)
    requires a > 0.0 && b > 0.0
    ensures a / b > 0.0 && a / b * b == a
  {
  }

  lemma QuotientIs(x: real, y: real, r: real)
    requires y > 0.0 && r * y == x
    ensures x / y == r
  {
  }
}

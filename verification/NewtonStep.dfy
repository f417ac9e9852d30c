/**
 Newton's iteration for a square root in exact arithmetic: what one step does to the error, and how far
 a number of steps gets.  The rounded iteration of DecimalSqrt stays beside it.
 */
module NewtonStep {
  import opened FloorMath
  import opened RealMath

  function Next(d: real, guess: real): (next: real)
    requires d > 0.0 && guess > 0.0
    ensures next > 0.0
  {
    (guess + d / guess) / 2.0
  }

  // ---------- one step ----------

  // The error of the next guess, squared against d, is exactly the square of the step taken.
  lemma StepIsError(d: real, g: real)
    requires d > 0.0 && g > 0.0
    ensures var next := Next(d, g);
      && next * next - d == (next - g) * (next - g)
      && 2.0 * g * (next - g) == d - g * g
  {
    var q := d / g;
    assert q * g == d;
    var next := Next(d, g);
    assert next - g == (q - g) / 2.0;
    assert next * next == (g * g + 2.0 * (q * g) + q * q) / 4.0;
    assert (next - g) * (next - g) == (g * g - 2.0 * (q * g) + q * q) / 4.0;
    assert 2.0 * g * (next - g) == q * g - g * g;
  }

  lemma StepSize(d: real, g: real)
    requires d > 0.0 && g > 0.0
    ensures var next := Next(d, g);
      next * next - d == Abs(next - g) * Abs(next - g)
  {
    StepIsError(d, g);
    hide Next;
    SquareNonNegative(Next(d, g) - g);
  }

  lemma HalfOf(e: real, g: real, step: real)
    requires 0.0 <= e < g && 2.0 * g * step == e * e
    ensures 0.0 <= 2.0 * step <= e
  {
    assert 2.0 * step * g == e * e;
    SquareNonNegative(e);
    MulOrder(0.0, 2.0 * step, g);
    assert e * e <= e * g;
    MulOrder(2.0 * step, e, g);
  }

  // From the second step on, every step is at most half the one before it.
  lemma StepsHalve(d: real, g: real)
    requires d > 0.0 && g > 0.0
    ensures var g1 := Next(d, g);
      var g2 := Next(d, g1);
      g2 <= g1 && 2.0 * Abs(g2 - g1) <= Abs(g1 - g)
  {
    var g1 := Next(d, g);
    var g2 := Next(d, g1);
    var e := Abs(g1 - g);
    StepIsError(d, g);
    StepIsError(d, g1);
    SquareNonNegative(g1 - g);
    assert e * e < g1 * g1;
    SquareOrder(e, g1);
    assert 2.0 * g1 * (g1 - g2) == e * e;
    HalfOf(e, g1, g1 - g2);
  }

  // (Next(x) - Next(y)) 2xy = (x - y)(xy - d)
  lemma StepDifference(d: real, x: real, y: real, p: real, q: real)
    requires x > 0.0 && y > 0.0 && p * x == d && q * y == d
    ensures ((x + p) - (y + q)) * (x * y) == (x - y) * (x * y - d)
  {
    assert p * (x * y) == d * y;
    assert q * (x * y) == d * x;
  }

  lemma ScaledWithin(z: real, w: real, m: real, d: real)
    requires m > 0.0 && 0.0 < d <= 2.0 * m && z * m == w * (m - d)
    ensures Abs(z) <= Abs(w)
  {
    var a := Abs(w);
    MulOrder(-m, m - d, 1.0);
    assert a * (m - d) <= a * m && a * (m - d) >= a * -m by {
      assert a * d >= 0.0;
      assert a * (2.0 * m - d) >= 0.0;
    }
    assert w == a || w == -a;
    assert -a * m <= z * m <= a * m;
    MulOrder(-a, z, m);
    MulOrder(z, a, m);
  }

  // Guesses that are not far below the root come at least twice as close in one step.
  lemma Contracts(d: real, x: real, y: real)
    requires d > 0.0 && x > 0.0 && y > 0.0 && d <= 2.0 * (x * y)
    ensures 2.0 * Abs(Next(d, x) - Next(d, y)) <= Abs(x - y)
  {
    var p, q := d / x, d / y;
    assert p * x == d && q * y == d;
    StepDifference(d, x, y, p, q);
    ProductPositive(x, y, x * y);
    ScaledWithin((x + p) - (y + q), x - y, x * y, d);
  }

  // ---------- the relative excess ----------

  // A guess has excess e when its square is d (1 + e).  The next guess has this excess, whatever d is.
  function Excess(e: real): (f: real)
    requires e >= 0.0
    ensures f >= 0.0
  {
    SquareNonNegative(e);
    e * e / (4.0 * (1.0 + e))
  }

  lemma ExcessEquation(e: real)
    requires e >= 0.0
    ensures Excess(e) * (4.0 * (1.0 + e)) == e * e
  {
  }

  lemma NextExcess(d: real, g: real, e: real, step: real, f: real)
    requires d > 0.0 && g > 0.0 && e >= 0.0 && g * g == d * (1.0 + e)
    requires 2.0 * g * step == d - g * g && f * (4.0 * (1.0 + e)) == e * e
    ensures step * step == d * f
  {
    var s2, g2 := step * step, g * g;
    var w := d * e;
    assert 2.0 * g * step == -w;
    assert 4.0 * (g2 * s2) == (2.0 * g * step) * (2.0 * g * step) == w * w;
    assert w * w == d * d * (e * e);
    var m := 4.0 * (1.0 + e);
    assert g2 * 4.0 == d * m;
    assert d * m * s2 == d * d * (f * m);
    ProductPositive(d, m, d * m);
    assert d * m * (d * f) == d * d * (f * m);
    MulOrder(s2, d * f, d * m);
  }

  lemma ExcessOfNext(d: real, g: real, e: real)
    requires d > 0.0 && g > 0.0 && e >= 0.0 && g * g == d * (1.0 + e)
    ensures Next(d, g) * Next(d, g) == d * (1.0 + Excess(e))
  {
    StepIsError(d, g);
    ExcessEquation(e);
    var step, f := Next(d, g) - g, Excess(e);
    hide Next, Excess;
    NextExcess(d, g, e, step, f);
  }

  lemma SquareOverShift(e: real, c: real)
    requires 0.0 <= e <= c
    ensures e * e * (1.0 + c) <= c * c * (1.0 + e)
  {
    assert e * e <= e * c <= c * c;
    assert e * e * c <= c * c * e by {
      assert e * e * c == e * c * e;
      assert (c * c - e * c) * e >= 0.0;
    }
  }

  // If two excesses are ordered and c becomes at most x, so does e; and the other way round.
  lemma FractionOrder(e: real, c: real, f: real, x: real)
    requires e >= 0.0 && c >= 0.0 && f * (4.0 * (1.0 + e)) == e * e
    ensures e <= c && c * c <= x * (4.0 * (1.0 + c)) ==> f <= x
    ensures c <= e && c * c >= x * (4.0 * (1.0 + c)) ==> x <= f
  {
    var a, b := 1.0 + e, 1.0 + c;
    var p := 4.0 * (a * b);
    ProductPositive(a, b, a * b);
    assert f * p == e * e * b;
    assert x * p == x * (4.0 * b) * a;
    if e <= c && c * c <= x * (4.0 * b) {
      SquareOverShift(e, c);
      MulOrder(c * c, x * (4.0 * b), a);
      MulOrder(f, x, p);
    }
    if c <= e && c * c >= x * (4.0 * b) {
      SquareOverShift(c, e);
      MulOrder(x * (4.0 * b), c * c, a);
      MulOrder(x, f, p);
    }
  }

  lemma ExcessAtMost(e: real, c: real, x: real)
    requires 0.0 <= e <= c && c * c <= x * (4.0 * (1.0 + c))
    ensures Excess(e) <= x
  {
    ExcessEquation(e);
    FractionOrder(e, c, Excess(e), x);
  }

  lemma ExcessAtLeast(e: real, c: real, x: real)
    requires 0.0 <= c <= e && c * c >= x * (4.0 * (1.0 + c))
    ensures Excess(e) >= x
  {
    ExcessEquation(e);
    FractionOrder(e, c, Excess(e), x);
  }

  lemma ExcessMonotone(e: real, f: real)
    requires 0.0 <= e <= f
    ensures Excess(e) <= Excess(f)
  {
    ExcessEquation(f);
    ExcessAtMost(e, f, Excess(f));
  }

  // One step quarters the excess, give or take a quarter.
  lemma ExcessQuarters(e: real)
    requires e >= 0.0
    ensures (e - 1.0) / 4.0 <= Excess(e) <= e / 4.0
  {
    assert e * e <= e / 4.0 * (4.0 * (1.0 + e));
    ExcessAtMost(e, e, e / 4.0);
    assert e * e >= (e - 1.0) / 4.0 * (4.0 * (1.0 + e)) by {
      assert (e - 1.0) * (1.0 + e) == e * e - 1.0;
    }
    ExcessAtLeast(e, e, (e - 1.0) / 4.0);
  }

  // ---------- many steps ----------

  function ExcessAfter(e: real, steps: nat): (f: real)
    requires e >= 0.0
    ensures f >= 0.0
    decreases steps
  {
    if steps == 0 then e else ExcessAfter(Excess(e), steps - 1)
  }

  lemma {:induction false} ExcessAfterMonotone(e: real, f: real, steps: nat)
    requires 0.0 <= e <= f
    ensures ExcessAfter(e, steps) <= ExcessAfter(f, steps)
    decreases steps
  {
    if steps > 0 {
      ExcessMonotone(e, f);
      ExcessAfterMonotone(Excess(e), Excess(f), steps - 1);
    }
  }

  lemma {:induction false} ExcessAfterSplit(e: real, m: nat, n: nat)
    requires e >= 0.0
    ensures ExcessAfter(e, m + n) == ExcessAfter(ExcessAfter(e, m), n)
    decreases m
  {
    if m > 0 {
      ExcessAfterSplit(Excess(e), m - 1, n);
    }
  }

  lemma {:induction false} ExcessAfterQuarters(e: real, steps: nat)
    requires e >= 0.0
    ensures var f, p := ExcessAfter(e, steps), Power(4, steps) as real;
      f * p <= e && (3.0 * f + 1.0) * p >= 3.0 * e + 1.0
    decreases steps
  {
    if steps > 0 {
      var e1, f, p := Excess(e), ExcessAfter(e, steps), Power(4, steps - 1) as real;
      ExcessQuarters(e);
      ExcessAfterQuarters(e1, steps - 1);
      assert Power(4, steps) as real == 4.0 * p;
      assert f == ExcessAfter(e1, steps - 1);
      hide ExcessAfter, Excess, Power;
      assert f * (4.0 * p) == 4.0 * (f * p);
      assert (3.0 * f + 1.0) * (4.0 * p) == 4.0 * ((3.0 * f + 1.0) * p);
    }
  }

  // The guess after a number of steps.
  function Guess(d: real, g: real, steps: nat): (r: real)
    requires d > 0.0 && g > 0.0
    ensures r > 0.0
    decreases steps
  {
    if steps == 0 then g else Guess(d, Next(d, g), steps - 1)
  }

  lemma {:induction false} ExcessOfGuess(d: real, g: real, e: real, steps: nat)
    requires d > 0.0 && g > 0.0 && e >= 0.0 && g * g == d * (1.0 + e)
    ensures Guess(d, g, steps) * Guess(d, g, steps) == d * (1.0 + ExcessAfter(e, steps))
    decreases steps
  {
    hide Next, Excess;
    if steps > 0 {
      ExcessOfNext(d, g, e);
      ExcessOfGuess(d, Next(d, g), Excess(e), steps - 1);
    }
  }

  lemma FirstExcess(d: real)
    requires d >= 4.0
    ensures d / 2.0 * (d / 2.0) == d * (1.0 + (d / 4.0 - 1.0))
  {
  }

  lemma ProductsOrdered(d: real, d': real, e: real, e': real)
    requires 0.0 < d <= d' && 0.0 <= e <= e'
    ensures 0.0 <= d * e <= d' * e'
  {
    assert d * (e' - e) >= 0.0;
    assert (d' - d) * e' >= 0.0;
  }

  // Started from d / 2, every step's square d E grows with d: if some number of steps gets below a
  // tolerance for d', it does for every smaller d from 4 on.
  lemma StepsMonotone(d: real, d': real, steps: nat)
    requires 4.0 <= d <= d'
    ensures var g, g' := Guess(d, d / 2.0, steps), Guess(d', d' / 2.0, steps);
      0.0 <= g * g - d <= g' * g' - d'
  {
    hide Guess, ExcessAfter;
    var e, e' := ExcessAfter(d / 4.0 - 1.0, steps), ExcessAfter(d' / 4.0 - 1.0, steps);
    FirstExcess(d);
    FirstExcess(d');
    ExcessOfGuess(d, d / 2.0, d / 4.0 - 1.0, steps);
    ExcessOfGuess(d', d' / 2.0, d' / 4.0 - 1.0, steps);
    ExcessAfterMonotone(d / 4.0 - 1.0, d' / 4.0 - 1.0, steps);
    ProductsOrdered(d, d', e, e');
  }
}

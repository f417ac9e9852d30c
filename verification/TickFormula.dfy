/**
 The source's comments say a table entry is sqrt(1.0001^tick) * 2^96.  The per-tick factor
 4295128739 / 2^32 is smaller than sqrt(1.0001), and here is what that means: the documented
 value, rounded down, is the table's entry at tick 0 and at no other tick.
 */
module TickFormula {
  import opened FloorMath
  import opened TickTable

  // e is sqrt(num / den) * 2^96 rounded down.
  predicate IsFlooredRoot(e: nat, num: nat, den: nat) {
    e * e * den <= Q192 * num < (e + 1) * (e + 1) * den
  }

  // The entry of tick t is sqrt(1.0001^t) * 2^96 rounded down.
  predicate AsDocumented(t: int)
    requires ValidTick(t)
  {
    if t >= 0 then IsFlooredRoot(SqrtPriceAt(t), Power(10001, t), Power(10000, t))
    else IsFlooredRoot(SqrtPriceAt(t), Power(10000, -t), Power(10001, -t))
  }

  // One step multiplies g + 1 by at most FACTOR / SCALE, whose square is below 1.0001.
  lemma StepArithmetic(x: nat, y: nat, p: nat, r: nat)
    requires y * SCALE <= x * FACTOR
    requires x * x * p * 50000 <= Q192 * r * 49999
    ensures y * y * (10000 * p) * 50000 <= Q192 * (10001 * r) * 49999
  {
    var s2 := SCALE * SCALE;
    var f2 := FACTOR * FACTOR;
    assert f2 * 10000 <= s2 * 10001;
    SquareMono(y * SCALE, x * FACTOR);
    assert (y * SCALE) * (y * SCALE) == y * y * s2;
    assert (x * FACTOR) * (x * FACTOR) == x * x * f2;
    MulMono(y * y * s2, x * x * f2, 10000 * p * 50000);
    MulMono(f2 * 10000, s2 * 10001, x * x * (p * 50000));
    assert x * x * f2 * (10000 * p * 50000) == f2 * 10000 * (x * x * (p * 50000));
    MulMono(x * x * p * 50000, Q192 * r * 49999, s2 * 10001);
    assert s2 * 10001 * (x * x * (p * 50000)) == x * x * p * 50000 * (s2 * 10001);
    assert y * y * s2 * (10000 * p * 50000) == y * y * (10000 * p) * 50000 * s2;
    assert Q192 * r * 49999 * (s2 * 10001) == Q192 * (10001 * r) * 49999 * s2;
    CancelFactor(y * y * (10000 * p) * 50000, Q192 * (10001 * r) * 49999, s2);
  }

  // Every positive tick falls short of the documented square by at least one part in 50000.
  lemma {:induction false} FallsShort(n: nat)
    requires n > 0
    ensures (Grow(n) + 1) * (Grow(n) + 1) * Power(10000, n) * 50000 <= Q192 * Power(10001, n) * 49999
  {
    if n == 1 {
      StepGain(Q96);
      assert Grow(1) == Step(Grow(0));
      var x := Grow(1) + 1;
      assert x <= 0x1_0002_76A4_0000_0000_0000_0000;
      SquareMono(x, 0x1_0002_76A4_0000_0000_0000_0000);
    } else {
      FallsShort(n - 1);
      StepGain(Grow(n - 1));
      StepArithmetic(Grow(n - 1) + 1, Grow(n) + 1, Power(10000, n - 1), Power(10001, n - 1));
    }
  }

  lemma CancelStrict(a: int, b: int, c: nat)
    requires a * c < b * c
    ensures a < b
  {
    if a >= b {
      MulMono(b, a, c);
    }
  }

  // The reciprocals of entries that fall short exceed the documented value.
  lemma ReciprocalArithmetic(e: nat, g: nat, p: nat, r: nat)
    requires g <= GROW_BOUND && Q192 - g < e * g
    requires g * g * p * 50000 <= Q192 * r * 49999
    requires r > 0
    ensures e * e * r > Q192 * p
  {
    var m := Q192 - GROW_BOUND;
    var k := g * g * 50000;
    SquareMono(m, e * g);
    MulMono(m * m, e * g * (e * g), r * 50000);
    assert e * g * (e * g) * (r * 50000) == e * e * r * k;
    MulMono(Q192 * Q192 * 49999 + 1, m * m * 50000, r);
    assert m * m * (r * 50000) == m * m * 50000 * r;
    assert Q192 * (Q192 * r * 49999) == Q192 * Q192 * 49999 * r;
    assert Q192 * (g * g * p * 50000) == Q192 * p * k;
    CancelStrict(Q192 * p, e * e * r, k);
  }

  lemma DocumentedOnlyAtZero(t: int)
    requires ValidTick(t)
    ensures AsDocumented(t) <==> t == 0
  {
    if t > 0 {
      var x := Grow(t) + 1;
      FallsShort(t);
      PowerPositive(10001, t);
      assert Q192 * Power(10001, t) * 49999 < Q192 * Power(10001, t) * 50000;
      CancelStrict(x * x * Power(10000, t), Q192 * Power(10001, t), 50000);
    } else if t < 0 {
      var g := Grow(-t);
      FallsShort(-t);
      GrowBound(-t);
      PowerPositive(10001, -t);
      SquareMono(g, g + 1);
      MulMono(g * g, (g + 1) * (g + 1), Power(10000, -t));
      OppositeTicksReciprocal(-t);
      ReciprocalArithmetic(SqrtPriceAt(t), g, Power(10000, -t), Power(10001, -t));
    }
  }

  // One step multiplies by at least (FACTOR - 1) / SCALE, whose square exceeds 1.0001 * 39999 / 40000.
  lemma StepAtLeast(x: nat, y: nat, p: nat, r: nat)
    requires y * SCALE >= x * (FACTOR - 1)
    requires Q192 * r <= x * x * p
    ensures Q192 * (r * 400029999) <= y * y * (p * 400000000)
  {
    var s2 := SCALE * SCALE;
    var f2 := (FACTOR - 1) * (FACTOR - 1);
    assert s2 * 400029999 <= f2 * 400000000;
    SquareMono(x * (FACTOR - 1), y * SCALE);
    assert (y * SCALE) * (y * SCALE) == y * y * s2;
    assert (x * (FACTOR - 1)) * (x * (FACTOR - 1)) == x * x * f2;
    MulMono(x * x * f2, y * y * s2, p * 400000000);
    MulMono(s2 * 400029999, f2 * 400000000, x * x * p);
    MulMono(Q192 * r, x * x * p, s2 * 400029999);
    assert s2 * 400029999 * (x * x * p) == x * x * p * (s2 * 400029999);
    assert x * x * f2 * (p * 400000000) == f2 * 400000000 * (x * x * p);
    assert y * y * s2 * (p * 400000000) == y * y * (p * 400000000) * s2;
    assert Q192 * r * (s2 * 400029999) == Q192 * (r * 400029999) * s2;
    CancelFactor(Q192 * (r * 400029999), y * y * (p * 400000000), s2);
  }

  lemma Regrouped(a: nat, b: nat)
    ensures a * b * 400029999 == (10001 * a) * (39999 * b)
    ensures a * b * 400000000 == (10000 * a) * (40000 * b)
  {
  }

  // No positive tick falls further short of the documented square than one part in 40000 per tick.
  lemma {:induction false} FallsNoFurther(n: nat)
    ensures Q192 * (Power(10001, n) * Power(39999, n)) <= Grow(n) * Grow(n) * (Power(10000, n) * Power(40000, n))
  {
    if n > 0 {
      FallsNoFurther(n - 1);
      var x := Grow(n - 1);
      StepGain(x);
      Regrouped(Power(10001, n - 1), Power(39999, n - 1));
      Regrouped(Power(10000, n - 1), Power(40000, n - 1));
      StepAtLeast(x, Grow(n), Power(10000, n - 1) * Power(40000, n - 1), Power(10001, n - 1) * Power(39999, n - 1));
    }
  }
}

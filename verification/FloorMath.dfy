/**
 Whole-number division as math/big does it, and the inequalities about floors that the
 fixed-point proofs share.
 */
module FloorMath {

  // Euclidean division by repeated subtraction.  The solver unfolds it one round at a time, so a
  // proof that merely compares quotients never meets nonlinear division; DivIs brings that back.
  function Div(n: int, d: int): (q: int)
    requires d != 0
    ensures n >= 0 && d > 0 ==> q >= 0
    decreases d < 0, n < 0, if n < 0 then -n else n
  {
    if d < 0 then -Div(n, -d)
    else if n < 0 then Div(n + d, d) - 1
    else if n < d then 0
    else 1 + Div(n - d, d)
  }

  lemma {:induction false} DivBrackets(n: int, d: int)
    requires d > 0
    ensures Div(n, d) * d <= n < (Div(n, d) + 1) * d
    decreases n < 0, if n < 0 then -n else n
  {
    if n < 0 {
      DivBrackets(n + d, d);
    } else if n >= d {
      DivBrackets(n - d, d);
    }
  }

  lemma MulMono(a: int, b: int, c: nat)
    requires a <= b
    ensures a * c <= b * c && c * a <= c * b
  {
  }

  lemma DivIs(n: int, d: int, q: int)
    requires d > 0 && q * d <= n < (q + 1) * d
    ensures Div(n, d) == q
  {
    DivBrackets(n, d);
    var p := Div(n, d);
    if p < q {
      MulMono(p + 1, q, d);
    } else if q < p {
      MulMono(q + 1, p, d);
    }
  }

  // Div is the language's own division, negative operands included.
  lemma DivIsDivision(n: int, d: int)
    requires d != 0
    ensures Div(n, d) == n / d
  {
    if d > 0 {
      DivIs(n, d, n / d);
    } else {
      DivIs(n, -d, -(n / d));
    }
  }

  lemma CancelFactor(x: int, y: int, c: nat)
    requires c > 0 && x * c <= y * c
    ensures x <= y
  {
    if x > y {
      MulMono(y + 1, x, c);
    }
  }

  lemma DivAtLeast(n: int, d: int, k: int)
    requires d > 0 && k * d <= n
    ensures k <= Div(n, d)
  {
    DivBrackets(n, d);
    if k > Div(n, d) {
      MulMono(Div(n, d) + 1, k, d);
    }
  }

  lemma DivAtMost(n: int, d: int, k: int)
    requires d > 0 && n < (k + 1) * d
    ensures Div(n, d) <= k
  {
    DivBrackets(n, d);
    if Div(n, d) > k {
      MulMono(k + 1, Div(n, d), d);
    }
  }

  // Comparing two floored fractions by cross-multiplication.
  lemma CrossDiv(x: int, m: nat, y: int, n: nat)
    requires m > 0 && n > 0 && x * n <= y * m
    ensures Div(x, m) <= Div(y, n)
  {
    var k := Div(x, m);
    DivBrackets(x, m);
    MulMono(k * m, x, n);
    assert k * n * m == k * m * n;
    CancelFactor(k * n, y, m);
    DivAtLeast(y, n, k);
  }

  lemma {:induction false} CrossDivEqual(x: int, m: nat, y: int, n: nat)
    requires m > 0 && n > 0 && x * n == y * m
    ensures Div(x, m) == Div(y, n)
  {
    CrossDiv(x, m, y, n);
    CrossDiv(y, n, x, m);
  }

  lemma NestedBrackets(n: int, a: nat, b: nat, m: int, q: int)
    requires m * a <= n < (m + 1) * a && q * b <= m < (q + 1) * b
    ensures q * (a * b) <= n < (q + 1) * (a * b)
  {
    MulMono(q * b, m, a);
    MulMono(m + 1, (q + 1) * b, a);
    assert q * b * a == q * (a * b);
    assert (q + 1) * b * a == (q + 1) * (a * b);
  }

  // Dividing twice is dividing by the product.
  lemma DivDiv(n: int, a: nat, b: nat, c: nat)
    requires a > 0 && b > 0 && c == a * b
    ensures c > 0 && Div(Div(n, a), b) == Div(n, c)
  {
    DivBrackets(n, a);
    DivBrackets(Div(n, a), b);
    NestedBrackets(n, a, b, Div(n, a), Div(Div(n, a), b));
    DivIs(n, c, Div(Div(n, a), b));
  }

  lemma SumBrackets(x: int, y: int, d: nat, p: int, q: int)
    requires p * d <= x < (p + 1) * d && q * d <= y < (q + 1) * d
    ensures (p + q) * d <= x + y < (p + q + 2) * d
  {
    assert (p + q) * d == p * d + q * d;
    assert (p + q + 2) * d == (p + 1) * d + (q + 1) * d;
  }

  // Two floors lose at most one unit against the floor of the sum.
  lemma FloorSum(x: int, y: int, d: nat)
    requires d > 0
    ensures Div(x, d) + Div(y, d) <= Div(x + y, d) <= Div(x, d) + Div(y, d) + 1
  {
    DivBrackets(x, d);
    DivBrackets(y, d);
    SumBrackets(x, y, d, Div(x, d), Div(y, d));
    DivAtLeast(x + y, d, Div(x, d) + Div(y, d));
    DivAtMost(x + y, d, Div(x, d) + Div(y, d) + 1);
  }

  lemma SquareMono(a: nat, b: nat)
    requires a <= b
    ensures a * a <= b * b
  {
    MulMono(a, b, a);
    MulMono(a, b, b);
  }

  function Power(base: nat, k: nat): nat {
    if k == 0 then 1 else base * Power(base, k - 1)
  }

  lemma {:induction false} PowerPositive(base: nat, k: nat)
    requires base > 0
    ensures Power(base, k) > 0
  {
    if k > 0 {
      PowerPositive(base, k - 1);
    }
  }

  lemma {:induction false} PowerAdd(base: nat, a: nat, b: nat)
    ensures Power(base, a + b) == Power(base, a) * Power(base, b)
  {
    if a > 0 {
      PowerAdd(base, a - 1, b);
      assert base * (Power(base, a - 1) * Power(base, b)) == base * Power(base, a - 1) * Power(base, b);
    }
  }

  lemma PowerOf16()
    ensures Power(2, 4) == 16 && Power(2, 16) == 65536
  {
    assert Power(2, 4) == 16;
    hide Power;
    PowerAdd(2, 4, 4);
    PowerAdd(2, 8, 8);
  }

  // The power of two that the growth of the table ends at.
  lemma PowerOf67()
    ensures Power(2, 67) == 0x8_0000_0000_0000_0000
  {
    assert Power(2, 1) == 2 && Power(2, 2) == 4 && Power(2, 3) == 8;
    hide Power;
    PowerOf16();
    PowerAdd(2, 16, 16);
    PowerAdd(2, 32, 16);
    PowerAdd(2, 48, 16);
    PowerAdd(2, 64, 3);
  }
}

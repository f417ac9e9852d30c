/** The integer square root behind price-to-tick conversion: Newton's iteration on whole numbers. */
module IntSqrt {
  import opened FloorMath

  predicate IsRoot(n: int, x: nat) {
    if n <= 0 then x == 0 else x * x <= n < (x + 1) * (x + 1)
  }

  lemma RootUnique(n: int, x: nat, y: nat)
    requires IsRoot(n, x) && IsRoot(n, y)
    ensures x == y
  {
    if x < y {
      SquareMono(x + 1, y);
    } else if y < x {
      SquareMono(y + 1, x);
    }
  }

  lemma FourTimesProduct(a: int, b: int)
    ensures 4 * (a * b) <= (a + b) * (a + b)
  {
    var c := a - b;
    assert c * c >= 0;
    assert (a + b) * (a + b) == 4 * (a * b) + c * c by {
      assert c * c == a * a - 2 * (a * b) + b * b;
      assert (a + b) * (a + b) == a * a + 2 * (a * b) + b * b;
    }
  }

  // From any positive x the next guess y is not below the root: (x + n/x)^2 >= 4n, floors included.
  lemma NextNotBelow(n: nat, x: nat, q: nat, y: nat)
    requires 0 < x && n < (q + 1) * x && y == (x + q) / 2
    ensures n < (y + 1) * (y + 1)
  {
    FourTimesProduct(q + 1, x);
    SquareMono(q + 1 + x, 2 * (y + 1));
    assert 2 * (y + 1) * (2 * (y + 1)) == 4 * ((y + 1) * (y + 1));
  }

  // When the iteration stops descending the guess is not above the root either.
  lemma StopsAtRoot(n: nat, x: nat, q: nat, y: nat)
    requires q * x <= n && y == (x + q) / 2 && y >= x
    ensures x * x <= n
  {
    MulMono(x, q, x);
  }

  lemma FirstGuess(n: nat)
    requires n > 0
    ensures var x := if n / 2 == 0 then 1 else n / 2;
      n < (x + 1) * (x + 1)
  {
    var x := if n / 2 == 0 then 1 else n / 2;
    assert (x + 1) * (x + 1) == x * x + 2 * x + 1;
  }

  // The source steps back by one when the final guess is too high; no run takes that branch.
  method SqrtInt(n: int) returns (x: nat)
    ensures IsRoot(n, x)
  {
    if n <= 0 {
      return 0;
    }
    x := n / 2;
    if x == 0 {
      x := 1;
    }
    FirstGuess(n);
    while true
      invariant x > 0 && n < (x + 1) * (x + 1)
      decreases x
    {
      var q := n / x;
      var y := (x + q) / 2;
      DivIsDivision(n, x);
      DivBrackets(n, x);
      NextNotBelow(n, x, q, y);
      if y >= x {
        StopsAtRoot(n, x, q, y);
        var xSq := x * x;
        if xSq <= n {
          return x;
        }
        assert false;
      }
      assert y > 0;
      x := y;
    }
  }
}

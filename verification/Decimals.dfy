/**
 Division of decimals.  Sums and products of decimals are exact; a quotient is rounded to sixteen
 fractional digits, ties away from zero.
 */
module Decimals {

  // The last digit that a quotient keeps, and half of it.
  const UNIT: real := 0.0000000000000001
  const HALF_UNIT: real := 0.00000000000000005

  // So many half units.
  function HalfUnits(x: real): real {
    x * 0.00000000000000005
  }

  function RoundedUp(x: real): real {
    (x * 10000000000000000.0 + 0.5).Floor as real * 0.0000000000000001
  }

  function Rounded(x: real): real {
    if x < 0.0 then -RoundedUp(-x) else RoundedUp(x)
  }

  function Quotient(a: real, b: real): real
    requires b != 0.0
  {
    Rounded(a / b)
  }

  // Where the source drops the error of a division by zero, the zero decimal stands for the result.
  function DivOrZero(a: real, b: real): real {
    if b == 0.0 then 0.0 else Quotient(a, b)
  }

  // A whole number of units.
  function Units(k: int): real {
    k as real * 0.0000000000000001
  }

  predicate OnGrid(x: real) {
    x == Units((x * 10000000000000000.0).Floor)
  }

  lemma UnitsOnGrid(k: int)
    ensures OnGrid(Units(k))
  {
    assert Units(k) * 10000000000000000.0 == k as real;
  }

  lemma RoundedOnGrid(x: real)
    ensures OnGrid(Rounded(x))
  {
    if x < 0.0 {
      UnitsOnGrid(-(-x * 10000000000000000.0 + 0.5).Floor);
    } else {
      UnitsOnGrid((x * 10000000000000000.0 + 0.5).Floor);
    }
  }

  // The rounded value is the nearest whole number of units.
  lemma RoundedNear(x: real)
    ensures x - HALF_UNIT <= Rounded(x) <= x + HALF_UNIT
    ensures x >= 0.0 ==> Rounded(x) >= 0.0
    ensures x <= 0.0 ==> Rounded(x) <= 0.0
  {
  }

  // A positive number of units is reached from half a unit below on.
  lemma RoundedAtLeast(x: real, k: int)
    requires k > 0
    ensures Rounded(x) >= Units(k) <==> x >= Units(k) - HALF_UNIT
  {
    var n := (x * 10000000000000000.0 + 0.5).Floor;
    if x >= 0.0 {
      assert Rounded(x) == Units(n);
      assert n >= k <==> x * 10000000000000000.0 + 0.5 >= k as real;
    }
  }

  lemma RoundedUpExact(k: nat)
    ensures RoundedUp(Units(k)) == Units(k)
  {
    assert Units(k) * 10000000000000000.0 + 0.5 == k as real + 0.5;
    assert (k as real + 0.5).Floor == k;
  }

  lemma RoundedExact(k: int)
    ensures Rounded(Units(k)) == Units(k)
  {
    if k < 0 {
      assert -Units(k) == Units(-k);
      RoundedUpExact(-k);
    } else {
      RoundedUpExact(k);
    }
  }

  lemma RoundedUpMonotone(x: real, y: real)
    requires x <= y
    ensures RoundedUp(x) <= RoundedUp(y)
  {
    var a, b := (x * 10000000000000000.0 + 0.5).Floor, (y * 10000000000000000.0 + 0.5).Floor;
    assert a <= b;
  }

  lemma RoundedMonotone(x: real, y: real)
    requires x <= y
    ensures Rounded(x) <= Rounded(y)
  {
    if y < 0.0 {
      RoundedUpMonotone(-y, -x);
    } else if x >= 0.0 {
      RoundedUpMonotone(x, y);
    } else {
      RoundedUpMonotone(0.0, -x);
      RoundedUpMonotone(0.0, y);
    }
  }

  // Whether a rounded value exceeds, meets or misses 1.
  lemma AgainstOne(x: real)
    ensures Rounded(x) > 1.0 <==> x >= 1.0 + HALF_UNIT
    ensures Rounded(x) < 1.0 <==> x < 1.0 - HALF_UNIT
  {
    RoundedAtLeast(x, 10000000000000001);
    RoundedAtLeast(x, 10000000000000000);
    RoundedOnGrid(x);
    var k := (Rounded(x) * 10000000000000000.0).Floor;
    hide Rounded;
    assert Rounded(x) == Units(k);
    assert Units(10000000000000000) == 1.0;
  }

  // Rounding takes half a unit more under a bound of whole units.
  lemma RoundedAtMost(x: real, m: real)
    requires OnGrid(m) && m >= 0.0
    ensures Rounded(x) <= m <==> x < m + HALF_UNIT
  {
    var k := (m * 10000000000000000.0).Floor;
    RoundedAtLeast(x, k + 1);
    RoundedOnGrid(x);
    var n := (Rounded(x) * 10000000000000000.0).Floor;
    hide Rounded;
    assert m == Units(k) && Rounded(x) == Units(n);
    assert Units(n) <= Units(k) <==> n < k + 1;
  }

  // Ties are rounded away from zero, on either side of it.
  lemma TiesAwayFromZero(k: nat)
    ensures Rounded(Units(k) + HALF_UNIT) == Units(k + 1)
    ensures Rounded(-Units(k) - HALF_UNIT) == -Units(k + 1)
  {
    var x := Units(k) + HALF_UNIT;
    assert x * 10000000000000000.0 + 0.5 == (k + 1) as real;
    assert ((k + 1) as real).Floor == k + 1;
  }
}

/** Big-endian positional numerals: value, minimal digits, and the two round trips between them. */
module Positional {
  import opened FloorMath

  predicate Below(ds: seq<nat>, base: nat) {
    forall i :: 0 <= i < |ds| ==> ds[i] < base
  }

  // No leading zero.
  predicate Minimal(ds: seq<nat>) {
    ds == [] || ds[0] != 0
  }

  function Number(ds: seq<nat>, base: nat): nat {
    if ds == [] then 0 else Number(ds[..|ds| - 1], base) * base + ds[|ds| - 1]
  }

  lemma QuotientSmaller(n: nat, base: nat)
    requires n > 0 && base > 1
    ensures 0 <= n - Div(n, base) * base < base && Div(n, base) < n
  {
    DivBrackets(n, base);
    MulMono(2, base, Div(n, base));
  }

  function Digits(n: nat, base: nat): seq<nat>
    requires base > 1
  {
    if n == 0 then []
    else
      QuotientSmaller(n, base);
      var q := Div(n, base);
      Digits(q, base) + [n - q * base]
  }

  lemma NumberSnoc(ds: seq<nat>, d: nat, base: nat)
    ensures Number(ds + [d], base) == Number(ds, base) * base + d
  {
    assert (ds + [d])[..|ds|] == ds;
  }

  lemma Shift(x: nat, p: nat, y: nat, base: nat, d: nat)
    ensures (x * p + y) * base + d == x * (base * p) + (y * base + d)
  {
    assert (x * p + y) * base == x * p * base + y * base;
    assert x * p * base == x * (base * p);
  }

  lemma {:induction false} NumberAppend(a: seq<nat>, b: seq<nat>, base: nat)
    ensures Number(a + b, base) == Number(a, base) * Power(base, |b|) + Number(b, base)
  {
    if b == [] {
      assert a + b == a;
    } else {
      var b', d := b[..|b| - 1], b[|b| - 1];
      NumberAppend(a, b', base);
      assert a + b == (a + b') + [d] && b == b' + [d];
      NumberSnoc(a + b', d, base);
      Shift(Number(a, base), Power(base, |b'|), Number(b', base), base, d);
    }
  }

  lemma NumberCons(d: nat, ds: seq<nat>, base: nat)
    ensures Number([d] + ds, base) == d * Power(base, |ds|) + Number(ds, base)
  {
    NumberAppend([d], ds, base);
    assert Number([d], base) == d by {
      assert [d][..0] == [];
    }
  }

  lemma OneMore(x: nat, p: nat, base: nat, d: nat)
    requires x < p && d < base
    ensures x * base + d < base * p
  {
    assert (p - x - 1) * base >= 0;
    assert x * base + base + (p - x - 1) * base == base * p;
  }

  lemma {:induction false} NumberBelowPower(ds: seq<nat>, base: nat)
    requires Below(ds, base)
    ensures Number(ds, base) < Power(base, |ds|)
  {
    if ds != [] {
      NumberBelowPower(ds[..|ds| - 1], base);
      OneMore(Number(ds[..|ds| - 1], base), Power(base, |ds| - 1), base, ds[|ds| - 1]);
    }
  }

  // A numeral without a leading zero is at least the power of its length less one, and conversely.
  lemma {:induction false} MinimalIsLarge(ds: seq<nat>, base: nat)
    requires Below(ds, base) && ds != []
    ensures Minimal(ds) <==> Number(ds, base) >= Power(base, |ds| - 1)
  {
    assert ds == [ds[0]] + ds[1..];
    NumberCons(ds[0], ds[1..], base);
    NumberBelowPower(ds[1..], base);
    var p := Power(base, |ds| - 1);
    if ds[0] > 0 {
      MulMono(1, ds[0], p);
    } else {
      assert ds[0] * p == 0;
    }
  }

  lemma {:induction false} DigitsUnfold(n: nat, base: nat) returns (q: nat, d: nat)
    requires base > 1 && n > 0
    ensures n == q * base + d && d < base && q < n
    ensures Digits(n, base) == Digits(q, base) + [d]
  {
    QuotientSmaller(n, base);
    q := Div(n, base);
    d := n - q * base;
  }

  lemma DigitsFold(q: nat, d: nat, base: nat)
    requires base > 1 && d < base && q + d > 0
    ensures q * base + d > 0 && Digits(q * base + d, base) == Digits(q, base) + [d]
  {
    MulMono(1, base, q);
    DivIs(q * base + d, base, q);
  }

  lemma NoDigits(base: nat)
    requires base > 1
    ensures Digits(0, base) == []
  {
  }

  lemma {:induction false} DigitsFacts(n: nat, base: nat)
    requires base > 1
    ensures Number(Digits(n, base), base) == n
    ensures Below(Digits(n, base), base) && Minimal(Digits(n, base))
    ensures n > 0 ==> Digits(n, base) != []
    decreases n
  {
    if n > 0 {
      hide Digits, Number, Div, Power;
      var q, d := DigitsUnfold(n, base);
      DigitsFacts(q, base);
      NumberSnoc(Digits(q, base), d, base);
      if q == 0 {
        NoDigits(base);
      }
    }
  }

  lemma DigitsOfSnoc(init: seq<nat>, d: nat, base: nat)
    requires base > 1 && d < base && (init != [] || d > 0)
    requires Digits(Number(init, base), base) == init
    ensures Digits(Number(init + [d], base), base) == init + [d]
  {
    hide Digits, Number, Div;
    NumberSnoc(init, d, base);
    NoDigits(base);
    DigitsFold(Number(init, base), d, base);
  }

  // Minimal digits are determined by the number they write.
  lemma {:induction false} DigitsOfNumber(ds: seq<nat>, base: nat)
    requires base > 1 && Below(ds, base) && Minimal(ds)
    ensures Digits(Number(ds, base), base) == ds
  {
    hide Digits, Div;
    NoDigits(base);
    if ds != [] {
      var init := ds[..|ds| - 1];
      assert ds == init + [ds[|ds| - 1]];
      DigitsOfNumber(init, base);
      DigitsOfSnoc(init, ds[|ds| - 1], base);
    }
  }

  lemma NumberOfNone(base: nat)
    ensures Number([], base) == 0
  {
  }
}

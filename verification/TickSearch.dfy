/** Price to tick: the binary search that inverts the tick table. */
module TickSearch {
  import opened Wrappers
  import opened TickTable

  // The greatest tick at or below t whose table entry does not exceed the price, MIN_TICK - 1 if none.
  function GreatestTickFrom(price: nat, t: int): int
    requires t <= MAX_TICK
    decreases t - MIN_TICK + 1
  {
    if t < MIN_TICK then MIN_TICK - 1
    else if SqrtPriceAt(t) <= price then t
    else GreatestTickFrom(price, t - 1)
  }

  function TickOf(price: nat): int {
    GreatestTickFrom(price, MAX_TICK)
  }

  // The floor property: the table entry at t is at most the price and the next entry exceeds it.
  predicate IsFloorTick(price: nat, t: int) {
    && MIN_TICK - 1 <= t <= MAX_TICK
    && (t >= MIN_TICK ==> SqrtPriceAt(t) <= price)
    && (t < MAX_TICK ==> price < SqrtPriceAt(t + 1))
  }

  lemma {:induction false} GreatestTickFromIsFloor(price: nat, t: int)
    requires MIN_TICK - 1 <= t <= MAX_TICK
    requires t < MAX_TICK ==> price < SqrtPriceAt(t + 1)
    ensures IsFloorTick(price, GreatestTickFrom(price, t))
    decreases t - MIN_TICK + 1
  {
    if t >= MIN_TICK && SqrtPriceAt(t) > price {
      GreatestTickFromIsFloor(price, t - 1);
    }
  }

  lemma TickOfIsFloor(price: nat)
    ensures IsFloorTick(price, TickOf(price))
  {
    GreatestTickFromIsFloor(price, MAX_TICK);
  }

  lemma NotBelow(price: nat, s: int, t: int)
    requires IsFloorTick(price, s) && IsFloorTick(price, t)
    ensures s >= t
  {
    if s + 1 < t {
      TableStrictlyIncreasing(s + 1, t);
    }
  }

  // The table is increasing, so at most one tick has the floor property.
  lemma FloorTickUnique(price: nat, s: int, t: int)
    requires IsFloorTick(price, s) && IsFloorTick(price, t)
    ensures s == t
  {
    if s < t {
      NotBelow(price, s, t);
    } else if t < s {
      NotBelow(price, t, s);
    }
  }

  // Division by two as the language of the source does it: towards zero.
  function HalfTowardsZero(x: int): int {
    if x >= 0 then x / 2 else -(-x / 2)
  }

  method SqrtPriceX96ToTick(price: int) returns (r: Result<int, TickError>)
    ensures price <= 0 ==> r == Err(InvalidSqrtPrice)
    ensures price > 0 ==> r == Ok(TickOf(price))
  {
    if price <= 0 {
      return Err(InvalidSqrtPrice);
    }
    TickOfIsFloor(price);
    var lo, hi := MIN_TICK, MAX_TICK;
    while lo <= hi
      invariant MIN_TICK <= lo <= hi + 1 <= MAX_TICK + 1
      invariant lo > MIN_TICK ==> SqrtPriceAt(lo - 1) < price
      invariant hi < MAX_TICK ==> price < SqrtPriceAt(hi + 1)
      decreases hi - lo + 1
    {
      var mid := HalfTowardsZero(lo + hi);
      var entry := TickToSqrtPriceX96(mid);
      var sqrtAtMid := entry.value;
      if price == sqrtAtMid {
        if mid < MAX_TICK {
          NextTickHigher(mid);
        }
        FloorTickUnique(price, mid, TickOf(price));
        return Ok(mid);
      } else if price > sqrtAtMid {
        lo := mid + 1;
      } else {
        hi := mid - 1;
      }
    }
    FloorTickUnique(price, hi, TickOf(price));
    return Ok(hi);
  }

  // ---------- main results ----------

  // The search inverts the table on every tick.
  lemma RoundTrip(t: int)
    requires ValidTick(t)
    ensures TickOf(SqrtPriceAt(t)) == t
  {
    TickOfIsFloor(SqrtPriceAt(t));
    if t < MAX_TICK {
      NextTickHigher(t);
    }
    FloorTickUnique(SqrtPriceAt(t), t, TickOf(SqrtPriceAt(t)));
  }

  // Comparing ticks is comparing prices, for every price and every tick of the table.
  lemma TickOrderIsPriceOrder(price: nat, t: int)
    requires ValidTick(t)
    ensures TickOf(price) >= t <==> price >= SqrtPriceAt(t)
  {
    var s := TickOf(price);
    TickOfIsFloor(price);
    if s > t {
      TableStrictlyIncreasing(t, s);
    } else if s + 1 < t {
      TableStrictlyIncreasing(s + 1, t);
    }
  }

  lemma TickOfMonotone(p: nat, q: nat)
    requires p <= q
    ensures TickOf(p) <= TickOf(q)
  {
    TickOfIsFloor(p);
    TickOfIsFloor(q);
    if ValidTick(TickOf(p)) {
      TickOrderIsPriceOrder(q, TickOf(p));
    }
  }

  // Saturation: one below the table under its lowest entry, the top tick at or over its highest.
  lemma Saturation(price: nat)
    ensures price < SqrtPriceAt(MIN_TICK) <==> TickOf(price) == MIN_TICK - 1
    ensures price >= SqrtPriceAt(MAX_TICK) <==> TickOf(price) == MAX_TICK
  {
    TickOfIsFloor(price);
    TickOrderIsPriceOrder(price, MIN_TICK);
    TickOrderIsPriceOrder(price, MAX_TICK);
  }
}

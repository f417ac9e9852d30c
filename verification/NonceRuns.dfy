/** Runs of the nonce manager and the replacement manager, and what they keep over every run. */
module NonceRuns {
  import opened Nonces
  import opened ReplaceByFee
  import opened Wrappers

  datatype Op =
    | Reserve(answer: Answer)
    | Initialize(answer: Answer)
    | Acknowledge(nonce: nat, hash: string)
    | DropPending(nonce: nat)
    | Replace(hash: string, fees: Option<Fees>, answer: Answer, now: int)
    | ReplaceOriginal(hash: string, fees: Option<Fees>, nonce: nat, now: int)
    | Record(hash: string, now: int)
    | Clear(hash: string)

  // Where a replacement's nonce comes from.
  datatype Origin = Fresh | Tracked | Caller

  // What an operation shows: the nonce it handed out and to whom, or the attempt it counted.
  datatype Event =
    | Quiet
    | Took(nonce: nat)
    | Replaced(hash: string, nonce: nat, origin: Origin)
    | Counted(hash: string, unknown: bool)
    | ClearedOf(hash: string)

  datatype Config = Config(max: int, percent: int)

  function Step(c: Config, w: World, op: Op): (World, Event) {
    match op
    case Reserve(answer) =>
      var (nonces, r) := Reserved(w.nonces, answer);
      (w.(nonces := nonces), if r.Some? then Took(r.value) else Quiet)
    case Initialize(answer) => (w.(nonces := Initialized(w.nonces, answer)), Quiet)
    case Acknowledge(nonce, hash) => (w.(nonces := w.nonces.(pending := w.nonces.pending[nonce := hash])), Quiet)
    case DropPending(nonce) => (w.(nonces := w.nonces.(pending := w.nonces.pending - {nonce})), Quiet)
    case Replace(hash, fees, answer, now) =>
      var (w', r) := Attempt(w, c.max, c.percent, hash, fees, answer, now);
      (w', if r.Ok? then Replaced(hash, r.value.nonce, if hash in w.txs then Tracked else Fresh) else Quiet)
    case ReplaceOriginal(hash, fees, nonce, now) =>
      var (w', r) := AttemptWithOriginal(w, c.max, c.percent, hash, fees, nonce, now);
      (w', if r.Ok? then Replaced(hash, r.value.nonce, Caller) else Quiet)
    case Record(hash, now) => (Recorded(w, hash, now), Event.Counted(hash, hash !in w.txs))
    case Clear(hash) => (Cleared(w, hash), ClearedOf(hash))
  }

  function Run(c: Config, w: World, ops: seq<Op>): (World, seq<Event>) {
    if ops == [] then (w, [])
    else
      var (w1, log) := Run(c, w, ops[..|ops| - 1]);
      var (w2, event) := Step(c, w1, ops[|ops| - 1]);
      (w2, log + [event])
  }

  predicate TakesNonce(e: Event) {
    e.Took? || (e.Replaced? && e.origin == Fresh)
  }

  // The events that reserved a nonce, in order.
  function Reservations(log: seq<Event>): seq<Event> {
    if log == [] then []
    else
      var init, last := Reservations(log[..|log| - 1]), log[|log| - 1];
      if TakesNonce(last) then init + [last] else init
  }

  lemma ReservationsSnoc(log: seq<Event>, e: Event)
    ensures Reservations(log + [e]) == Reservations(log) + if TakesNonce(e) then [e] else []
  {
    assert (log + [e])[..|log|] == log;
  }

  // ---------- reserved nonces ----------

  ghost predicate Consecutive(rs: seq<Event>) {
    && (forall k :: 0 <= k < |rs| ==> TakesNonce(rs[k]))
    && (forall k :: 0 <= k < |rs| ==> rs[k].nonce == (rs[0].nonce + k) % U64)
  }

  ghost predicate NonceInv(w: World, log: seq<Event>) {
    var rs := Reservations(log);
    && w.nonces.nonce < U64
    && Consecutive(rs)
    && (rs != [] ==> w.nonces.initialized && w.nonces.nonce == (rs[0].nonce + |rs|) % U64)
  }

  lemma NextModulo(a: nat, k: nat)
    ensures ((a + k) % U64 + 1) % U64 == (a + k + 1) % U64
  {
  }

  // Only a step that takes a nonce moves the counter, and it takes the counter's value.
  lemma NonceStep(c: Config, w: World, op: Op)
    requires w.nonces.nonce < U64 && !op.Initialize?
    ensures var (w', e) := Step(c, w, op);
      && (!TakesNonce(e) ==> w'.nonces.nonce == w.nonces.nonce && w'.nonces.initialized == w.nonces.initialized)
      && (TakesNonce(e) ==> w'.nonces.initialized && e.nonce < U64 && w'.nonces.nonce == (e.nonce + 1) % U64)
      && (TakesNonce(e) && w.nonces.initialized ==> e.nonce == w.nonces.nonce)
  {
  }

  lemma NonceInvStep(c: Config, w: World, log: seq<Event>, op: Op)
    requires NonceInv(w, log) && !op.Initialize?
    ensures var (w', e) := Step(c, w, op); NonceInv(w', log + [e])
  {
    hide Step, Reservations;
    var (w', e) := Step(c, w, op);
    var rs := Reservations(log);
    NonceStep(c, w, op);
    ReservationsSnoc(log, e);
    if TakesNonce(e) && rs != [] {
      NextModulo(rs[0].nonce, |rs|);
    }
  }

  // Without re-initialisation the reserved nonces of every run are consecutive modulo 2^64.
  lemma {:induction false} ReservedConsecutively(c: Config, w: World, ops: seq<Op>)
    requires w.nonces.nonce < U64
    requires forall op :: op in ops ==> !op.Initialize?
    ensures NonceInv(Run(c, w, ops).0, Run(c, w, ops).1)
  {
    if ops != [] {
      ReservedConsecutively(c, w, ops[..|ops| - 1]);
      var (w1, log) := Run(c, w, ops[..|ops| - 1]);
      NonceInvStep(c, w1, log, ops[|ops| - 1]);
    }
  }

  // The chain's answer that an operation brings along.
  function AnswerOf(op: Op): Option<nat> {
    match op
    case Reserve(answer) => answer
    case Initialize(answer) => answer
    case Replace(_, _, answer, _) => answer
    case _ => None
  }

  // What one step does to a manager not yet initialised: nothing, or it takes the chain's answer.
  lemma FreshStep(c: Config, w: World, op: Op)
    requires !w.nonces.initialized && !op.Initialize?
    ensures var (w', e) := Step(c, w, op);
      if TakesNonce(e) then AnswerOf(op) == Some(e.nonce) && w'.nonces.nonce == (e.nonce + 1) % 0x1_0000_0000_0000_0000
      else w'.nonces.nonce == w.nonces.nonce && !w'.nonces.initialized
  {
  }

  lemma {:induction false} NoneReserved(log: seq<Event>)
    ensures Reservations(log) == [] ==> forall k :: 0 <= k < |log| ==> !TakesNonce(log[k])
  {
    if log != [] {
      NoneReserved(log[..|log| - 1]);
    }
  }

  // From a manager not yet initialised, the first reservation hands out the chain's answer of the operation
  // that made it; until then counter and flag stay as they were.
  lemma {:induction false} FirstIsChainsAnswer(c: Config, w: World, ops: seq<Op>) returns (i: nat)
    requires !w.nonces.initialized && forall op :: op in ops ==> !op.Initialize?
    ensures var (w', log) := Run(c, w, ops);
      var rs := Reservations(log);
      && |log| == |ops|
      && (rs == [] ==> w'.nonces.nonce == w.nonces.nonce && !w'.nonces.initialized)
      && (rs != [] ==>
            && i < |log| && log[i] == rs[0] && TakesNonce(rs[0]) && AnswerOf(ops[i]) == Some(rs[0].nonce)
            && forall k :: 0 <= k < i ==> !TakesNonce(log[k]))
  {
    i := 0;
    if ops != [] {
      hide Step, AnswerOf, TakesNonce;
      var last := |ops| - 1;
      var (w1, log) := Run(c, w, ops[..last]);
      i := FirstIsChainsAnswer(c, w, ops[..last]);
      ReservationsSnoc(log, Step(c, w1, ops[last]).1);
      NoneReserved(log);
      if Reservations(log) == [] {
        FreshStep(c, w1, ops[last]);
        i := last;
      }
    }
  }

  // After the last nonce of 64 bits comes nonce 0.
  lemma WrapsAround(c: Config, w: World, answer: Answer, answer': Answer)
    requires w.nonces.initialized && w.nonces.nonce == 18446744073709551615
    ensures var (w1, e1) := Step(c, w, Reserve(answer));
      var (w2, e2) := Step(c, w1, Reserve(answer'));
      e1 == Took(18446744073709551615) && e2 == Took(0) && w2.nonces.nonce == 1
  {
  }

  // ---------- pending nonces ----------

  // How a nonce is pending after some operations, by the last one that concerned it: reserved under no
  // hash, acknowledged under a hash, or not pending.
  function PendingAs(ops: seq<Op>, log: seq<Event>, nonce: nat): Option<string>
    requires |ops| == |log|
  {
    if log == [] then None
    else
      var op, e := ops[|ops| - 1], log[|log| - 1];
      if TakesNonce(e) && e.nonce == nonce then Some("")
      else if op.Acknowledge? && op.nonce == nonce then Some(op.hash)
      else if op.DropPending? && op.nonce == nonce then None
      else PendingAs(ops[..|ops| - 1], log[..|log| - 1], nonce)
  }

  lemma PendingStep(c: Config, w: World, op: Op, nonce: nat)
    ensures var (w', e) := Step(c, w, op);
      var before, after := w.nonces.pending, w'.nonces.pending;
      if TakesNonce(e) && e.nonce == nonce then nonce in after && after[nonce] == ""
      else if op.Acknowledge? && op.nonce == nonce then nonce in after && after[nonce] == op.hash
      else if op.DropPending? && op.nonce == nonce then nonce !in after
      else (nonce in after <==> nonce in before) && (nonce in after ==> after[nonce] == before[nonce])
  {
  }

  // In every run the pending map is decided, nonce by nonce, by the last operation that concerned it.
  lemma {:induction false} PendingThroughoutRuns(c: Config, w: World, ops: seq<Op>, nonce: nat)
    requires w.nonces.pending == map[]
    ensures var (w', log) := Run(c, w, ops);
      && |log| == |ops|
      && PendingAs(ops, log, nonce) ==
           if nonce in w'.nonces.pending then Some(w'.nonces.pending[nonce]) else None
  {
    if ops != [] {
      hide Step, TakesNonce;
      var last := |ops| - 1;
      var (w1, log) := Run(c, w, ops[..last]);
      PendingThroughoutRuns(c, w, ops[..last], nonce);
      PendingStep(c, w1, ops[last], nonce);
      assert (log + [Step(c, w1, ops[last]).1])[..last] == log;
    }
  }

  // ---------- windows of nonces ----------

  lemma DistinctModulo(a: nat, j: nat, k: nat)
    requires j < k && k - j < U64
    ensures (a + j) % U64 != (a + k) % U64
  {
  }

  // Hence no nonce is handed out twice in fewer than 2^64 reservations.
  lemma NeverRepeated(rs: seq<Event>, j: nat, k: nat)
    requires Consecutive(rs) && |rs| <= U64 && j < k < |rs|
    ensures rs[j].nonce != rs[k].nonce
  {
    DistinctModulo(rs[0].nonce, j, k);
  }

  // Short of a wrap-around, the nonces reported unavailable (below the counter) include every reserved
  // one, and the counter itself is still free.
  lemma ReservedUnavailable(w: World, log: seq<Event>, k: nat)
    requires NonceInv(w, log) && k < |Reservations(log)|
    requires Reservations(log)[0].nonce + |Reservations(log)| < U64
    ensures Reservations(log)[k].nonce < w.nonces.nonce
  {
  }

  lemma OffsetModulo(first: nat, a: nat)
    requires a < U64
    ensures (first + (a - first) % U64) % U64 == a
  {
  }

  lemma InWindow(rs: seq<Event>, a: nat)
    requires Consecutive(rs) && 0 < |rs| <= U64 && a < U64
    ensures (exists k :: 0 <= k < |rs| && rs[k].nonce == a) <==> (a - rs[0].nonce) % U64 < |rs|
  {
    var first := rs[0].nonce;
    var k := (a - first) % U64;
    OffsetModulo(first, a);
    if k < |rs| {
      assert rs[k].nonce == a;
    }
    forall j | 0 <= j < |rs| && rs[j].nonce == a ensures k < |rs| {
      if j < k {
        DistinctModulo(first, j, k);
      }
    }
  }

  lemma ShiftModulo(a: nat, j: nat, b: nat, k: nat)
    requires k <= j && b < U64 && (a + j) % U64 == (b + k) % U64
    ensures (a + (j - k)) % U64 == b
  {
  }

  ghost predicate Overlap(rs: seq<Event>, later: seq<Event>)
    requires Consecutive(rs) && Consecutive(later)
  {
    exists j, k :: 0 <= j < |rs| && 0 <= k < |later| && rs[j].nonce == later[k].nonce
  }

  // Two windows of consecutive nonces overlap exactly when one of them starts inside the other.
  lemma OverlapIff(rs: seq<Event>, later: seq<Event>)
    requires Consecutive(rs) && 0 < |rs| <= U64 && Consecutive(later) && 0 < |later| <= U64
    ensures Overlap(rs, later) <==>
      || (later[0].nonce - rs[0].nonce) % U64 < |rs|
      || (rs[0].nonce - later[0].nonce) % U64 < |later|
  {
    var a, b := rs[0].nonce, later[0].nonce;
    assert a == a % U64 && b == b % U64;
    InWindow(rs, b);
    InWindow(later, a);
    forall j, k | 0 <= j < |rs| && 0 <= k < |later| && rs[j].nonce == later[k].nonce
      ensures (b - a) % U64 < |rs| || (a - b) % U64 < |later|
    {
      if k <= j {
        ShiftModulo(a, j, b, k);
        assert rs[j - k].nonce == b;
      } else {
        ShiftModulo(b, k, a, j);
        assert later[k - j].nonce == a;
      }
    }
  }

  lemma OverlapFrom(rs: seq<Event>, later: seq<Event>, a: nat)
    requires Consecutive(rs) && 0 < |rs| <= U64 && Consecutive(later) && |later| <= U64
    requires later != [] ==> TakesNonce(later[0]) && later[0].nonce == a
    ensures Overlap(rs, later) <==>
      later != [] && ((a - rs[0].nonce) % U64 < |rs| || (rs[0].nonce - a) % U64 < |later|)
  {
    if later != [] {
      OverlapIff(rs, later);
    }
  }

  ghost predicate FromCounter(a: nat, w: World, log: seq<Event>) {
    var rs := Reservations(log);
    && w.nonces.initialized && w.nonces.nonce == (a + |rs|) % U64
    && (rs != [] ==> TakesNonce(rs[0]) && rs[0].nonce == a)
  }

  lemma FromCounterStep(c: Config, a: nat, w: World, log: seq<Event>, op: Op)
    requires a < U64 && FromCounter(a, w, log) && !op.Initialize?
    ensures var (w', e) := Step(c, w, op); FromCounter(a, w', log + [e])
  {
    hide Step, Reservations;
    NonceStep(c, w, op);
    ReservationsSnoc(log, Step(c, w, op).1);
    NextModulo(a, |Reservations(log)|);
  }

  // Once initialised, the nonces are reserved from the counter's value on.
  lemma {:induction false} ReservedFromCounter(c: Config, w: World, ops: seq<Op>)
    requires w.nonces.initialized && w.nonces.nonce < U64
    requires forall op :: op in ops ==> !op.Initialize?
    ensures FromCounter(w.nonces.nonce, Run(c, w, ops).0, Run(c, w, ops).1)
  {
    if ops != [] {
      hide Step, FromCounter;
      var (w1, log) := Run(c, w, ops[..|ops| - 1]);
      ReservedFromCounter(c, w, ops[..|ops| - 1]);
      FromCounterStep(c, w.nonces.nonce, w1, log, ops[|ops| - 1]);
    }
  }

  // The log of a run that follows re-initialising with the chain's answer a.
  function Reinitialised(c: Config, w: World, a: nat, ops: seq<Op>): seq<Event>
    requires a < U64
  {
    Run(c, Step(c, w, Initialize(Some(a))).0, ops).1
  }

  // Re-initialising from the chain breaks this exactly when the window handed out before and the one
  // handed out after overlap: the answer lies in the old window, or the old window's start in the new.
  lemma ReinitialisingRepeatsIff(c: Config, w: World, log: seq<Event>, a: nat, ops: seq<Op>)
    requires NonceInv(w, log) && a < U64 && 0 < |Reservations(log)| <= U64
    requires forall op :: op in ops ==> !op.Initialize?
    requires |Reservations(Reinitialised(c, w, a, ops))| <= U64
    ensures var rs, later := Reservations(log), Reservations(Reinitialised(c, w, a, ops));
      && Consecutive(rs) && Consecutive(later)
      && (Overlap(rs, later) <==>
            later != [] && ((a - rs[0].nonce) % U64 < |rs| || (rs[0].nonce - a) % U64 < |later|))
  {
    var w1 := Step(c, w, Initialize(Some(a))).0;
    assert w1.nonces.initialized && w1.nonces.nonce == a;
    hide Step, Run, Reservations, Overlap, Consecutive;
    ReservedConsecutively(c, w1, ops);
    ReservedFromCounter(c, w1, ops);
    OverlapFrom(Reservations(log), Reservations(Reinitialised(c, w, a, ops)), a);
  }

  // The chain answers 6 after 7 was handed out: the second reservation hands 7 out again.
  lemma LowAnswerRepeats(c: Config)
    ensures var w, log := World(NonceState(8, true, map[7 := ""]), map[]), [Took(7)];
      && NonceInv(w, log)
      && Reservations(Reinitialised(c, w, 6, [Reserve(None), Reserve(None)])) == [Took(6), Took(7)]
  {
    var w := World(NonceState(8, true, map[7 := ""]), map[]);
    ReservationsSnoc([], Took(7));
    assert [] + [Took(7)] == [Took(7)];
    var w1 := Step(c, w, Initialize(Some(6))).0;
    var ops := [Reserve(None), Reserve(None)];
    assert ops[..1] == [Reserve(None)] && ops[..1][..0] == [];
    assert Run(c, w1, ops[..1]).1 == [Took(6)];
    assert Run(c, w1, ops).1 == [Took(6), Took(7)];
    ReservationsSnoc([], Took(6));
    ReservationsSnoc([Took(6)], Took(7));
    assert [] + [Took(6)] == [Took(6)] && [Took(6)] + [Took(7)] == [Took(6), Took(7)];
  }

  // ---------- replacements ----------

  predicate IsReplacementOf(e: Event, hash: string) {
    e.Replaced? && e.hash == hash
  }

  predicate IsAttemptOf(e: Event, hash: string) {
    IsReplacementOf(e, hash) || (e.Counted? && e.hash == hash)
  }

  // Replacements of a hash since it was last cleared.
  function SinceClear(log: seq<Event>, hash: string): nat {
    if log == [] then 0
    else
      var last := log[|log| - 1];
      if last == ClearedOf(hash) then 0
      else SinceClear(log[..|log| - 1], hash) + if IsReplacementOf(last, hash) then 1 else 0
  }

  // Attempts, the recorded ones included.
  function AttemptsSinceClear(log: seq<Event>, hash: string): nat {
    if log == [] then 0
    else
      var last := log[|log| - 1];
      if last == ClearedOf(hash) then 0
      else AttemptsSinceClear(log[..|log| - 1], hash) + if IsAttemptOf(last, hash) then 1 else 0
  }

  predicate CallersNonce(e: Event, hash: string) {
    IsReplacementOf(e, hash) && e.origin == Caller
  }

  // Since event i the hash was not cleared and no caller's nonce overwrote the tracked one.
  ghost predicate KeptSince(log: seq<Event>, hash: string, i: nat) {
    forall m :: i < m < |log| ==> log[m] != ClearedOf(hash) && !CallersNonce(log[m], hash)
  }

  // The hash got no nonce from elsewhere: neither a caller's nor the zero of an attempt recorded unknown.
  ghost predicate OnlyReserved(log: seq<Event>, hash: string) {
    forall m :: 0 <= m < |log| ==> !CallersNonce(log[m], hash) && log[m] != Event.Counted(hash, true)
  }

  // The replacement's nonce was reserved for its own hash.
  ghost predicate OwnNonce(rs: seq<Event>, hash: string, nonce: nat) {
    exists k :: 0 <= k < |rs| && IsReplacementOf(rs[k], hash) && rs[k].nonce == nonce
  }

  function AttemptBound(c: Config): nat {
    if c.max > 1 then c.max else 1
  }

  ghost predicate CountInv(c: Config, w: World, log: seq<Event>, hash: string) {
    && AttemptsSinceClear(log, hash) == (if hash in w.txs then w.txs[hash].attempts else 0)
    && (hash in w.txs ==> w.txs[hash].attempts >= 1)
    && SinceClear(log, hash) <= AttemptsSinceClear(log, hash)
    && SinceClear(log, hash) <= AttemptBound(c)
  }

  // The event fixes the nonce a hash is tracked with: a replacement's own, zero for an attempt recorded unknown.
  predicate FixesNonce(e: Event, hash: string) {
    IsReplacementOf(e, hash) || e == Event.Counted(hash, true)
  }

  function FixedNonce(e: Event): nat {
    if e.Replaced? then e.nonce else 0
  }

  ghost predicate KeepInv(w: World, log: seq<Event>, hash: string) {
    forall i :: 0 <= i < |log| && FixesNonce(log[i], hash) && KeptSince(log, hash, i) ==>
      hash in w.txs && FixedNonce(log[i]) == w.txs[hash].nonce
  }

  ghost predicate OwnInv(w: World, log: seq<Event>, hash: string) {
    && (hash in w.txs ==> OwnNonce(Reservations(log), hash, w.txs[hash].nonce))
    && (forall i :: 0 <= i < |log| && IsReplacementOf(log[i], hash) ==> OwnNonce(Reservations(log), hash, log[i].nonce))
  }

  // What one step does to a hash.
  lemma TrackStep(c: Config, w: World, op: Op, hash: string)
    ensures var (w', e) := Step(c, w, op);
      if IsReplacementOf(e, hash) then
        && hash in w'.txs && w'.txs[hash].nonce == e.nonce
        && w'.txs[hash].attempts == 1 + (if hash in w.txs then w.txs[hash].attempts else 0)
        && (hash in w.txs ==> w.txs[hash].attempts < c.max)
        && (e.origin == Fresh ==> hash !in w.txs)
        && (e.origin == Tracked ==> hash in w.txs && w.txs[hash].nonce == e.nonce)
      else if e.Counted? && e.hash == hash then
        && e.unknown == (hash !in w.txs)
        && hash in w'.txs && w'.txs[hash].nonce == (if hash in w.txs then w.txs[hash].nonce else 0)
        && w'.txs[hash].attempts == 1 + (if hash in w.txs then w.txs[hash].attempts else 0)
      else if e == ClearedOf(hash) then hash !in w'.txs
      else (hash in w'.txs <==> hash in w.txs) && (hash in w.txs ==> w'.txs[hash] == w.txs[hash])
  {
  }

  lemma SinceClearSnoc(log: seq<Event>, e: Event, hash: string)
    ensures SinceClear(log + [e], hash) ==
      if e == ClearedOf(hash) then 0 else SinceClear(log, hash) + if IsReplacementOf(e, hash) then 1 else 0
    ensures AttemptsSinceClear(log + [e], hash) ==
      if e == ClearedOf(hash) then 0 else AttemptsSinceClear(log, hash) + if IsAttemptOf(e, hash) then 1 else 0
  {
    assert (log + [e])[..|log|] == log;
  }

  lemma OwnNonceGrows(rs: seq<Event>, more: seq<Event>, hash: string, nonce: nat)
    requires OwnNonce(rs, hash, nonce)
    ensures OwnNonce(rs + more, hash, nonce)
  {
    var k :| 0 <= k < |rs| && IsReplacementOf(rs[k], hash) && rs[k].nonce == nonce;
    assert (rs + more)[k] == rs[k];
  }

  lemma KeptBefore(log: seq<Event>, e: Event, hash: string, i: nat)
    requires i < |log| && KeptSince(log + [e], hash, i)
    ensures KeptSince(log, hash, i) && e != ClearedOf(hash) && !CallersNonce(e, hash)
  {
    var longer := log + [e];
    assert longer[|log|] == e;
    forall m | i < m < |log| ensures log[m] != ClearedOf(hash) && !CallersNonce(log[m], hash) {
      assert longer[m] == log[m];
    }
  }

  lemma OnlyReservedBefore(log: seq<Event>, e: Event, hash: string)
    requires OnlyReserved(log + [e], hash)
    ensures OnlyReserved(log, hash) && !CallersNonce(e, hash) && e != Event.Counted(hash, true)
  {
    var longer := log + [e];
    assert longer[|log|] == e;
    forall m | 0 <= m < |log| ensures !CallersNonce(log[m], hash) && log[m] != Event.Counted(hash, true) {
      assert longer[m] == log[m];
    }
  }

  lemma CountInvStep(c: Config, w: World, log: seq<Event>, op: Op, hash: string)
    requires CountInv(c, w, log, hash)
    ensures var (w', e) := Step(c, w, op); CountInv(c, w', log + [e], hash)
  {
    hide Step;
    TrackStep(c, w, op, hash);
    SinceClearSnoc(log, Step(c, w, op).1, hash);
  }

  lemma KeepInvStep(c: Config, w: World, log: seq<Event>, op: Op, hash: string)
    requires KeepInv(w, log, hash)
    ensures var (w', e) := Step(c, w, op); KeepInv(w', log + [e], hash)
  {
    hide Step, KeptSince;
    var (w', e) := Step(c, w, op);
    var log' := log + [e];
    TrackStep(c, w, op, hash);
    forall i | 0 <= i < |log'| && FixesNonce(log'[i], hash) && KeptSince(log', hash, i)
      ensures hash in w'.txs && FixedNonce(log'[i]) == w'.txs[hash].nonce
    {
      if i < |log| {
        KeptBefore(log, e, hash, i);
      }
    }
  }

  lemma FreshIsOwn(rs: seq<Event>, e: Event)
    requires e.Replaced?
    ensures OwnNonce(rs + [e], e.hash, e.nonce)
  {
    assert (rs + [e])[|rs|] == e;
  }

  lemma OwnInvStep(c: Config, w: World, log: seq<Event>, op: Op, hash: string)
    requires OwnInv(w, log, hash)
    requires var e := Step(c, w, op).1; !CallersNonce(e, hash) && e != Event.Counted(hash, true)
    ensures var (w', e) := Step(c, w, op); OwnInv(w', log + [e], hash)
  {
    hide Step, Reservations, OwnNonce;
    var (w', e) := Step(c, w, op);
    var log' := log + [e];
    TrackStep(c, w, op, hash);
    ReservationsSnoc(log, e);
    var added := if TakesNonce(e) then [e] else [];
    assert Reservations(log') == Reservations(log) + added;
    if IsReplacementOf(e, hash) && e.origin == Fresh {
      FreshIsOwn(Reservations(log), e);
    }
    forall nonce | OwnNonce(Reservations(log), hash, nonce) ensures OwnNonce(Reservations(log'), hash, nonce) {
      OwnNonceGrows(Reservations(log), added, hash, nonce);
    }
  }

  lemma {:induction false} CountedThroughoutRuns(c: Config, w: World, ops: seq<Op>, hash: string)
    requires w.txs == map[]
    ensures CountInv(c, Run(c, w, ops).0, Run(c, w, ops).1, hash)
  {
    if ops != [] {
      CountedThroughoutRuns(c, w, ops[..|ops| - 1], hash);
      var (w1, log) := Run(c, w, ops[..|ops| - 1]);
      CountInvStep(c, w1, log, ops[|ops| - 1], hash);
    }
  }

  lemma {:induction false} KeptThroughoutRuns(c: Config, w: World, ops: seq<Op>, hash: string)
    requires w.txs == map[]
    ensures KeepInv(Run(c, w, ops).0, Run(c, w, ops).1, hash)
  {
    if ops != [] {
      KeptThroughoutRuns(c, w, ops[..|ops| - 1], hash);
      var (w1, log) := Run(c, w, ops[..|ops| - 1]);
      KeepInvStep(c, w1, log, ops[|ops| - 1], hash);
    }
  }

  lemma NothingOwned(w: World, hash: string)
    requires w.txs == map[]
    ensures OwnInv(w, [], hash)
  {
  }

  lemma {:induction false} OwnThroughoutRuns(c: Config, w: World, ops: seq<Op>, hash: string)
    requires w.txs == map[] && OnlyReserved(Run(c, w, ops).1, hash)
    ensures OwnInv(Run(c, w, ops).0, Run(c, w, ops).1, hash)
  {
    hide Step, OwnInv, OnlyReserved;
    if ops == [] {
      NothingOwned(w, hash);
    } else {
      var (w1, log) := Run(c, w, ops[..|ops| - 1]);
      OnlyReservedBefore(log, Step(c, w1, ops[|ops| - 1]).1, hash);
      OwnThroughoutRuns(c, w, ops[..|ops| - 1], hash);
      OwnInvStep(c, w1, log, ops[|ops| - 1], hash);
    }
  }

  // ---------- main results ----------

  // At most max (at least one) replacements are issued for a hash between clears, in every run.
  lemma AttemptsBounded(c: Config, w: World, ops: seq<Op>, hash: string)
    requires w.txs == map[]
    ensures SinceClear(Run(c, w, ops).1, hash) <= if c.max > 1 then c.max else 1
  {
    CountedThroughoutRuns(c, w, ops, hash);
  }

  // And no fewer: in every run, while the chain answers, a replacement is issued exactly when no
  // attempt was counted since the last clear or fewer than max were.
  lemma ReplacementIssuedIff(c: Config, w: World, ops: seq<Op>, hash: string, fees: Fees, nonce: nat, now: int)
    requires w.txs == map[] && nonce < U64
    ensures var (w1, log) := Run(c, w, ops);
      var e := Step(c, w1, Replace(hash, Some(fees), Some(nonce), now)).1;
      e.Replaced? <==> AttemptsSinceClear(log, hash) == 0 || AttemptsSinceClear(log, hash) < c.max
  {
    hide Run, AttemptsSinceClear;
    CountedThroughoutRuns(c, w, ops, hash);
  }

  // The log of a prefix of the operations is a prefix of the log.
  lemma {:induction false} RunPrefix(c: Config, w: World, ops: seq<Op>, k: nat)
    requires k <= |Run(c, w, ops).1|
    ensures |Run(c, w, ops).1| == |ops| && Run(c, w, ops[..k]).1 == Run(c, w, ops).1[..k]
    decreases |ops|
  {
    if k == |ops| {
      assert ops[..k] == ops;
      if ops != [] {
        RunPrefix(c, w, ops[..k - 1], 0);
      }
    } else if ops != [] {
      var init := ops[..|ops| - 1];
      RunPrefix(c, w, init, 0);
      RunPrefix(c, w, init, k);
      assert init[..k] == ops[..k];
    }
  }

  // What fixed a hash's nonce fixes it for every replacement until the hash is cleared or a caller's nonce
  // overwrites it.
  lemma NonceKept(c: Config, w: World, ops: seq<Op>, hash: string, i: nat, j: nat)
    requires w.txs == map[]
    requires var log := Run(c, w, ops).1;
      && i < j < |log| && FixesNonce(log[i], hash) && IsReplacementOf(log[j], hash)
      && KeptSince(log[..j + 1], hash, i)
    ensures var log := Run(c, w, ops).1; log[j].nonce == FixedNonce(log[i])
  {
    var log := Run(c, w, ops).1;
    RunPrefix(c, w, ops, j + 1);
    KeptThroughoutRuns(c, w, ops[..j + 1], hash);
    assert log[..j + 1][i] == log[i] && log[..j + 1][j] == log[j];
    assert KeptSince(log[..j + 1], hash, j);
  }

  // So all replacements of a hash share one nonce until then.
  lemma ReplacementsShareNonce(c: Config, w: World, ops: seq<Op>, i: nat, j: nat)
    requires w.txs == map[]
    requires var log := Run(c, w, ops).1;
      && i < j < |log| && log[i].Replaced? && IsReplacementOf(log[j], log[i].hash)
      && KeptSince(log[..j + 1], log[i].hash, i)
    ensures var log := Run(c, w, ops).1; log[i].nonce == log[j].nonce
  {
    hide Run, KeptSince;
    NonceKept(c, w, ops, Run(c, w, ops).1[i].hash, i, j);
  }

  // RecordAttempt's comment promises a nonce from the nonce manager.  The code leaves zero: from an attempt
  // recorded for an untracked hash until then, every replacement of the hash uses nonce 0.
  lemma RecordedUsesZero(c: Config, w: World, ops: seq<Op>, hash: string, i: nat, j: nat)
    requires w.txs == map[]
    requires var log := Run(c, w, ops).1;
      && i < j < |log| && log[i] == Event.Counted(hash, true) && IsReplacementOf(log[j], hash)
      && KeptSince(log[..j + 1], hash, i)
    ensures Run(c, w, ops).1[j].nonce == 0
  {
    hide Run, KeptSince;
    NonceKept(c, w, ops, hash, i, j);
  }

  // Two hashes recorded so share it.
  lemma RecordedHashesShareZero(c: Config, w: World, ops: seq<Op>, hash: string, hash': string,
                                i: nat, j: nat, i': nat, j': nat)
    requires w.txs == map[]
    requires var log := Run(c, w, ops).1;
      && i < j < |log| && log[i] == Event.Counted(hash, true) && IsReplacementOf(log[j], hash)
      && KeptSince(log[..j + 1], hash, i)
      && i' < j' < |log| && log[i'] == Event.Counted(hash', true) && IsReplacementOf(log[j'], hash')
      && KeptSince(log[..j' + 1], hash', i')
    ensures var log := Run(c, w, ops).1; log[j].nonce == log[j'].nonce == 0
  {
    hide Run, KeptSince;
    RecordedUsesZero(c, w, ops, hash, i, j);
    RecordedUsesZero(c, w, ops, hash', i', j');
  }

  // Without re-initialisation, different hashes never share a nonce, clears or not, as long as each got
  // its nonces from the nonce manager alone; what happens to other hashes does not matter.
  lemma HashesNeverShareNonce(c: Config, w: World, ops: seq<Op>, i: nat, j: nat)
    requires w.nonces.nonce < U64 && w.txs == map[] && forall op :: op in ops ==> !op.Initialize?
    requires var log := Run(c, w, ops).1;
      && |Reservations(log)| <= U64
      && i < |log| && j < |log| && log[i].Replaced? && log[j].Replaced? && log[i].hash != log[j].hash
      && OnlyReserved(log, log[i].hash) && OnlyReserved(log, log[j].hash)
    ensures var log := Run(c, w, ops).1; log[i].nonce != log[j].nonce
  {
    hide Run, Reservations, OnlyReserved;
    var log := Run(c, w, ops).1;
    OwnThroughoutRuns(c, w, ops, log[i].hash);
    OwnThroughoutRuns(c, w, ops, log[j].hash);
    ReservedConsecutively(c, w, ops);
    var rs := Reservations(log);
    var p :| 0 <= p < |rs| && IsReplacementOf(rs[p], log[i].hash) && rs[p].nonce == log[i].nonce;
    var q :| 0 <= q < |rs| && IsReplacementOf(rs[q], log[j].hash) && rs[q].nonce == log[j].nonce;
    if p < q {
      NeverRepeated(rs, p, q);
    } else {
      NeverRepeated(rs, q, p);
    }
  }

  // The next replacement after a recorded attempt uses the tracked nonce if there was one and else nonce 0,
  // whatever the nonce manager holds, and takes nothing from it.
  lemma RecordedHashKeepsItsNonce(c: Config, w: World, hash: string, fees: Fees, answer: Answer, now: int)
    requires (if hash in w.txs then w.txs[hash].attempts else 0) + 1 < c.max
    ensures var recorded := Step(c, w, Record(hash, now)).0;
      var (w', e) := Step(c, recorded, Replace(hash, Some(fees), answer, now));
      && e == Replaced(hash, if hash in w.txs then w.txs[hash].nonce else 0, Tracked)
      && w'.nonces == w.nonces
  {
  }

  lemma BumpedNoLess(fee: nat, percent: nat)
    requires percent >= 100
    ensures Bumped(fee, percent) >= fee
  {
    assert fee * percent == fee * 100 + fee * (percent - 100);
    assert fee * (percent - 100) >= 0;
  }

  // A bid is the suggested fee at the configured percentage, rounded down: never a whole unit below it.
  predicate BidAt(bid: int, fee: int, percent: int) {
    100 * bid <= percent * fee < 100 * bid + 100
  }

  lemma BumpedBid(fee: int, percent: int)
    ensures BidAt(Bumped(fee, percent), fee, percent)
  {
    var n := fee * percent;
    assert n == percent * fee;
  }

  // For either kind of attempt, whatever the percentage and the fees: both fees of a replacement are so bid.
  lemma BidsAtPercentage(w: World, max: int, percent: int, hash: string, fees: Fees, answer: Answer,
                         nonce: nat, now: int)
    ensures var r := Attempt(w, max, percent, hash, Some(fees), answer, now).1;
      r.Ok? ==> BidAt(r.value.baseFee, fees.base, percent) && BidAt(r.value.priority, fees.tip, percent)
    ensures var r := AttemptWithOriginal(w, max, percent, hash, Some(fees), nonce, now).1;
      r.Ok? ==> BidAt(r.value.baseFee, fees.base, percent) && BidAt(r.value.priority, fees.tip, percent)
  {
    BumpedBid(fees.base, percent);
    BumpedBid(fees.tip, percent);
    hide Bumped, BidAt;
  }

  function AttemptsOf(w: World, hash: string): nat {
    if hash in w.txs then w.txs[hash].attempts else 0
  }

  // The attempt with the original transaction: issued exactly while the chain answers and attempts are left,
  // with the caller's nonce, under which the hash is tracked from then on; nothing is reserved.
  lemma OriginalUsesCallersNonce(c: Config, w: World, hash: string, fees: Option<Fees>, nonce: nat, now: int)
    ensures var (w', e) := Step(c, w, ReplaceOriginal(hash, fees, nonce, now));
      && (e.Replaced? <==> fees.Some? && (hash in w.txs ==> w.txs[hash].attempts < c.max))
      && (e.Replaced? ==>
            && e == Replaced(hash, nonce, Caller)
            && w'.txs == w.txs[hash := TxState(nonce, 1 + AttemptsOf(w, hash), now)] && w'.nonces == w.nonces)
      && (!e.Replaced? ==> w' == w)
  {
  }

  // The same of the other two bookkeeping operations: the attempt is counted and stamped, or nothing changes.
  lemma AttemptsAreStamped(c: Config, w: World, hash: string, fees: Option<Fees>, answer: Answer, now: int)
    ensures var (w', e) := Step(c, w, Replace(hash, fees, answer, now));
      && (e.Replaced? <==>
            && fees.Some?
            && (hash in w.txs ==> w.txs[hash].attempts < c.max)
            && (hash !in w.txs ==> w.nonces.initialized || answer.Some?))
      && (e.Replaced? ==> w'.txs == w.txs[hash := TxState(e.nonce, 1 + AttemptsOf(w, hash), now)])
      && (!e.Replaced? ==> w' == w)
    ensures var (w', e) := Step(c, w, Record(hash, now));
      var nonce := if hash in w.txs then w.txs[hash].nonce else 0;
      w' == w.(txs := w.txs[hash := TxState(nonce, 1 + AttemptsOf(w, hash), now)])
  {
  }

  // Both attempts fail for want of attempts exactly when none is left, whatever the chain answers.
  lemma LimitComesFirst(w: World, max: int, percent: int, hash: string, fees: Option<Fees>, answer: Answer,
                        nonce: nat, now: int)
    ensures var none := hash in w.txs && w.txs[hash].attempts >= max;
      && (Attempt(w, max, percent, hash, fees, answer, now).1 == Err(MaxAttemptsExceeded) <==> none)
      && (AttemptWithOriginal(w, max, percent, hash, fees, nonce, now).1 == Err(MaxAttemptsExceeded) <==> none)
  {
  }

  // A failed query leaves the nonce manager alone; an answer to an initialisation replaces the counter only.
  lemma QueriesAndTheCounter(c: Config, w: World, answer: Answer)
    ensures Step(c, w, Initialize(None)) == (w, Quiet)
    ensures !w.nonces.initialized ==> Step(c, w, Reserve(None)) == (w, Quiet)
    ensures answer.Some? ==>
      Step(c, w, Initialize(answer)).0 == w.(nonces := NonceState(answer.value, true, w.nonces.pending))
  {
  }

  // When no limit is configured it is three attempts.
  lemma ThreeAttemptsByDefault(configured: int)
    ensures MaxAttempts(configured) == if configured == 0 then 3 else configured
  {
  }

  // With the factor the configuration gives for any non-negative increase, a replacement never bids less.
  lemma ReplacementOutbids(w: World, max: int, percent: int, hash: string, fees: Fees, answer: Answer, now: int)
    requires percent >= 100 && fees.base >= 0 && fees.tip >= 0
    ensures var (_, r) := Attempt(w, max, percent, hash, Some(fees), answer, now);
      r.Ok? ==> r.value.baseFee >= fees.base && r.value.priority >= fees.tip
  {
    BumpedNoLess(fees.base, percent);
    BumpedNoLess(fees.tip, percent);
  }
}

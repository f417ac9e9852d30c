/**
 The allocation manager as an admission controller: a candidate position is saved only when both
 snapshot checks pass.  Amounts are decimals; the exposure share is a rounded quotient.
 */
module Allocation {
  import opened Decimals
  import opened RealMath

  datatype Tier = TierA | TierB | TierC | UnknownTier

  datatype Status = Intended | Approved | Rejected | Opening | Open | Exiting | Closed | ExitFailed | Manual

  datatype Position = Position(pool: string, chain: int, tier: Tier, amount: real, status: Status)

  datatype Candidate = Candidate(pool: string, chain: int, tier: Tier, amount: real)

  datatype Config = Config(totalCapital: real, limitA: real, limitB: real, limitC: real, maxExposure: real)

  datatype Reason = OK | OverPoolLimit | OverTotalExposure | RepoError | NoTierLimit

  // What the repository answers: it may be absent, and a query may fail.
  datatype Reply = NoRepo | Failed | Positions(found: seq<Position>)

  function Limit(c: Config, tier: Tier): real {
    match tier
    case TierA => c.limitA
    case TierB => c.limitB
    case TierC => c.limitC
    case UnknownTier => 0.0
  }

  function Total(ps: seq<Position>): real {
    if ps == [] then 0.0 else Total(ps[..|ps| - 1]) + ps[|ps| - 1].amount
  }

  function ExposureShare(c: Config, total: real): real {
    DivOrZero(total, c.totalCapital)
  }

  predicate PoolAllows(c: Config, x: Candidate, inPool: seq<Position>) {
    Limit(c, x.tier) != 0.0 && Total(inPool) + x.amount <= Limit(c, x.tier)
  }

  predicate ExposureAllows(c: Config, x: Candidate, open: seq<Position>) {
    ExposureShare(c, Total(open) + x.amount) <= c.maxExposure
  }

  class AllocationManager {
    const config: Config

    constructor (config: Config)
      ensures this.config == config
    {
      this.config := config;
    }

    method Sum(ps: seq<Position>) returns (total: real)
      ensures total == Total(ps)
    {
      total := 0.0;
      for i := 0 to |ps|
        invariant total == Total(ps[..i])
      {
        assert ps[..i + 1][..i] == ps[..i];
        total := total + ps[i].amount;
      }
      assert ps[..|ps|] == ps;
    }

    // Every failure refuses the candidate.
    method CheckAllocationWithSnapshot(c: Candidate, reply: Reply) returns (allowed: bool, reason: Reason)
      ensures allowed <==> reason == OK
      ensures allowed <==> !reply.Failed? && PoolAllows(config, c, if reply.Positions? then reply.found else [])
      ensures var total := Total(if reply.Positions? then reply.found else []) + c.amount;
        match c.tier
        case TierA => allowed <==> !reply.Failed? && config.limitA != 0.0 && total <= config.limitA
        case TierB => allowed <==> !reply.Failed? && config.limitB != 0.0 && total <= config.limitB
        case TierC => allowed <==> !reply.Failed? && config.limitC != 0.0 && total <= config.limitC
        case UnknownTier => !allowed
      ensures reason == NoTierLimit <==> Limit(config, c.tier) == 0.0
      ensures reason == RepoError <==> Limit(config, c.tier) != 0.0 && reply.Failed?
    {
      var limit := Limit(config, c.tier);
      if limit == 0.0 {
        return false, NoTierLimit;
      }
      var existingTotal := 0.0;
      if reply != NoRepo {
        if reply.Failed? {
          return false, RepoError;
        }
        existingTotal := Sum(reply.found);
      }
      var newTotal := existingTotal + c.amount;
      if newTotal > limit {
        return false, OverPoolLimit;
      }
      return true, OK;
    }

    method CheckTotalExposureWithSnapshot(c: Candidate, reply: Reply) returns (allowed: bool, reason: Reason)
      ensures allowed <==> reason == OK
      ensures allowed <==> !reply.Failed? && ExposureAllows(config, c, if reply.Positions? then reply.found else [])
      ensures config.totalCapital == 0.0 ==> (allowed <==> !reply.Failed? && config.maxExposure >= 0.0)
      ensures reason == RepoError <==> reply.Failed?
    {
      var currentExposure := 0.0;
      if reply != NoRepo {
        if reply.Failed? {
          return false, RepoError;
        }
        currentExposure := Sum(reply.found);
      }
      var newTotal := currentExposure + c.amount;
      var exposurePct := 0.0;
      if config.totalCapital != 0.0 {
        exposurePct := Quotient(newTotal, config.totalCapital);
      }
      if exposurePct > config.maxExposure {
        return false, OverTotalExposure;
      }
      return true, OK;
    }
  }

  // ---------- the store ----------

  // The pool snapshot has no status filter: closed positions count as well.
  function InPool(store: seq<Position>, pool: string): seq<Position> {
    if store == [] then []
    else
      var init, last := InPool(store[..|store| - 1], pool), store[|store| - 1];
      if last.pool == pool then init + [last] else init
  }

  function OpenOnChain(store: seq<Position>, chain: int): seq<Position> {
    if store == [] then []
    else
      var init, last := OpenOnChain(store[..|store| - 1], chain), store[|store| - 1];
      if last.chain == chain && last.status == Open then init + [last] else init
  }

  // ---------- runs ----------

  // A candidate saved with a status once admitted, or a change of a stored position's status: any
  // change, so the transitions the domain allows are among them.
  datatype Op = Admit(candidate: Candidate, status: Status) | Move(index: nat, status: Status)

  predicate Admitted(c: Config, store: seq<Position>, x: Candidate) {
    PoolAllows(c, x, InPool(store, x.pool)) && ExposureAllows(c, x, OpenOnChain(store, x.chain))
  }

  function Apply(c: Config, store: seq<Position>, op: Op): seq<Position> {
    match op
    case Admit(x, status) =>
      if Admitted(c, store, x) then store + [Position(x.pool, x.chain, x.tier, x.amount, status)] else store
    case Move(i, status) =>
      if i < |store| then store[i := store[i].(status := status)] else store
  }

  function Run(c: Config, ops: seq<Op>): seq<Position> {
    if ops == [] then [] else Apply(c, Run(c, ops[..|ops| - 1]), ops[|ops| - 1])
  }

  function PoolTotal(store: seq<Position>, pool: string): real {
    Total(InPool(store, pool))
  }

  function ChainExposure(store: seq<Position>, chain: int): real {
    Total(OpenOnChain(store, chain))
  }

  lemma TotalSnoc(ps: seq<Position>, p: Position)
    ensures Total(ps + [p]) == Total(ps) + p.amount
  {
    assert (ps + [p])[..|ps|] == ps;
  }

  lemma TotalsSnoc(store: seq<Position>, p: Position, pool: string, chain: int)
    ensures PoolTotal(store + [p], pool) == PoolTotal(store, pool) + if p.pool == pool then p.amount else 0.0
    ensures ChainExposure(store + [p], chain)
         == ChainExposure(store, chain) + if p.chain == chain && p.status == Open then p.amount else 0.0
  {
    assert (store + [p])[..|store|] == store;
    TotalSnoc(InPool(store, pool), p);
    TotalSnoc(OpenOnChain(store, chain), p);
  }

  // Changing one status leaves every pool's total alone and moves one position in or out of the exposure.
  lemma {:induction false} TotalsMove(store: seq<Position>, i: nat, status: Status, pool: string, chain: int)
    requires i < |store|
    ensures var moved := store[i := store[i].(status := status)];
      && PoolTotal(moved, pool) == PoolTotal(store, pool)
      && ChainExposure(moved, chain) == ChainExposure(store, chain)
           + (if store[i].chain == chain && status == Open then store[i].amount else 0.0)
           - (if store[i].chain == chain && store[i].status == Open then store[i].amount else 0.0)
  {
    hide PoolTotal, ChainExposure;
    var n := |store| - 1;
    var moved := store[i := store[i].(status := status)];
    assert store == store[..n] + [store[n]];
    TotalsSnoc(store[..n], store[n], pool, chain);
    if i == n {
      assert moved == store[..n] + [moved[n]];
      TotalsSnoc(store[..n], moved[n], pool, chain);
    } else {
      TotalsMove(store[..n], i, status, pool, chain);
      var init := store[..n][i := store[i].(status := status)];
      assert moved == init + [store[n]];
      TotalsSnoc(init, store[n], pool, chain);
    }
  }

  // ---------- main results ----------

  // The exposure that the check lets pass: the rounded share exceeds the maximum only from half a unit on.
  function ExposureCap(c: Config): real {
    (c.maxExposure + HALF_UNIT) * c.totalCapital
  }

  function AtLeastZero(x: real): real {
    if x < 0.0 then 0.0 else x
  }

  // A pool's total is at most its tier's configured limit, or nothing at all.
  predicate PoolWithin(c: Config, total: real, tier: Tier) {
    total <= 0.0 || match tier
      case TierA => total <= c.limitA
      case TierB => total <= c.limitB
      case TierC => total <= c.limitC
      case UnknownTier => false
  }

  lemma PoolWithinLimit(c: Config, total: real, tier: Tier)
    ensures PoolWithin(c, total, tier) <==> total <= AtLeastZero(Limit(c, tier))
  {
  }

  ghost predicate WithinLimits(c: Config, store: seq<Position>, tierOf: string -> Tier) {
    && (forall pool :: PoolWithin(c, PoolTotal(store, pool), tierOf(pool)))
    && (forall chain :: ChainExposure(store, chain) <= AtLeastZero(ExposureCap(c)))
  }

  // A candidate carries the tier of its pool.
  predicate OwnTier(op: Op, tierOf: string -> Tier) {
    op.Admit? ==> op.candidate.tier == tierOf(op.candidate.pool)
  }

  // What a status change adds to the open exposure of the position's chain.
  function Raise(store: seq<Position>, i: nat, status: Status): real
    requires i < |store|
  {
    (if status == Open then store[i].amount else 0.0) - (if store[i].status == Open then store[i].amount else 0.0)
  }

  // A status change that raises its chain's exposure has room for it: the check nobody makes.
  predicate HasRoom(c: Config, store: seq<Position>, op: Op) {
    op.Move? && op.index < |store| && Raise(store, op.index, op.status) > 0.0 ==>
      ChainExposure(store, store[op.index].chain) + Raise(store, op.index, op.status) <= AtLeastZero(ExposureCap(c))
  }

  lemma ShareAgainst(c: Config, total: real, share: real)
    requires c.totalCapital > 0.0
    ensures total / c.totalCapital <= share <==> total <= share * c.totalCapital
    ensures total / c.totalCapital < share <==> total < share * c.totalCapital
  {
    var x := total / c.totalCapital;
    assert x * c.totalCapital == total;
    MulOrder(x, share, c.totalCapital);
  }

  lemma ShareWithin(c: Config, total: real)
    requires c.totalCapital > 0.0
    ensures ExposureShare(c, total) <= c.maxExposure ==> total <= ExposureCap(c)
  {
    RoundedNear(total / c.totalCapital);
    ShareAgainst(c, total, c.maxExposure + HALF_UNIT);
  }

  // For a maximum of at most sixteen fractional digits the cap is exact: a total passes exactly below it.
  lemma ShareWithinIff(c: Config, total: real)
    requires c.totalCapital > 0.0 && c.maxExposure >= 0.0 && OnGrid(c.maxExposure)
    ensures ExposureShare(c, total) <= c.maxExposure <==> total < ExposureCap(c)
  {
    RoundedAtMost(total / c.totalCapital, c.maxExposure);
    ShareAgainst(c, total, c.maxExposure + HALF_UNIT);
  }

  // With the default configuration a total above 30 % of the capital passes.
  lemma RoundingAdmitsMore()
    ensures var c := Config(1000.0, 1000.0, 200.0, 50.0, 0.3);
      var total := 300.00000000000004;
      total > c.maxExposure * c.totalCapital && ExposureShare(c, total) <= c.maxExposure
  {
    assert Units(3000000000000000) == 0.3;
    UnitsOnGrid(3000000000000000);
    ShareWithinIff(Config(1000.0, 1000.0, 200.0, 50.0, 0.3), 300.00000000000004);
  }

  lemma AdmittedFits(c: Config, store: seq<Position>, x: Candidate)
    requires c.totalCapital > 0.0
    ensures Admitted(c, store, x) ==>
      && PoolTotal(store, x.pool) + x.amount <= Limit(c, x.tier)
      && ChainExposure(store, x.chain) + x.amount <= ExposureCap(c)
  {
    ShareWithin(c, ChainExposure(store, x.chain) + x.amount);
  }

  // With a limit for its tier and a maximum of at most sixteen digits, a candidate is admitted exactly when
  // the pool's limit holds with it and the chain's exposure stays below the cap.
  lemma AdmittedIff(c: Config, store: seq<Position>, x: Candidate)
    requires c.totalCapital > 0.0 && c.maxExposure >= 0.0 && OnGrid(c.maxExposure)
    ensures Admitted(c, store, x) <==>
      && ChainExposure(store, x.chain) + x.amount < (c.maxExposure + HALF_UNIT) * c.totalCapital
      && match x.tier
         case TierA => c.limitA != 0.0 && PoolTotal(store, x.pool) + x.amount <= c.limitA
         case TierB => c.limitB != 0.0 && PoolTotal(store, x.pool) + x.amount <= c.limitB
         case TierC => c.limitC != 0.0 && PoolTotal(store, x.pool) + x.amount <= c.limitC
         case UnknownTier => false
  {
    hide OnGrid, ExposureShare;
    ShareWithinIff(c, ChainExposure(store, x.chain) + x.amount);
  }

  lemma TotalsAfter(c: Config, store: seq<Position>, op: Op, pool: string, chain: int)
    ensures var next := Apply(c, store, op);
      match op
      case Admit(x, status) =>
        var a := if Admitted(c, store, x) then x.amount else 0.0;
        && PoolTotal(next, pool) == PoolTotal(store, pool) + (if x.pool == pool then a else 0.0)
        && ChainExposure(next, chain)
             == ChainExposure(store, chain) + (if x.chain == chain && status == Open then a else 0.0)
      case Move(i, status) =>
        && PoolTotal(next, pool) == PoolTotal(store, pool)
        && ChainExposure(next, chain) == ChainExposure(store, chain)
             + (if i < |store| && store[i].chain == chain then Raise(store, i, status) else 0.0)
  {
    match op
    case Admit(x, status) =>
      TotalsSnoc(store, Position(x.pool, x.chain, x.tier, x.amount, status), pool, chain);
    case Move(i, status) =>
      if i < |store| {
        TotalsMove(store, i, status, pool, chain);
      }
  }

  lemma PoolStaysWithin(c: Config, store: seq<Position>, op: Op, tierOf: string -> Tier, pool: string)
    requires c.totalCapital > 0.0 && OwnTier(op, tierOf)
    requires PoolWithin(c, PoolTotal(store, pool), tierOf(pool))
    ensures PoolWithin(c, PoolTotal(Apply(c, store, op), pool), tierOf(pool))
  {
    hide Apply, Admitted, PoolTotal, ChainExposure, Raise, PoolWithin;
    PoolWithinLimit(c, PoolTotal(store, pool), tierOf(pool));
    PoolWithinLimit(c, PoolTotal(Apply(c, store, op), pool), tierOf(pool));
    TotalsAfter(c, store, op, pool, 0);
    if op.Admit? {
      AdmittedFits(c, store, op.candidate);
    }
  }

  lemma ChainStaysWithin(c: Config, store: seq<Position>, op: Op, chain: int)
    requires c.totalCapital > 0.0 && HasRoom(c, store, op)
    requires ChainExposure(store, chain) <= AtLeastZero(ExposureCap(c))
    ensures ChainExposure(Apply(c, store, op), chain) <= AtLeastZero(ExposureCap(c))
  {
    hide Apply, Admitted, PoolTotal, ChainExposure, Raise;
    TotalsAfter(c, store, op, "", chain);
    if op.Admit? {
      AdmittedFits(c, store, op.candidate);
    }
  }

  // One operation keeps every limit exactly when it is no status change that finds no room: an
  // admission always does, whatever status the candidate is saved with.
  lemma ApplyKeepsLimitsIff(c: Config, store: seq<Position>, op: Op, tierOf: string -> Tier)
    requires c.totalCapital > 0.0 && WithinLimits(c, store, tierOf) && OwnTier(op, tierOf)
    ensures WithinLimits(c, Apply(c, store, op), tierOf) <==> HasRoom(c, store, op)
  {
    hide Apply, PoolTotal, ChainExposure, Raise, Limit, ExposureCap, AtLeastZero, PoolWithin;
    var next := Apply(c, store, op);
    if HasRoom(c, store, op) {
      forall pool ensures PoolWithin(c, PoolTotal(next, pool), tierOf(pool)) {
        PoolStaysWithin(c, store, op, tierOf, pool);
      }
      forall chain ensures ChainExposure(next, chain) <= AtLeastZero(ExposureCap(c)) {
        ChainStaysWithin(c, store, op, chain);
      }
    } else {
      TotalsAfter(c, store, op, "", store[op.index].chain);
    }
  }

  ghost predicate AlwaysWithin(c: Config, ops: seq<Op>, tierOf: string -> Tier) {
    (ops != [] ==> AlwaysWithin(c, ops[..|ops| - 1], tierOf)) && WithinLimits(c, Run(c, ops), tierOf)
  }

  predicate AlwaysRoom(c: Config, ops: seq<Op>) {
    ops != [] ==> AlwaysRoom(c, ops[..|ops| - 1]) && HasRoom(c, Run(c, ops[..|ops| - 1]), ops[|ops| - 1])
  }

  lemma EmptyWithin(c: Config, tierOf: string -> Tier)
    ensures WithinLimits(c, [], tierOf)
  {
  }

  // Each pool stays within its tier's limit and each chain's open exposure within the configured share
  // of the capital throughout a run exactly when every status change of the run finds room.
  lemma {:induction false} LimitsHoldOverRunsIff(c: Config, ops: seq<Op>, tierOf: string -> Tier)
    requires c.totalCapital > 0.0 && forall op :: op in ops ==> OwnTier(op, tierOf)
    ensures AlwaysWithin(c, ops, tierOf) <==> AlwaysRoom(c, ops)
  {
    hide WithinLimits, HasRoom, Apply;
    if ops == [] {
      EmptyWithin(c, tierOf);
    } else {
      var init := ops[..|ops| - 1];
      LimitsHoldOverRunsIff(c, init, tierOf);
      if AlwaysWithin(c, init, tierOf) {
        ApplyKeepsLimitsIff(c, Run(c, init), ops[|ops| - 1], tierOf);
      }
    }
  }

  // A position not yet open, however it was admitted, can be opened within the cap exactly when the
  // room is there at that moment; nothing else changes.
  lemma OpeningKeepsCapIff(c: Config, store: seq<Position>, i: nat)
    requires i < |store| && store[i].status != Open
    ensures var next, own := Apply(c, store, Move(i, Open)), store[i].chain;
      && (ChainExposure(next, own) <= ExposureCap(c) <==> ChainExposure(store, own) + store[i].amount <= ExposureCap(c))
      && (forall chain :: chain != own ==> ChainExposure(next, chain) == ChainExposure(store, chain))
      && (forall pool :: PoolTotal(next, pool) == PoolTotal(store, pool))
  {
    hide Apply, PoolTotal, ChainExposure;
    var next := Apply(c, store, Move(i, Open));
    TotalsAfter(c, store, Move(i, Open), "", store[i].chain);
    forall chain | chain != store[i].chain ensures ChainExposure(next, chain) == ChainExposure(store, chain) {
      TotalsAfter(c, store, Move(i, Open), "", chain);
    }
    forall pool ensures PoolTotal(next, pool) == PoolTotal(store, pool) {
      TotalsAfter(c, store, Move(i, Open), pool, 0);
    }
  }

  // Closing frees exposure but never a pool's budget: the pool check refuses the same candidates after.
  lemma ClosingFreesNoPoolBudget(c: Config, store: seq<Position>, i: nat, status: Status, x: Candidate)
    ensures var next := Apply(c, store, Move(i, status));
      PoolAllows(c, x, InPool(next, x.pool)) <==> PoolAllows(c, x, InPool(store, x.pool))
  {
    if i < |store| {
      TotalsMove(store, i, status, x.pool, x.chain);
    }
  }

  // Without such a check the limit fails: two positions admitted one after the other and opened later
  // exceed it, although each passed both checks.
  lemma OpeningLaterExceedsExposure()
    ensures var c := Config(1000.0, 1000.0, 200.0, 50.0, 0.3);
      var x, y := Candidate("p", 0, TierA, 200.0), Candidate("q", 0, TierA, 200.0);
      var s := Apply(c, Apply(c, [], Admit(x, Intended)), Admit(y, Intended));
      var later := Apply(c, Apply(c, s, Move(0, Open)), Move(1, Open));
      |s| == 2 && ChainExposure(later, 0) == 400.0 > ExposureCap(c)
  {
    var c := Config(1000.0, 1000.0, 200.0, 50.0, 0.3);
    var x, y := Candidate("p", 0, TierA, 200.0), Candidate("q", 0, TierA, 200.0);
    assert Units(3000000000000000) == 0.3;
    UnitsOnGrid(3000000000000000);
    ShareWithinIff(c, 200.0);
    assert Admitted(c, [], x);
    var s1 := Apply(c, [], Admit(x, Intended));
    TotalsAfter(c, [], Admit(x, Intended), "q", 0);
    assert Admitted(c, s1, y);
    var s2 := Apply(c, s1, Admit(y, Intended));
    TotalsAfter(c, s1, Admit(y, Intended), "q", 0);
    TotalsMove(s2, 0, Open, "q", 0);
    TotalsMove(Apply(c, s2, Move(0, Open)), 1, Open, "q", 0);
  }
}

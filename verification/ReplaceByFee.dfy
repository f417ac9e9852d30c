/**
 Replacement of stuck transactions, together with the nonce manager it draws from.  The two
 managers are modelled as classes; what they promise together is proved about runs of their
 operations.
 */
module ReplaceByFee {
  import opened Nonces
  import opened Wrappers

  const DEFAULT_MAX_ATTEMPTS: int := 3

  datatype TxState = TxState(nonce: nat, attempts: nat, lastAttempt: int)

  // Gas fees as suggested by the chain; None stands for a failed query.
  datatype Fees = Fees(base: int, tip: int)

  datatype Replacement = Replacement(nonce: nat, baseFee: int, priority: int)

  datatype AttemptError = MaxAttemptsExceeded | ChainFailed

  datatype World = World(nonces: NonceState, txs: map<string, TxState>)

  function Bumped(fee: int, percent: int): int {
    fee * percent / 100
  }

  function MaxAttempts(configured: int): int {
    if configured == 0 then DEFAULT_MAX_ATTEMPTS else configured
  }

  // ---------- one operation, on values ----------

  function Counted(t: TxState, now: int): TxState {
    t.(attempts := t.attempts + 1, lastAttempt := now)
  }

  function Attempt(w: World, max: int, percent: int, hash: string, fees: Option<Fees>, answer: Answer, now: int)
    : (World, Result<Replacement, AttemptError>)
  {
    if hash in w.txs && w.txs[hash].attempts >= max then (w, Err(MaxAttemptsExceeded))
    else if fees.None? then (w, Err(ChainFailed))
    else
      var (nonces, next) := Reserved(w.nonces, answer);
      if hash !in w.txs && next.None? then (w, Err(ChainFailed))
      else
        var tx := if hash in w.txs then w.txs[hash] else TxState(next.value, 0, now);
        (World(if hash in w.txs then w.nonces else nonces, w.txs[hash := Counted(tx, now)]),
         Ok(Replacement(tx.nonce, Bumped(fees.value.base, percent), Bumped(fees.value.tip, percent))))
  }

  function AttemptWithOriginal(w: World, max: int, percent: int, hash: string, fees: Option<Fees>, nonce: nat, now: int)
    : (World, Result<Replacement, AttemptError>)
  {
    if hash in w.txs && w.txs[hash].attempts >= max then (w, Err(MaxAttemptsExceeded))
    else if fees.None? then (w, Err(ChainFailed))
    else
      var tx := if hash in w.txs then w.txs[hash] else TxState(nonce, 0, now);
      (w.(txs := w.txs[hash := Counted(tx, now).(nonce := nonce)]),
       Ok(Replacement(nonce, Bumped(fees.value.base, percent), Bumped(fees.value.tip, percent))))
  }

  function Recorded(w: World, hash: string, now: int): World {
    var tx := if hash in w.txs then w.txs[hash] else TxState(0, 0, now);
    w.(txs := w.txs[hash := Counted(tx, now)])
  }

  function Cleared(w: World, hash: string): World {
    w.(txs := w.txs - {hash})
  }

  class RBFManager {
    const maxAttempts: int
    const percent: int
    const nonceMgr: NonceManager
    var txs: map<string, TxState>

    function View(): World
      reads this, nonceMgr
    {
      World(nonceMgr.View(), txs)
    }

    constructor (configuredAttempts: int, percent: int, nonceMgr: NonceManager)
      ensures this.nonceMgr == nonceMgr && this.percent == percent
      ensures maxAttempts == MaxAttempts(configuredAttempts)
      ensures View() == World(nonceMgr.View(), map[])
    {
      this.maxAttempts := MaxAttempts(configuredAttempts);
      this.percent := percent;
      this.nonceMgr := nonceMgr;
      txs := map[];
    }

    method AttemptRBF(hash: string, fees: Option<Fees>, answer: Answer, now: int)
      returns (r: Result<Replacement, AttemptError>)
      modifies this, nonceMgr
      ensures (View(), r) == Attempt(old(View()), maxAttempts, percent, hash, fees, answer, now)
    {
      var tracked := hash in txs;
      if tracked && txs[hash].attempts >= maxAttempts {
        return Err(MaxAttemptsExceeded);
      }
      if fees.None? {
        return Err(ChainFailed);
      }
      var newTip := Bumped(fees.value.tip, percent);
      var newBaseFee := Bumped(fees.value.base, percent);
      var nonce;
      if tracked {
        nonce := txs[hash].nonce;
      } else {
        var next := nonceMgr.GetNextNonce(answer);
        if next.None? {
          return Err(ChainFailed);
        }
        nonce := next.value;
      }
      if !tracked {
        txs := txs[hash := TxState(nonce, 0, now)];
      }
      txs := txs[hash := txs[hash].(attempts := txs[hash].attempts + 1, lastAttempt := now)];
      assert hash !in old(txs) ==> txs == old(txs)[hash := TxState(nonce, 1, now)];
      return Ok(Replacement(nonce, newBaseFee, newTip));
    }

    method AttemptRBFWithOriginal(hash: string, originalNonce: nat, fees: Option<Fees>, now: int)
      returns (r: Result<Replacement, AttemptError>)
      modifies this
      ensures (View(), r) == AttemptWithOriginal(old(View()), maxAttempts, percent, hash, fees, originalNonce, now)
    {
      var tracked := hash in txs;
      if tracked && txs[hash].attempts >= maxAttempts {
        return Err(MaxAttemptsExceeded);
      }
      if fees.None? {
        return Err(ChainFailed);
      }
      var newTip := Bumped(fees.value.tip, percent);
      var newBaseFee := Bumped(fees.value.base, percent);
      if !tracked {
        txs := txs[hash := TxState(originalNonce, 0, now)];
      }
      txs := txs[hash := TxState(originalNonce, txs[hash].attempts + 1, now)];
      assert hash !in old(txs) ==> txs == old(txs)[hash := TxState(originalNonce, 1, now)];
      return Ok(Replacement(originalNonce, newBaseFee, newTip));
    }

    method RecordAttempt(hash: string, now: int)
      modifies this
      ensures View() == Recorded(old(View()), hash, now)
    {
      if hash !in txs {
        txs := txs[hash := TxState(0, 0, now)];
      }
      txs := txs[hash := txs[hash].(attempts := txs[hash].attempts + 1, lastAttempt := now)];
    }

    method ClearAttempts(hash: string)
      modifies this
      ensures View() == Cleared(old(View()), hash)
    {
      txs := txs - {hash};
    }
  }
}

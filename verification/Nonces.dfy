/** The nonce manager: reserves transaction nonces one after another, starting from the chain's answer. */
module Nonces {
  import opened Wrappers

  // Nonces are unsigned 64-bit numbers and wrap around.
  const U64: nat := 0x1_0000_0000_0000_0000

  datatype NonceState = NonceState(nonce: nat, initialized: bool, pending: map<nat, string>)

  // The chain's answer to a pending-nonce query; None stands for a failed query.
  type Answer = a: Option<nat> | a.Some? ==> a.value < U64 witness None

  function Initialized(s: NonceState, answer: Answer): NonceState {
    if answer.None? then s else s.(nonce := answer.value, initialized := true)
  }

  function Reserved(s: NonceState, answer: Answer): (NonceState, Option<nat>) {
    var ready := if s.initialized then s else Initialized(s, answer);
    if !ready.initialized then (s, None)
    else (NonceState((ready.nonce + 1) % U64, true, ready.pending[ready.nonce := ""]), Some(ready.nonce))
  }

  class NonceManager {
    var nonce: nat
    var initialized: bool
    var pending: map<nat, string>

    function View(): NonceState
      reads this
    {
      NonceState(nonce, initialized, pending)
    }

    constructor ()
      ensures View() == NonceState(0, false, map[])
    {
      nonce, initialized, pending := 0, false, map[];
    }

    method GetNextNonce(answer: Answer) returns (r: Option<nat>)
      modifies this
      ensures (View(), r) == Reserved(old(View()), answer)
    {
      if !initialized {
        if answer.None? {
          return None;
        }
        nonce := answer.value;
        initialized := true;
      }
      var currentNonce := nonce;
      nonce := (nonce + 1) % U64;
      pending := pending[currentNonce := ""];
      return Some(currentNonce);
    }

    method InitializeNonce(answer: Answer) returns (ok: bool)
      modifies this
      ensures ok == answer.Some? && View() == Initialized(old(View()), answer)
    {
      if answer.None? {
        return false;
      }
      nonce := answer.value;
      initialized := true;
      return true;
    }

    method AcknowledgeNonce(acknowledged: nat, txHash: string)
      modifies this
      ensures View() == old(View()).(pending := old(pending)[acknowledged := txHash])
    {
      pending := pending[acknowledged := txHash];
    }

    method ClearPending(cleared: nat)
      modifies this
      ensures View() == old(View()).(pending := old(pending) - {cleared})
    {
      pending := pending - {cleared};
    }

    method IsNonceAvailable(asked: nat) returns (available: bool)
      ensures available <==> !initialized || asked >= nonce
    {
      if !initialized {
        return true;
      }
      return asked >= nonce;
    }
  }
}

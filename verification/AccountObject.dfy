/** An account as the ledger handles it: an object read from a leaf, changed in place, and written back. */
module AccountObject {
  import opened Types
  import opened Books

  class AccountCopy {
    const address: Key
    var balance: real
    var previousLedgerSeq: nat
    var previousTxHash: Key

    /** Reads a leaf's payload. */
    constructor (a: Account)
      ensures Value() == a
    {
      address := a.address;
      balance := a.balance;
      previousLedgerSeq := a.previousLedgerSeq;
      previousTxHash := a.previousTxHash;
    }

    /** The payload to be written back. */
    function Value(): Account
      reads this
    {
      Account(address, balance, previousLedgerSeq, previousTxHash)
    }

    /** Never leaves a balance below zero: the change is made exactly when it can be made. */
    method AddBalance(amount: real) returns (ok: bool)
      modifies this`balance
      ensures (Value(), ok) == Adjusted(old(Value()), amount)
      ensures ok <==> old(balance) + amount >= 0.0
      ensures balance == if ok then old(balance) + amount else old(balance)
      ensures old(balance) >= 0.0 ==> balance >= 0.0
    {
      var sum := balance + amount;
      if sum < 0.0 {
        return false;
      }
      balance := sum;
      ok := true;
    }

    method SetPrevious(sequence: nat, hash: Key)
      modifies this`previousLedgerSeq, this`previousTxHash
      ensures Value() == old(Value()).(previousLedgerSeq := sequence, previousTxHash := hash)
    {
      previousLedgerSeq := sequence;
      previousTxHash := hash;
    }
  }
}

/** The operations offered to clients, addressed by name. */
module Interface {
  import opened Types
  import opened Books
  import opened LedgerObject

  /** The digest that turns a client's name for an account into its address. */
  type Addressing = string -> Key

  method CreateAccount(ledger: Ledger, addressOf: Addressing, name: string) returns (code: int)
    requires ledger.Valid() && addressOf(name) !in ledger.books.accounts && addressOf(name) !in ledger.books.txs
    modifies ledger, ledger.accountTree, ledger.transactionTree, ledger.store, ledger.nodes
    ensures ledger.Valid() && ledger.OnlyNewNodes() && ledger.books == Create(old(ledger.books), addressOf(name))
    ensures ledger.ledgerSequence == old(ledger.ledgerSequence) && code == 0
    ensures Opens(old(ledger.books), ledger.books, addressOf(name))
  {
    ledger.OpenAccount(addressOf(name));
    code := 0;
  }

  method CreateTransaction(ledger: Ledger, addressOf: Addressing, source: string, destination: string, amount: real)
    returns (code: int)
    requires ledger.Valid() && addressOf(source) in ledger.books.accounts && addressOf(destination) in ledger.books.accounts
    requires var tx := Stored(ledger.books, addressOf(source), addressOf(destination), amount);
      NoCollision(ledger.digest, ledger.books, tx) && ledger.digest(tx) !in ledger.books.accounts
    modifies ledger, ledger.accountTree, ledger.transactionTree, ledger.store, ledger.nodes
    ensures ledger.Valid() && ledger.OnlyNewNodes()
    ensures ledger.books == Pay(old(ledger.books), ledger.digest, ledger.ledgerSequence,
                                addressOf(source), addressOf(destination), amount)
    ensures code == if old(Accepted(ledger.books, addressOf(source), amount)) then 0 else 1
    ensures code == 1 ==> ledger.books == old(ledger.books) && ledger.hash == old(ledger.hash) && ledger.SameTrees()
    ensures code == 0 <==> amount <= old(ledger.books.accounts[addressOf(source)].balance)
    ensures code == 0 ==> Paid(old(ledger.books), ledger.books, ledger.digest, ledger.ledgerSequence,
                               addressOf(source), addressOf(destination), amount)
    ensures ledger.ledgerSequence == old(ledger.ledgerSequence)
  {
    code := ledger.AddTransactionEntry(addressOf(source), addressOf(destination), amount);
  }

  method GetBalance(ledger: Ledger, addressOf: Addressing, name: string) returns (balance: real)
    requires ledger.Valid() && addressOf(name) in ledger.books.accounts
    modifies ledger`nodes, ledger.accountTree, ledger.transactionTree, ledger.store, ledger.nodes
    ensures ledger.Valid() && ledger.OnlyNewNodes() && ledger.SameTrees()
    ensures balance == ledger.books.accounts[addressOf(name)].balance && balance >= 0.0
  {
    var acc := ledger.GetAccountEntry(addressOf(name));
    assert AccountOk(ledger.digest, ledger.books, addressOf(name));
    balance := acc.value.balance;
  }

  /** Follows the chain of previous payments from the account back to its first. */
  method GetTransactionHistory(ledger: Ledger, addressOf: Addressing, name: string) returns (res: seq<Transaction>)
    requires ledger.Valid() && addressOf(name) in ledger.books.accounts
    modifies ledger`nodes, ledger.accountTree, ledger.transactionTree, ledger.store, ledger.nodes
    ensures ledger.Valid() && ledger.OnlyNewNodes() && ledger.SameTrees()
    ensures res == NewestFirst(ledger.books.log, addressOf(name), |ledger.books.log|)
  {
    var a := addressOf(name);
    var acc := ledger.GetAccountEntry(a);
    assert AccountOk(ledger.digest, ledger.books, a);
    res := FollowChain(ledger, a, acc.value.previousLedgerSeq, acc.value.previousTxHash);
  }

  /** The payments listed so far, and those the pointer still leads to, are the whole history of a. */
  ghost predicate Walking(digest: TxDigest, log: seq<Transaction>, a: Key, res: seq<Transaction>,
                          sequence: nat, hash: Key, n: nat)
  {
    && n <= |log| && Leads(digest, log, sequence, hash, a, n)
    && res + NewestFirst(log, a, n) == NewestFirst(log, a, |log|)
  }

  lemma WalksOn(digest: TxDigest, b: Books, a: Key, res: seq<Transaction>, sequence: nat, hash: Key, n: nat)
    requires Inv(digest, b) && sequence != 0 && Walking(digest, b.log, a, res, sequence, hash, n)
    ensures hash in b.txs && 0 <= LastNaming(b.log, a, n) < n
    ensures var tx := b.txs[hash];
      Walking(digest, b.log, a, res + [tx], PreviousFor(tx, a).0, PreviousFor(tx, a).1, LastNaming(b.log, a, n))
  {
    HistoryStep(digest, b, a, sequence, hash, n);
    assert res + ([b.txs[hash]] + NewestFirst(b.log, a, LastNaming(b.log, a, n)))
        == res + [b.txs[hash]] + NewestFirst(b.log, a, LastNaming(b.log, a, n));
  }

  method FollowChain(ledger: Ledger, a: Key, headSequence: nat, headHash: Key) returns (res: seq<Transaction>)
    requires ledger.Valid() && Leads(ledger.digest, ledger.books.log, headSequence, headHash, a, |ledger.books.log|)
    modifies ledger`nodes, ledger.accountTree, ledger.transactionTree, ledger.store, ledger.nodes
    ensures ledger.Valid() && ledger.OnlyNewNodes() && ledger.SameTrees()
    ensures res == NewestFirst(ledger.books.log, a, |ledger.books.log|)
  {
    ghost var log := ledger.books.log;
    ghost var n: nat := |log|;
    var sequence, hash := headSequence, headHash;
    res := [];
    ghost var walking := Walking(ledger.digest, log, a, res, sequence, hash, n);
    while sequence != 0
      invariant ledger.Valid() && ledger.OnlyNewNodes() && ledger.SameTrees()
      invariant walking && walking == Walking(ledger.digest, log, a, res, sequence, hash, n)
      decreases n
    {
      res, sequence, hash, n := FollowLink(ledger, a, res, sequence, hash, n);
      walking := Walking(ledger.digest, log, a, res, sequence, hash, n);
    }
    NewestFirstSkips(log, a, n);
  }

  /** Fetches one payment of the chain, adds it to the list and moves on to the payment before it. */
  method FollowLink(ledger: Ledger, a: Key, res: seq<Transaction>, sequence: nat, hash: Key, ghost n: nat)
    returns (res': seq<Transaction>, sequence': nat, hash': Key, ghost m: nat)
    requires ledger.Valid() && sequence != 0 && Walking(ledger.digest, ledger.books.log, a, res, sequence, hash, n)
    modifies ledger`nodes, ledger.accountTree, ledger.transactionTree, ledger.store, ledger.nodes
    ensures ledger.Valid() && ledger.OnlyNewNodes() && ledger.SameTrees()
    ensures m < n && Walking(ledger.digest, ledger.books.log, a, res', sequence', hash', m)
  {
    WalksOn(ledger.digest, ledger.books, a, res, sequence, hash, n);
    m := LastNaming(ledger.books.log, a, n);
    var found := ledger.GetTransactionEntry(hash);
    var tx := found.value;
    res' := res + [tx];
    if a == tx.source {
      sequence', hash' := tx.sourcePreviousLedgerSeq, tx.sourcePreviousTxHash;
    } else {
      sequence', hash' := tx.destinationPreviousLedgerSeq, tx.destinationPreviousTxHash;
    }
  }
}

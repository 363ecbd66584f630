/** The ledger as a state machine over values: accounts, transactions and the log of accepted payments. */
module Books {
  import opened Types

  datatype Books = Books(
    accounts: map<Key, Account>,
    txs: map<Key, Transaction>,
    /** The accepted payments, oldest first. */
    log: seq<Transaction>)

  /** The digest that gives a transaction its key. */
  type TxDigest = Transaction -> Key

  const OPENING_BALANCE: real := 1000.0

  function EmptyBooks(): Books {
    Books(map[], map[], [])
  }

  /** An account is kept under its own address. */
  function PutAccount(m: map<Key, Account>, a: Account): map<Key, Account> {
    m[a.address := a]
  }

  function PutTx(m: map<Key, Transaction>, h: Key, tx: Transaction): map<Key, Transaction> {
    m[h := tx]
  }

  function Opened(address: Key): Account {
    Account(address, OPENING_BALANCE, 0, ZeroKey())
  }

  function Create(b: Books, address: Key): Books {
    b.(accounts := PutAccount(b.accounts, Opened(address)))
  }

  /** `add_balance`: refuses to go below zero. */
  function Adjusted(a: Account, amount: real): (Account, bool) {
    if a.balance + amount < 0.0 then (a, false) else (a.(balance := a.balance + amount), true)
  }

  predicate Accepted(b: Books, source: Key, amount: real)
    requires source in b.accounts
  {
    Adjusted(b.accounts[source], -amount).1
  }

  /** The transaction as it is stored: with both parties' previous payments filled in. */
  function Stored(b: Books, source: Key, destination: Key, amount: real): Transaction
    requires source in b.accounts && destination in b.accounts
  {
    var s, d := b.accounts[source], b.accounts[destination];
    Transaction(source, destination, amount, s.previousLedgerSeq, s.previousTxHash, d.previousLedgerSeq, d.previousTxHash)
  }

  /** A payment. Both account copies are taken before either changes, and the destination's is written last. */
  function Pay(b: Books, digest: TxDigest, sequence: nat, source: Key, destination: Key, amount: real): Books
    requires source in b.accounts && destination in b.accounts
  {
    if !Accepted(b, source, amount) then b
    else
      var tx := Stored(b, source, destination, amount);
      var h := digest(tx);
      var s := Adjusted(b.accounts[source], -amount).0.(previousLedgerSeq := sequence, previousTxHash := h);
      var d := Adjusted(b.accounts[destination], amount).0.(previousLedgerSeq := sequence, previousTxHash := h);
      Books(PutAccount(PutAccount(b.accounts, s), d), PutTx(b.txs, h, tx), b.log + [tx])
  }

  // ---- what the operations do, apart from how they compute it ----

  /** c is b with one more account: it holds 1000, and no payment leads anywhere from it. */
  ghost predicate Opens(b: Books, c: Books, address: Key) {
    && c.accounts.Keys == b.accounts.Keys + {address}
    && var acc := c.accounts[address];
    && acc.address == address && acc.balance == 1000.0
    && acc.previousLedgerSeq == 0 && (forall i :: 0 <= i < 64 ==> acc.previousTxHash[i] == 0)
    && (forall a {:trigger c.accounts[a]} :: a in b.accounts && a != address ==> c.accounts[a] == b.accounts[a])
    && c.txs == b.txs && c.log == b.log
  }

  /** The account is now one payment further, and holds this much. */
  ghost predicate Moved(before: Account, after: Account, balance: real, sequence: nat, hash: Key) {
    && after.address == before.address && after.balance == balance
    && after.previousLedgerSeq == sequence && after.previousTxHash == hash
  }

  /** What an account holds after receiving an amount, which may be negative: never less than nothing. */
  function Received(balance: real, amount: real): real {
    if balance + amount >= 0.0 then balance + amount else balance
  }

  /** c is b after a payment of this amount: the log and the transactions grow by one transaction, which names the
      parties and the amount and leads on to each party's payment before; the parties now lead to it; the amount
      has moved from the source to the destination, and no other account has changed. */
  ghost predicate Paid(b: Books, c: Books, digest: TxDigest, sequence: nat, source: Key, destination: Key, amount: real)
    requires source in b.accounts && destination in b.accounts
  {
    && c.accounts.Keys == b.accounts.Keys
    && |c.log| == |b.log| + 1 && c.log[..|b.log|] == b.log
    && var tx, s, d := c.log[|b.log|], b.accounts[source], b.accounts[destination];
    && tx.source == source && tx.destination == destination && tx.amount == amount
    && tx.sourcePreviousLedgerSeq == s.previousLedgerSeq && tx.sourcePreviousTxHash == s.previousTxHash
    && tx.destinationPreviousLedgerSeq == d.previousLedgerSeq && tx.destinationPreviousTxHash == d.previousTxHash
    && c.txs == b.txs[digest(tx) := tx]
    && (source != destination ==> Moved(s, c.accounts[source], s.balance - amount, sequence, digest(tx)))
    && Moved(d, c.accounts[destination], Received(d.balance, amount), sequence, digest(tx))
    && (forall a {:trigger c.accounts[a]} ::
          a in b.accounts && a != source && a != destination ==> c.accounts[a] == b.accounts[a])
  }

  lemma CreateOpens(b: Books, address: Key)
    ensures Opens(b, Create(b, address), address)
  {
  }

  /** A payment is accepted exactly when the source holds the amount. Then it has this effect and no other;
      otherwise it has none. */
  lemma PayIsPaid(digest: TxDigest, b: Books, sequence: nat, source: Key, destination: Key, amount: real, c: Books)
    requires Inv(digest, b) && source in b.accounts && destination in b.accounts
    ensures Accepted(b, source, amount) <==> amount <= b.accounts[source].balance
    ensures c == Pay(b, digest, sequence, source, destination, amount) <==>
            if amount <= b.accounts[source].balance then Paid(b, c, digest, sequence, source, destination, amount) else c == b
  {
    assert AccountOk(digest, b, source) && AccountOk(digest, b, destination);
    if amount <= b.accounts[source].balance {
      var p := Pay(b, digest, sequence, source, destination, amount);
      assert p.log[..|b.log|] == b.log;
      assert p.accounts.Keys == b.accounts.Keys;
      assert Paid(b, p, digest, sequence, source, destination, amount);
      if Paid(b, c, digest, sequence, source, destination, amount) {
        PaidIsUnique(b, c, p, digest, sequence, source, destination, amount);
      }
    }
  }

  lemma PaidIsUnique(b: Books, c: Books, p: Books, digest: TxDigest, sequence: nat, source: Key, destination: Key,
                     amount: real)
    requires source in b.accounts && destination in b.accounts
    requires Paid(b, c, digest, sequence, source, destination, amount)
    requires Paid(b, p, digest, sequence, source, destination, amount)
    ensures c == p
  {
    var n := |b.log|;
    assert c.log[n] == p.log[n];
    assert c.log == c.log[..n] + [c.log[n]] && p.log == p.log[..n] + [p.log[n]];
    forall a | a in b.accounts ensures c.accounts[a] == p.accounts[a] {
    }
    assert c.accounts == p.accounts;
  }

  // ---- the chains of previous payments ----

  predicate Names(tx: Transaction, a: Key) {
    tx.source == a || tx.destination == a
  }

  /** The last of the first n payments that names a, or -1. */
  function LastNaming(log: seq<Transaction>, a: Key, n: nat): (i: int)
    requires n <= |log|
    ensures -1 <= i < n
    ensures i >= 0 ==> Names(log[i], a)
    ensures forall j :: i < j < n ==> !Names(log[j], a)
  {
    if n == 0 then -1 else if Names(log[n - 1], a) then n - 1 else LastNaming(log, a, n - 1)
  }

  /** A sequence number and hash that lead to payment i of the log, or end the chain when i is -1. */
  ghost predicate PointsTo(digest: TxDigest, log: seq<Transaction>, sequence: nat, hash: Key, i: int)
    requires i < |log|
  {
    if i < 0 then sequence == 0 else sequence > 0 && hash == digest(log[i])
  }

  ghost predicate AccountOk(digest: TxDigest, b: Books, a: Key)
    requires a in b.accounts
  {
    var acc := b.accounts[a];
    && acc.address == a
    && acc.balance >= 0.0
    && PointsTo(digest, b.log, acc.previousLedgerSeq, acc.previousTxHash, LastNaming(b.log, a, |b.log|))
  }

  ghost predicate PaymentOk(digest: TxDigest, b: Books, i: nat)
    requires i < |b.log|
  {
    var tx := b.log[i];
    && tx.source in b.accounts && tx.destination in b.accounts
    && digest(tx) in b.txs && b.txs[digest(tx)] == tx
    && PointsTo(digest, b.log, tx.sourcePreviousLedgerSeq, tx.sourcePreviousTxHash, LastNaming(b.log, tx.source, i))
    && PointsTo(digest, b.log, tx.destinationPreviousLedgerSeq, tx.destinationPreviousTxHash,
                LastNaming(b.log, tx.destination, i))
  }

  /** What holds in every reachable state. */
  ghost predicate Inv(digest: TxDigest, b: Books) {
    && (forall a {:trigger AccountOk(digest, b, a)} :: a in b.accounts ==> AccountOk(digest, b, a))
    && (forall i {:trigger PaymentOk(digest, b, i)} :: 0 <= i < |b.log| ==> PaymentOk(digest, b, i))
    && (forall i, j {:trigger b.log[i], b.log[j]} :: 0 <= i < j < |b.log| ==> digest(b.log[i]) != digest(b.log[j]))
    && (forall h :: h in b.txs ==> exists i :: 0 <= i < |b.log| && digest(b.log[i]) == h)
  }

  /** The digest tells this transaction from every accepted one. */
  ghost predicate NoCollision(digest: TxDigest, b: Books, tx: Transaction) {
    forall i {:trigger b.log[i]} :: 0 <= i < |b.log| && digest(b.log[i]) == digest(tx) ==> b.log[i] == tx
  }

  lemma {:induction false} LastNamingGrows(log: seq<Transaction>, tx: Transaction, a: Key, n: nat)
    requires n <= |log|
    ensures LastNaming(log + [tx], a, n) == LastNaming(log, a, n)
  {
    if n > 0 { LastNamingGrows(log, tx, a, n - 1); }
  }

  /** The chain head of the source has moved on since any earlier payment it made. */
  lemma DiffersFromEarlier(digest: TxDigest, b: Books, source: Key, destination: Key, amount: real, i: nat)
    requires Inv(digest, b) && source in b.accounts && destination in b.accounts && i < |b.log|
    ensures b.log[i] != Stored(b, source, destination, amount)
  {
    assert AccountOk(digest, b, source) && PaymentOk(digest, b, i);
    if b.log[i].source == source {
      var now, was := LastNaming(b.log, source, |b.log|), LastNaming(b.log, source, i);
      assert was < i <= now;
      assert was >= 0 ==> digest(b.log[was]) != digest(b.log[now]);
    }
  }

  /** Freshness: the key of a payment about to be accepted is not in the transaction tree. */
  lemma PaymentIsFresh(digest: TxDigest, b: Books, source: Key, destination: Key, amount: real)
    requires Inv(digest, b) && source in b.accounts && destination in b.accounts
    requires NoCollision(digest, b, Stored(b, source, destination, amount))
    ensures digest(Stored(b, source, destination, amount)) !in b.txs
  {
    forall i | 0 <= i < |b.log| ensures digest(b.log[i]) != digest(Stored(b, source, destination, amount)) {
      DiffersFromEarlier(digest, b, source, destination, amount, i);
    }
  }

  lemma AccountStaysOk(digest: TxDigest, b: Books, c: Books, tx: Transaction, a: Key)
    requires a in b.accounts && AccountOk(digest, b, a) && c.log == b.log + [tx] && !Names(tx, a)
    requires a in c.accounts && c.accounts[a] == b.accounts[a]
    ensures AccountOk(digest, c, a)
  {
    LastNamingGrows(b.log, tx, a, |b.log|);
  }

  lemma PaymentStaysOk(digest: TxDigest, b: Books, c: Books, tx: Transaction, i: nat)
    requires i < |b.log| && PaymentOk(digest, b, i) && c.log == b.log + [tx]
    requires b.accounts.Keys <= c.accounts.Keys && digest(tx) !in b.txs && c.txs == b.txs[digest(tx) := tx]
    ensures PaymentOk(digest, c, i)
  {
    LastNamingGrows(b.log, tx, b.log[i].source, i);
    LastNamingGrows(b.log, tx, b.log[i].destination, i);
  }

  lemma NewPaymentOk(digest: TxDigest, b: Books, sequence: nat, source: Key, destination: Key, amount: real)
    requires Inv(digest, b) && source in b.accounts && destination in b.accounts && Accepted(b, source, amount)
    ensures PaymentOk(digest, Pay(b, digest, sequence, source, destination, amount), |b.log|)
  {
    var tx := Stored(b, source, destination, amount);
    assert AccountOk(digest, b, source) && AccountOk(digest, b, destination);
    LastNamingGrows(b.log, tx, source, |b.log|);
    LastNamingGrows(b.log, tx, destination, |b.log|);
  }

  lemma PaidAccountOk(digest: TxDigest, b: Books, sequence: nat, source: Key, destination: Key, amount: real, a: Key)
    requires Inv(digest, b) && source in b.accounts && destination in b.accounts && Accepted(b, source, amount)
    requires sequence > 0
    requires a in Pay(b, digest, sequence, source, destination, amount).accounts
    ensures AccountOk(digest, Pay(b, digest, sequence, source, destination, amount), a)
  {
    var c := Pay(b, digest, sequence, source, destination, amount);
    var tx := Stored(b, source, destination, amount);
    assert AccountOk(digest, b, source) && AccountOk(digest, b, destination);
    assert AccountOk(digest, b, a);
    if Names(tx, a) {
      assert c.log[|b.log|] == tx && LastNaming(c.log, a, |c.log|) == |b.log|;
    } else {
      AccountStaysOk(digest, b, c, tx, a);
    }
  }

  /** Appending a payment with a fresh key keeps the log and the transaction map in step. */
  lemma PaidLogOk(digest: TxDigest, b: Books, c: Books, tx: Transaction)
    requires Inv(digest, b) && digest(tx) !in b.txs
    requires c.log == b.log + [tx] && c.txs == b.txs[digest(tx) := tx]
    ensures forall i, j {:trigger c.log[i], c.log[j]} :: 0 <= i < j < |c.log| ==> digest(c.log[i]) != digest(c.log[j])
    ensures forall h :: h in c.txs ==> exists i :: 0 <= i < |c.log| && digest(c.log[i]) == h
  {
    forall i, j | 0 <= i < j < |c.log| ensures digest(c.log[i]) != digest(c.log[j]) {
      assert PaymentOk(digest, b, i);
      assert j < |b.log| ==> digest(b.log[i]) != digest(b.log[j]);
    }
    forall h | h in c.txs ensures exists i :: 0 <= i < |c.log| && digest(c.log[i]) == h {
      if h in b.txs {
        var i :| 0 <= i < |b.log| && digest(b.log[i]) == h;
        assert c.log[i] == b.log[i];
      } else {
        assert c.log[|b.log|] == tx;
      }
    }
  }

  /** A payment, accepted or refused, keeps the invariant. */
  lemma PayKeepsInv(digest: TxDigest, b: Books, sequence: nat, source: Key, destination: Key, amount: real)
    requires Inv(digest, b) && source in b.accounts && destination in b.accounts && sequence > 0
    requires NoCollision(digest, b, Stored(b, source, destination, amount))
    ensures Inv(digest, Pay(b, digest, sequence, source, destination, amount))
  {
    if Accepted(b, source, amount) {
      var c := Pay(b, digest, sequence, source, destination, amount);
      var tx := Stored(b, source, destination, amount);
      PaymentIsFresh(digest, b, source, destination, amount);
      forall a | a in c.accounts ensures AccountOk(digest, c, a) {
        PaidAccountOk(digest, b, sequence, source, destination, amount, a);
      }
      forall i | 0 <= i < |c.log| ensures PaymentOk(digest, c, i) {
        if i < |b.log| {
          assert PaymentOk(digest, b, i);
          PaymentStaysOk(digest, b, c, tx, i);
        } else {
          NewPaymentOk(digest, b, sequence, source, destination, amount);
        }
      }
      PaidLogOk(digest, b, c, tx);
    }
  }

  /** What an accepted payment writes: a transaction under a fresh key, then both accounts. */
  lemma PaymentWrites(digest: TxDigest, b: Books, sequence: nat, source: Key, destination: Key, amount: real,
                      s: Account, d: Account)
    requires Inv(digest, b) && source in b.accounts && destination in b.accounts && sequence > 0
    requires NoCollision(digest, b, Stored(b, source, destination, amount)) && Accepted(b, source, amount)
    requires var h := digest(Stored(b, source, destination, amount));
      && s == Adjusted(b.accounts[source], -amount).0.(previousLedgerSeq := sequence, previousTxHash := h)
      && d == Adjusted(b.accounts[destination], amount).0.(previousLedgerSeq := sequence, previousTxHash := h)
    ensures s.address in b.accounts && d.address in b.accounts
    ensures var tx := Stored(b, source, destination, amount);
      var c := Pay(b, digest, sequence, source, destination, amount);
      && digest(tx) !in b.txs && Inv(digest, c)
      && c.accounts == PutAccount(PutAccount(b.accounts, s), d) && c.txs == PutTx(b.txs, digest(tx), tx)
  {
    PaymentIsFresh(digest, b, source, destination, amount);
    PayKeepsInv(digest, b, sequence, source, destination, amount);
    assert AccountOk(digest, b, source) && AccountOk(digest, b, destination);
  }

  lemma CreateKeepsInv(digest: TxDigest, b: Books, address: Key)
    requires Inv(digest, b) && address !in b.accounts
    ensures Inv(digest, Create(b, address))
  {
    var c := Create(b, address);
    forall i | 0 <= i < |c.log| ensures PaymentOk(digest, c, i) {
      assert PaymentOk(digest, b, i);
    }
    forall i | 0 <= i < |b.log| ensures !Names(b.log[i], address) {
      assert PaymentOk(digest, b, i);
    }
    forall a | a in c.accounts ensures AccountOk(digest, c, a) {
      if a != address { assert AccountOk(digest, b, a); }
    }
  }

  /** Every transaction is kept under its own digest. */
  lemma KeyIsDigest(digest: TxDigest, b: Books, h: Key)
    requires Inv(digest, b) && h in b.txs
    ensures digest(b.txs[h]) == h
  {
    var i :| 0 <= i < |b.log| && digest(b.log[i]) == h;
    assert PaymentOk(digest, b, i);
  }

  /** The digest tells the transactions of b from those of c. */
  ghost predicate ToldApart(digest: TxDigest, b: Books, c: Books) {
    forall h, k {:trigger b.txs[h], c.txs[k]} ::
      h in b.txs && k in c.txs && digest(b.txs[h]) == digest(c.txs[k]) ==> b.txs[h] == c.txs[k]
  }

  lemma SameKeysSameTransactions(digest: TxDigest, b: Books, c: Books)
    requires Inv(digest, b) && Inv(digest, c) && b.txs.Keys == c.txs.Keys && ToldApart(digest, b, c)
    ensures b.txs == c.txs
  {
    forall h | h in b.txs ensures b.txs[h] == c.txs[h] {
      KeyIsDigest(digest, b, h);
      KeyIsDigest(digest, c, h);
    }
  }

  // ---- histories ----

  /** The payments that name a among the first n, newest first. */
  function NewestFirst(log: seq<Transaction>, a: Key, n: nat): seq<Transaction>
    requires n <= |log|
  {
    if n == 0 then [] else (if Names(log[n - 1], a) then [log[n - 1]] else []) + NewestFirst(log, a, n - 1)
  }

  /** The positions in the log of the payments that name a, among the first n, in decreasing order. */
  function Positions(log: seq<Transaction>, a: Key, n: nat): seq<nat>
    requires n <= |log|
  {
    if n == 0 then [] else (if Names(log[n - 1], a) then [n - 1] else []) + Positions(log, a, n - 1)
  }

  /** They are exactly the positions of payments that name a, each once. */
  lemma {:induction false} PositionsAreComplete(log: seq<Transaction>, a: Key, n: nat)
    requires n <= |log|
    ensures forall i: nat :: i in Positions(log, a, n) <==> i < n && (log[i].source == a || log[i].destination == a)
    ensures forall x, y :: 0 <= x < y < |Positions(log, a, n)| ==> Positions(log, a, n)[y] < Positions(log, a, n)[x]
  {
    if n > 0 {
      PositionsAreComplete(log, a, n - 1);
      var rest := Positions(log, a, n - 1);
      forall x | 0 <= x < |rest| ensures rest[x] < n - 1 {
        assert rest[x] in rest;
      }
    }
  }

  /** `NewestFirst` lists the payments at these positions. */
  lemma {:induction false} NewestFirstIsComplete(log: seq<Transaction>, a: Key, n: nat)
    requires n <= |log|
    ensures |NewestFirst(log, a, n)| == |Positions(log, a, n)|
    ensures forall x :: 0 <= x < |Positions(log, a, n)| ==>
      Positions(log, a, n)[x] < |log| && NewestFirst(log, a, n)[x] == log[Positions(log, a, n)[x]]
  {
    if n > 0 {
      NewestFirstIsComplete(log, a, n - 1);
    }
  }

  lemma {:induction false} NewestFirstSkips(log: seq<Transaction>, a: Key, n: nat)
    requires n <= |log|
    ensures var i := LastNaming(log, a, n);
      NewestFirst(log, a, n) == if i < 0 then [] else [log[i]] + NewestFirst(log, a, i)
  {
    if n > 0 && !Names(log[n - 1], a) { NewestFirstSkips(log, a, n - 1); }
  }

  /** Where the walk goes on from a payment: the source's pointer if a is the source, else the destination's. */
  function PreviousFor(tx: Transaction, a: Key): (nat, Key) {
    if a == tx.source then (tx.sourcePreviousLedgerSeq, tx.sourcePreviousTxHash)
    else (tx.destinationPreviousLedgerSeq, tx.destinationPreviousTxHash)
  }

  /** The pointer leads to the last of the first n payments that names a. */
  ghost predicate Leads(digest: TxDigest, log: seq<Transaction>, sequence: nat, hash: Key, a: Key, n: nat)
    requires n <= |log|
  {
    PointsTo(digest, log, sequence, hash, LastNaming(log, a, n))
  }

  /** One step of the history walk: the pointer finds its payment, and that payment's own pointer for a leads on
      to the payment before it. */
  lemma HistoryStep(digest: TxDigest, b: Books, a: Key, sequence: nat, hash: Key, n: nat)
    requires Inv(digest, b) && n <= |b.log|
    requires Leads(digest, b.log, sequence, hash, a, n) && sequence != 0
    ensures hash in b.txs
    ensures var i, tx := LastNaming(b.log, a, n), b.txs[hash];
      && i >= 0
      && tx == b.log[i]
      && NewestFirst(b.log, a, n) == [tx] + NewestFirst(b.log, a, i)
      && Leads(digest, b.log, PreviousFor(tx, a).0, PreviousFor(tx, a).1, a, i)
  {
    var i := LastNaming(b.log, a, n);
    assert PaymentOk(digest, b, i);
    NewestFirstSkips(b.log, a, n);
  }
}

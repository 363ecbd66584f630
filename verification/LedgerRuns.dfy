/** Whole runs of the ledger: what every reachable state satisfies, and where money is conserved. */
module LedgerRuns {
  import opened Types
  import opened Books

  datatype Event =
    | Opening(address: Key)
    | Payment(source: Key, destination: Key, amount: real, sequence: nat)

  /** What the original demands of its callers (fresh accounts, existing parties), a started ledger, and a
      digest that does not collide on this payment. */
  ghost predicate Legal(digest: TxDigest, b: Books, e: Event) {
    match e
    case Opening(address) => address !in b.accounts
    case Payment(source, destination, amount, sequence) =>
      && source in b.accounts
      && destination in b.accounts
      && sequence > 0
      && NoCollision(digest, b, Stored(b, source, destination, amount))
  }

  ghost function Step(digest: TxDigest, b: Books, e: Event): Books
    requires Legal(digest, b, e)
  {
    match e
    case Opening(address) => Create(b, address)
    case Payment(source, destination, amount, sequence) => Pay(b, digest, sequence, source, destination, amount)
  }

  /** b is reached from the empty ledger by these events. */
  ghost predicate Reaches(digest: TxDigest, events: seq<Event>, b: Books)
    decreases |events|
  {
    if events == [] then b == EmptyBooks()
    else
      var n := |events| - 1;
      exists a :: Reaches(digest, events[..n], a) && Legal(digest, a, events[n]) && b == Step(digest, a, events[n])
  }

  /** The events are legal one after the other, and lead from a to c. */
  ghost predicate RunsTo(digest: TxDigest, a: Books, events: seq<Event>, c: Books)
    decreases |events|
  {
    if events == [] then a == c
    else Legal(digest, a, events[0]) && RunsTo(digest, Step(digest, a, events[0]), events[1..], c)
  }

  lemma {:induction false} RunsReach(digest: TxDigest, before: seq<Event>, a: Books, events: seq<Event>,
                                     whole: seq<Event>, c: Books)
    requires Reaches(digest, before, a) && RunsTo(digest, a, events, c) && whole == before + events
    ensures Reaches(digest, whole, c)
    decreases |events|
  {
    if events == [] {
      assert whole == before;
    } else {
      var e, more := events[0], events[1..];
      assert whole == before + [e] + more;
      OneMoreReaches(digest, before, a, e);
      RunsReach(digest, before + [e], Step(digest, a, e), more, whole, c);
    }
  }

  lemma OneMoreReaches(digest: TxDigest, before: seq<Event>, a: Books, e: Event)
    requires Reaches(digest, before, a) && Legal(digest, a, e)
    ensures Reaches(digest, before + [e], Step(digest, a, e))
  {
    var events := before + [e];
    assert events[..|before|] == before && events[|events| - 1] == e;
  }

  /** Every reachable state satisfies the invariant: chains are complete, keys are distinct, and no balance is
      negative, whatever the amounts and even with payments to oneself. */
  lemma {:induction false} ReachableInv(digest: TxDigest, events: seq<Event>, b: Books)
    requires Reaches(digest, events, b)
    ensures Inv(digest, b)
    decreases |events|
  {
    if events != [] {
      var n := |events| - 1;
      var e := events[n];
      var a :| Reaches(digest, events[..n], a) && Legal(digest, a, e) && b == Step(digest, a, e);
      ReachableInv(digest, events[..n], a);
      match e
      case Opening(address) => CreateKeepsInv(digest, a, address);
      case Payment(s, d, amount, sequence) => PayKeepsInv(digest, a, sequence, s, d, amount);
    }
  }

  lemma BalancesStayNonNegative(digest: TxDigest, events: seq<Event>, b: Books, a: Key)
    requires Reaches(digest, events, b) && a in b.accounts
    ensures b.accounts[a].balance >= 0.0
  {
    ReachableInv(digest, events, b);
    assert AccountOk(digest, b, a);
  }

  // ---- totals ----

  ghost function Total(m: map<Key, Account>): real
    decreases |m|
  {
    if m == map[] then 0.0 else
      var k :| k in m;
      m[k].balance + Total(m - {k})
  }

  lemma {:induction false} TotalWithout(m: map<Key, Account>, k: Key)
    requires k in m
    ensures Total(m) == m[k].balance + Total(m - {k})
    decreases |m|
  {
    var c :| c in m && Total(m) == m[c].balance + Total(m - {c});
    if c != k {
      TotalWithout(m - {c}, k);
      TotalWithout(m - {k}, c);
      assert m - {c} - {k} == m - {k} - {c};
    }
  }

  lemma TotalSet(m: map<Key, Account>, k: Key, a: Account)
    ensures Total(m[k := a]) == Total(m) + a.balance - (if k in m then m[k].balance else 0.0)
  {
    TotalWithout(m[k := a], k);
    if k in m {
      TotalWithout(m, k);
      assert m[k := a] - {k} == m - {k};
    } else {
      assert m[k := a] - {k} == m;
    }
  }

  /** What a payment adds to the sum of all balances. */
  function Drift(b: Books, source: Key, destination: Key, amount: real): real
    requires source in b.accounts && destination in b.accounts
  {
    var received := b.accounts[destination].balance + amount >= 0.0;
    if !Accepted(b, source, amount) then 0.0
    else if source == destination then (if received then amount else 0.0)
    else if received then 0.0
    else -amount
  }

  lemma PayDrifts(digest: TxDigest, b: Books, sequence: nat, source: Key, destination: Key, amount: real)
    requires Inv(digest, b) && source in b.accounts && destination in b.accounts
    ensures Total(Pay(b, digest, sequence, source, destination, amount).accounts) ==
            Total(b.accounts) + Drift(b, source, destination, amount)
  {
    if Accepted(b, source, amount) {
      assert AccountOk(digest, b, source) && AccountOk(digest, b, destination);
      var h := digest(Stored(b, source, destination, amount));
      var s := Adjusted(b.accounts[source], -amount).0.(previousLedgerSeq := sequence, previousTxHash := h);
      var d := Adjusted(b.accounts[destination], amount).0.(previousLedgerSeq := sequence, previousTxHash := h);
      TotalSet(b.accounts, source, s);
      TotalSet(b.accounts[source := s], destination, d);
    }
  }

  /** A payment conserves the sum of all balances if and only if one of these holds: it is refused; it goes to
      another account that can take it (always so for non-negative amounts); or it goes to oneself and is
      nothing, or a debit too large for the account. */
  lemma ConservesIff(digest: TxDigest, b: Books, sequence: nat, source: Key, destination: Key, amount: real)
    requires Inv(digest, b) && source in b.accounts && destination in b.accounts
    ensures Total(Pay(b, digest, sequence, source, destination, amount).accounts) == Total(b.accounts) <==>
            || amount > b.accounts[source].balance
            || (source != destination && b.accounts[destination].balance + amount >= 0.0)
            || (source == destination && (amount == 0.0 || b.accounts[source].balance + amount < 0.0))
  {
    assert AccountOk(digest, b, destination);
    PayDrifts(digest, b, sequence, source, destination, amount);
  }

  /** An accepted payment to oneself that the account can also receive changes the sum by exactly its amount. */
  lemma SelfPaymentCreatesMoney(digest: TxDigest, b: Books, sequence: nat, a: Key, amount: real)
    requires Inv(digest, b) && a in b.accounts && amount <= b.accounts[a].balance && b.accounts[a].balance + amount >= 0.0
    ensures Total(Pay(b, digest, sequence, a, a, amount).accounts) == Total(b.accounts) + amount
  {
    assert AccountOk(digest, b, a);
    PayDrifts(digest, b, sequence, a, a, amount);
  }

  ghost predicate Ordinary(e: Event) {
    e.Payment? ==> e.source != e.destination && e.amount >= 0.0
  }

  lemma OpeningAdds(b: Books, address: Key)
    requires address !in b.accounts
    ensures Total(Create(b, address).accounts) == Total(b.accounts) + 1000.0
    ensures |Create(b, address).accounts| == |b.accounts| + 1
  {
    TotalSet(b.accounts, address, Opened(address));
    assert Create(b, address).accounts.Keys == b.accounts.Keys + {address};
  }

  lemma OrdinaryConserves(digest: TxDigest, b: Books, sequence: nat, source: Key, destination: Key, amount: real)
    requires Inv(digest, b) && source in b.accounts && destination in b.accounts
    requires source != destination && amount >= 0.0
    ensures Total(Pay(b, digest, sequence, source, destination, amount).accounts) == Total(b.accounts)
    ensures |Pay(b, digest, sequence, source, destination, amount).accounts| == |b.accounts|
  {
    assert AccountOk(digest, b, source) && AccountOk(digest, b, destination);
    PayDrifts(digest, b, sequence, source, destination, amount);
    assert Pay(b, digest, sequence, source, destination, amount).accounts.Keys == b.accounts.Keys;
  }

  /** Conservation over runs: with non-negative payments between different accounts, the balances always sum to
      1000 for each account. */
  lemma {:induction false} MoneyIsConserved(digest: TxDigest, events: seq<Event>, b: Books)
    requires Reaches(digest, events, b) && forall i :: 0 <= i < |events| ==> Ordinary(events[i])
    ensures Total(b.accounts) == 1000.0 * (|b.accounts| as real)
    decreases |events|
  {
    if events != [] {
      var n := |events| - 1;
      var e := events[n];
      var a :| Reaches(digest, events[..n], a) && Legal(digest, a, e) && b == Step(digest, a, e);
      MoneyIsConserved(digest, events[..n], a);
      ReachableInv(digest, events[..n], a);
      match e
      case Opening(address) => OpeningAdds(a, address);
      case Payment(s, d, amount, sequence) => OrdinaryConserves(digest, a, sequence, s, d, amount);
    }
  }

  // ---- histories ----

  /** What the history loop returns: follow the pointers until a sequence number of 0. */
  ghost function Walk(b: Books, a: Key, sequence: nat, hash: Key, steps: nat): seq<Transaction>
    decreases steps
  {
    if sequence == 0 || steps == 0 || hash !in b.txs then []
    else
      var (q, h) := PreviousFor(b.txs[hash], a);
      [b.txs[hash]] + Walk(b, a, q, h, steps - 1)
  }

  lemma {:induction false} WalkIsComplete(digest: TxDigest, b: Books, a: Key, sequence: nat, hash: Key, n: nat, steps: nat)
    requires Inv(digest, b) && n <= |b.log| && n <= steps
    requires Leads(digest, b.log, sequence, hash, a, n)
    ensures Walk(b, a, sequence, hash, steps) == NewestFirst(b.log, a, n)
    decreases n
  {
    if sequence == 0 {
      NewestFirstSkips(b.log, a, n);
    } else {
      HistoryStep(digest, b, a, sequence, hash, n);
      var i, tx := LastNaming(b.log, a, n), b.txs[hash];
      var (q, h) := PreviousFor(tx, a);
      WalkIsComplete(digest, b, a, q, h, i, steps - 1);
      assert Walk(b, a, sequence, hash, steps) == [tx] + Walk(b, a, q, h, steps - 1);
    }
  }

  /** In every reachable state an account's history is complete: as many steps as there are accepted payments
      always end the walk, which has then listed the payments naming the account, newest first. */
  lemma HistoryIsComplete(digest: TxDigest, events: seq<Event>, b: Books, a: Key)
    requires Reaches(digest, events, b) && a in b.accounts
    ensures Walk(b, a, b.accounts[a].previousLedgerSeq, b.accounts[a].previousTxHash, |b.log|) ==
            NewestFirst(b.log, a, |b.log|)
  {
    ReachableInv(digest, events, b);
    assert AccountOk(digest, b, a);
    WalkIsComplete(digest, b, a, b.accounts[a].previousLedgerSeq, b.accounts[a].previousTxHash, |b.log|, |b.log|);
  }

  /** A history is complete after an accepted payment if and only if the ledger's sequence number is not 0. */
  lemma HistoryNeedsSequence(digest: TxDigest, b: Books, sequence: nat, source: Key, destination: Key, amount: real)
    requires Inv(digest, b) && source in b.accounts && destination in b.accounts && amount <= b.accounts[source].balance
    requires NoCollision(digest, b, Stored(b, source, destination, amount))
    ensures var c := Pay(b, digest, sequence, source, destination, amount);
      && source in c.accounts
      && var walked := Walk(c, source, c.accounts[source].previousLedgerSeq, c.accounts[source].previousTxHash, |c.log|);
         walked == NewestFirst(c.log, source, |c.log|) <==> sequence != 0
  {
    var c := Pay(b, digest, sequence, source, destination, amount);
    assert AccountOk(digest, b, source) && AccountOk(digest, b, destination);
    if sequence != 0 {
      PayKeepsInv(digest, b, sequence, source, destination, amount);
      assert AccountOk(digest, c, source);
      WalkIsComplete(digest, c, source, c.accounts[source].previousLedgerSeq, c.accounts[source].previousTxHash,
                     |c.log|, |c.log|);
    } else {
      assert Names(c.log[|b.log|], source);
    }
  }
}

/** Whole runs of the ledger object. */
module Service {
  import opened Types
  import opened Books
  import opened LedgerRuns
  import opened Audit
  import opened LedgerObject
  import opened Shape
  import opened ShapeHash
  import opened FlatView
  import opened RadixTree
  import opened StoreSharing

  /** No key is both an account's address and a payment's digest, and payments carry the ledger's sequence number. */
  ghost predicate Distinct(digest: TxDigest, sequence: nat, b: Books, e: Event)
    requires Legal(digest, b, e)
  {
    match e
    case Opening(address) => address !in b.txs
    case Payment(source, destination, amount, q) =>
      q == sequence && digest(Stored(b, source, destination, amount)) !in b.accounts
  }

  ghost predicate Serves(digest: TxDigest, sequence: nat, a: Books, events: seq<Event>, c: Books)
    decreases |events|
  {
    if events == [] then a == c
    else
      && Legal(digest, a, events[0]) && Distinct(digest, sequence, a, events[0])
      && Serves(digest, sequence, Step(digest, a, events[0]), events[1..], c)
  }

  lemma {:induction false} ServesRuns(digest: TxDigest, sequence: nat, a: Books, events: seq<Event>, c: Books)
    requires Serves(digest, sequence, a, events, c)
    ensures RunsTo(digest, a, events, c)
    decreases |events|
  {
    if events != [] { ServesRuns(digest, sequence, Step(digest, a, events[0]), events[1..], c); }
  }

  lemma ServesReaches(digest: TxDigest, sequence: nat, events: seq<Event>, c: Books)
    requires Serves(digest, sequence, EmptyBooks(), events, c)
    ensures Reaches(digest, events, c)
  {
    ServesRuns(digest, sequence, EmptyBooks(), events, c);
    assert [] + events == events;
    RunsReach(digest, [], EmptyBooks(), events, events, c);
  }

  method Perform(ledger: Ledger, e: Event)
    requires ledger.Valid() && Legal(ledger.digest, ledger.books, e)
    requires Distinct(ledger.digest, ledger.ledgerSequence, ledger.books, e)
    modifies ledger, ledger.accountTree, ledger.transactionTree, ledger.store, ledger.nodes
    ensures ledger.Valid() && ledger.OnlyNewNodes() && ledger.ledgerSequence == old(ledger.ledgerSequence)
    ensures ledger.books == Step(ledger.digest, old(ledger.books), e)
  {
    match e
    case Opening(address) => ledger.OpenAccount(address);
    case Payment(source, destination, amount, _) => var _ := ledger.AddTransactionEntry(source, destination, amount);
  }

  method PerformFirst(ledger: Ledger, events: seq<Event>, ghost c: Books)
    requires ledger.Valid() && events != [] && Serves(ledger.digest, ledger.ledgerSequence, ledger.books, events, c)
    modifies ledger, ledger.accountTree, ledger.transactionTree, ledger.store, ledger.nodes
    ensures ledger.Valid() && ledger.OnlyNewNodes() && ledger.ledgerSequence == old(ledger.ledgerSequence)
    ensures Serves(ledger.digest, ledger.ledgerSequence, ledger.books, events[1..], c)
  {
    Perform(ledger, events[0]);
  }

  /** Any run of openings and payments takes the two trees and the header along with the books. */
  method Serve(ledger: Ledger, events: seq<Event>, ghost c: Books)
    requires ledger.Valid() && Serves(ledger.digest, ledger.ledgerSequence, ledger.books, events, c)
    modifies ledger, ledger.accountTree, ledger.transactionTree, ledger.store, ledger.nodes
    ensures ledger.Valid() && ledger.OnlyNewNodes() && ledger.books == c
  {
    for i := 0 to |events|
      invariant ledger.Valid() && ledger.OnlyNewNodes() && ledger.ledgerSequence == old(ledger.ledgerSequence)
      invariant Serves(ledger.digest, ledger.ledgerSequence, ledger.books, events[i..], c)
    {
      assert events[i..][1..] == events[i + 1..];
      ghost var between := ledger.nodes;
      label Between:
      PerformFirst(ledger, events[i..], c);
      forall n | n in ledger.nodes && n !in old(ledger.nodes) ensures fresh(n) {
        if n !in between { assert fresh@Between(n); }
      }
    }
  }

  /** In every sound ledger each node of either tree is in memory or in the shared store, never in both; a ledger
      that found the store empty has no foreign keys. */
  lemma EachNodeInOnePlace(ledger: Ledger, p: Path)
    requires ledger.Sound()
    ensures p in ledger.accountTree.view && HashAt(ledger.accountTree.view, p) !in ledger.foreign ==>
      (p in ledger.accountTree.mem <==> HashAt(ledger.accountTree.view, p) !in ledger.store.data)
    ensures p in ledger.transactionTree.view && HashAt(ledger.transactionTree.view, p) !in ledger.foreign ==>
      (p in ledger.transactionTree.mem <==> HashAt(ledger.transactionTree.view, p) !in ledger.store.data)
  {
    var t, u := ledger.transactionTree, ledger.accountTree;
    TreesApart(t.shape, t.entries, u.shape, u.entries);
    if p in t.view && HashAt(t.view, p) !in ledger.foreign {
      InOnePlace(t.view, t.shape, t.mem.Keys, u.view, u.shape, u.mem.Keys, ledger.store.data, ledger.foreign, p);
    }
    if p in u.view && HashAt(u.view, p) !in ledger.foreign {
      InOnePlace(u.view, u.shape, u.mem.Keys, t.view, t.shape, t.mem.Keys, ledger.store.data, ledger.foreign, p);
    }
  }

  /** A new ledger, after any run, holds a state reachable from the empty books: so its balances are not
      negative, its histories are complete and, for ordinary payments, its money is conserved. */
  method ServeNew(db: NodeStore.Store, digest: TxDigest, events: seq<Event>, ghost c: Books) returns (ledger: Ledger)
    requires Serves(digest, 1, EmptyBooks(), events, c)
    modifies db
    ensures ledger.Valid() && ledger.books == c && Reaches(digest, events, c) && ledger.foreign == old(db.data).Keys
    ensures Agrees(c, Granted(events)) && c.accounts.Keys == Addresses(events)
  {
    ServesReaches(digest, 1, events, c);
    RequestsTell(digest, events, c);
    ledger := new Ledger(db, digest);
    Serve(ledger, events, c);
  }

  /** Saving a ledger and opening it again by its header gives back the same books, trees and hash, and leaves no
      records behind. */
  method SaveAndReopen(ledger: Ledger) returns (again: Ledger)
    requires ledger.Valid()
    modifies ledger.store
    ensures again.Valid() && fresh(again) && fresh(again.nodes) && again.store == ledger.store
    ensures again.books == ledger.books && again.hash == ledger.hash && again.digest == ledger.digest
    ensures again.transactionTree.shape == ledger.transactionTree.shape
    ensures again.accountTree.shape == ledger.accountTree.shape
    ensures again.foreign <= ledger.foreign
  {
    ledger.Save();
    var header := Header(ledger.hash, ledger.parentHash, ledger.transactionTreeHash, ledger.accountTreeHash,
                         ledger.totalCoins, ledger.ledgerSequence, ledger.closeTime);
    TreesApart(ledger.transactionTree.shape, ledger.transactionTree.entries,
               ledger.accountTree.shape, ledger.accountTree.entries);
    again := Ledger.Open(ledger.store, ledger.digest, header, ledger.transactionTree.shape, ledger.accountTree.shape,
                         ledger.transactionTree.entries, ledger.accountTree.entries, ledger.books);
  }

  lemma SameRootSameKeys(t: RadixMerkleTree, u: RadixMerkleTree)
    requires t.Valid() && u.Valid() && Hash(t.shape) == Hash(u.shape)
    ensures t.entries.Keys == u.entries.Keys
  {
    HashCommits(t.shape, 0, u.shape, 0);
    MeaningKeys(t.entries, t.shape);
    MeaningKeys(u.entries, u.shape);
  }

  /** Two ledgers with the same hash have the same header, the same account addresses and the same transactions. */
  lemma LedgerHashCommits(a: Ledger, b: Ledger)
    requires a.Valid() && b.Valid() && a.digest == b.digest && a.hash == b.hash && ToldApart(a.digest, a.books, b.books)
    ensures a.ledgerSequence == b.ledgerSequence && a.parentHash == b.parentHash
    ensures a.books.accounts.Keys == b.books.accounts.Keys && a.books.txs == b.books.txs
  {
    SameRootSameKeys(a.accountTree, b.accountTree);
    SameRootSameKeys(a.transactionTree, b.transactionTree);
    MirroredKeys(a.accountTree.entries, a.transactionTree.entries, a.books);
    MirroredKeys(b.accountTree.entries, b.transactionTree.entries, b.books);
    SameKeysSameTransactions(a.digest, a.books, b.books);
  }
}

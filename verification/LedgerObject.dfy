/** The ledger object: two trees over one store, a header, and the operations on them. */
module LedgerObject {
  import opened Types
  import opened Shape
  import opened FlatView
  import opened NodeStore
  import opened RadixTree
  import opened StoreSharing
  import opened Books
  import opened AccountObject

  function AccountEntries(m: map<Key, Account>): map<Key, Payload> {
    map k | k in m :: AccountData(m[k])
  }

  function TxEntries(m: map<Key, Transaction>): map<Key, Payload> {
    map k | k in m :: TxData(m[k])
  }

  function PutEntry(m: map<Key, Payload>, it: Item): map<Key, Payload> {
    m[it.index := it.data]
  }

  /** The entries of the two trees are the books. */
  ghost predicate Mirrors(accounts: map<Key, Payload>, txs: map<Key, Payload>, b: Books) {
    accounts == AccountEntries(b.accounts) && txs == TxEntries(b.txs)
  }

  lemma MirroredKeys(accounts: map<Key, Payload>, txs: map<Key, Payload>, b: Books)
    requires Mirrors(accounts, txs, b)
    ensures accounts.Keys == b.accounts.Keys && txs.Keys == b.txs.Keys
    ensures forall k :: k in accounts ==> accounts[k] == AccountData(b.accounts[k])
    ensures forall k :: k in txs ==> txs[k] == TxData(b.txs[k])
  {
  }

  lemma EmptyBooksAreMirrored(digest: TxDigest)
    ensures Mirrors(map[], map[], EmptyBooks()) && Inv(digest, EmptyBooks())
  {
  }

  lemma MirrorsAfterCreate(accounts: map<Key, Payload>, txs: map<Key, Payload>, b: Books, address: Key)
    requires Mirrors(accounts, txs, b)
    ensures Mirrors(PutEntry(accounts, Item(address, AccountData(Opened(address)))), txs, Create(b, address))
  {
  }

  lemma MirrorsAfterPay(accounts: map<Key, Payload>, txs: map<Key, Payload>, b: Books, c: Books,
                        h: Key, tx: Transaction, s: Account, d: Account)
    requires Mirrors(accounts, txs, b)
    requires c.accounts == PutAccount(PutAccount(b.accounts, s), d) && c.txs == PutTx(b.txs, h, tx)
    ensures Mirrors(PutEntry(PutEntry(accounts, AccountItem(s)), AccountItem(d)), PutEntry(txs, Item(h, TxData(tx))), c)
  {
  }

  function AccountItem(a: Account): Item {
    Item(a.address, AccountData(a))
  }

  /** The header row of a saved ledger. */
  datatype Header = Header(hash: Digest, parentHash: Digest, transactionTreeHash: Digest, accountTreeHash: Digest,
                           totalCoins: nat, ledgerSequence: nat, closeTime: nat)
  {
    /** The tree hashes are those of t and u, and the ledger hash is the digest of the rest. */
    ghost predicate Ok(t: Tree, u: Tree) {
      && transactionTreeHash == Hash(t) && accountTreeHash == Hash(u)
      && hash == LedgerDigest(parentHash, transactionTreeHash, accountTreeHash, totalCoins, ledgerSequence, closeTime)
    }
  }

  class Ledger {
    const store: Store
    const transactionTree: RadixMerkleTree
    const accountTree: RadixMerkleTree
    /** The digest of a serialized transaction. */
    const digest: TxDigest
    var hash: Digest
    var parentHash: Digest
    var transactionTreeHash: Digest
    var accountTreeHash: Digest
    var totalCoins: nat
    var ledgerSequence: nat
    var closeTime: nat
    ghost var books: Books
    ghost var nodes: set<Node>
    /** The store keys that were there before the ledger and are not its own. */
    ghost const foreign: set<Digest>

    /** The two trees are valid and share the store and nothing else; the nodes in memory are among ns; the trees
        hold disjoint keys; and every record of the store belongs to an unloaded node of one of them or is foreign.
        The equation makes the solver treat this as one fact. */
    static ghost predicate Paired(db: Store, txs: RadixMerkleTree, accounts: RadixMerkleTree, ns: set<Node>, f: set<Digest>)
      reads txs, accounts, db, ns
    {
      (&& (forall p {:trigger txs.mem[p]} :: p in txs.mem ==> txs.mem[p] in ns)
       && (forall p {:trigger accounts.mem[p]} :: p in accounts.mem ==> accounts.mem[p] in ns)
       && txs.store == db && accounts.store == db && txs != accounts
       && txs.Valid() && accounts.Valid() && txs.mem.Values !! accounts.mem.Values
       && txs.shape.flag && !accounts.shape.flag && txs.entries.Keys !! accounts.entries.Keys
       && Accounted(txs.view, txs.mem.Keys, accounts.view, accounts.mem.Keys, db.data, f)) == true
    }

    ghost predicate Sound()
      reads this`nodes, transactionTree, accountTree, store, nodes
    {
      Paired(store, transactionTree, accountTree, nodes, foreign)
    }

    /** Every loaded node was already there or is new. */
    twostate predicate OnlyNewNodes()
      reads this`nodes
    {
      fresh(nodes - old(nodes))
    }

    /** What the two trees stand for. */
    ghost function Trees(): (Tree, map<Key, Payload>, Tree, map<Key, Payload>)
      reads transactionTree, accountTree
    {
      (accountTree.shape, accountTree.entries, transactionTree.shape, transactionTree.entries)
    }

    twostate predicate SameTrees()
      reads transactionTree, accountTree
    {
      Trees() == old(Trees())
    }

    /** Both stored tree hashes are current, and the ledger hash is the digest of the header. */
    ghost predicate HeaderOk()
      reads this, transactionTree, accountTree
    {
      && transactionTreeHash == Hash(transactionTree.shape)
      && accountTreeHash == Hash(accountTree.shape)
      && hash == LedgerDigest(parentHash, transactionTreeHash, accountTreeHash, totalCoins, ledgerSequence, closeTime)
    }

    /** The trees hold exactly the books. */
    ghost predicate Holds(b: Books)
      reads transactionTree, accountTree
    {
      Mirrors(accountTree.entries, transactionTree.entries, b)
    }

    ghost predicate Valid()
      reads this, transactionTree, accountTree, store, nodes
    {
      (Sound() && HeaderOk() && Holds(books) && Inv(digest, books) && ledgerSequence > 0) == true
    }

    /** A new ledger: empty trees, sequence number 1. */
    constructor (db: Store, txDigest: TxDigest)
      ensures (parentHash, totalCoins, ledgerSequence, closeTime) == (Zero(), 0, 1, 0)
      ensures Valid() && store == db && digest == txDigest && books == EmptyBooks()
      ensures fresh(transactionTree) && fresh(accountTree) && fresh(nodes) && foreign == db.data.Keys
    {
      store := db;
      foreign := db.data.Keys;
      digest := txDigest;
      parentHash := Zero();
      totalCoins := 0;
      ledgerSequence := 1;
      closeTime := 0;
      ghost var ns;
      var txs, accounts;
      txs, accounts, ns := EmptyTrees(db);
      transactionTree := txs;
      accountTree := accounts;
      transactionTreeHash := Zero();
      accountTreeHash := Zero();
      hash := Zero();
      books := EmptyBooks();
      nodes := ns;
      EmptyBooksAreMirrored(txDigest);
      new;
      RefreshHeader();
    }

    static method EmptyTrees(db: Store) returns (txs: RadixMerkleTree, accounts: RadixMerkleTree, ghost ns: set<Node>)
      ensures fresh(txs) && fresh(accounts) && fresh(ns) && txs.entries == map[] && accounts.entries == map[]
      ensures Paired(db, txs, accounts, ns, db.data.Keys)
    {
      txs := new RadixMerkleTree(true, db);
      accounts := new RadixMerkleTree(false, db);
      ns := txs.mem.Values + accounts.mem.Values;
    }

    /** A ledger over two given trees and a saved header. */
    constructor Of(db: Store, txDigest: TxDigest, header: Header, txs: RadixMerkleTree, accounts: RadixMerkleTree,
                   ghost b: Books, ghost ns: set<Node>, ghost f: set<Digest>)
      requires Paired(db, txs, accounts, ns, f) && Mirrors(accounts.entries, txs.entries, b) && Inv(txDigest, b)
      requires header.Ok(txs.shape, accounts.shape) && header.ledgerSequence > 0
      ensures Valid() && store == db && digest == txDigest && transactionTree == txs && accountTree == accounts
      ensures hash == header.hash && books == b && nodes == ns && foreign == f
    {
      store := db;
      foreign := f;
      digest := txDigest;
      hash := header.hash;
      parentHash := header.parentHash;
      transactionTreeHash := header.transactionTreeHash;
      accountTreeHash := header.accountTreeHash;
      totalCoins := header.totalCoins;
      ledgerSequence := header.ledgerSequence;
      closeTime := header.closeTime;
      transactionTree := txs;
      accountTree := accounts;
      books := b;
      nodes := ns;
    }

    /** Opens a saved ledger from its header: only the two roots are loaded. */
    static method Open(db: Store, txDigest: TxDigest, header: Header, ghost t: Tree, ghost u: Tree,
                       ghost txEntries: map<Key, Payload>, ghost accountEntries: map<Key, Payload>, ghost b: Books)
      returns (ledger: Ledger)
      requires Apart(t, u) && t.flag && header.Ok(t, u) && header.ledgerSequence > 0
      requires Backed({}, Flatten(t), db.data) && Backed({}, Flatten(u), db.data)
      requires Means(txEntries, t) && Means(accountEntries, u) && Mirrors(accountEntries, txEntries, b) && Inv(txDigest, b)
      modifies db
      ensures ledger.Valid() && fresh(ledger) && fresh(ledger.nodes) && ledger.store == db && ledger.digest == txDigest
      ensures ledger.hash == header.hash && ledger.books == b
      ensures ledger.transactionTree.shape == t && ledger.accountTree.shape == u
      ensures ledger.foreign == Unrelated(t, u, old(db.data))
    {
      ghost var ns;
      var txs, accounts;
      txs, accounts, ns := OpenTrees(db, header.transactionTreeHash, header.accountTreeHash, t, u,
                                      txEntries, accountEntries);
      ledger := new Ledger.Of(db, txDigest, header, txs, accounts, b, ns, Unrelated(t, u, old(db.data)));
    }

    static method OpenTrees(db: Store, transactionsHash: Digest, accountsHash: Digest, ghost t: Tree, ghost u: Tree,
                            ghost txEntries: map<Key, Payload>, ghost accountEntries: map<Key, Payload>)
      returns (txs: RadixMerkleTree, accounts: RadixMerkleTree, ghost ns: set<Node>)
      requires Apart(t, u) && t.flag && Hash(t) == transactionsHash && Hash(u) == accountsHash
      requires Backed({}, Flatten(t), db.data) && Backed({}, Flatten(u), db.data)
      requires Means(txEntries, t) && Means(accountEntries, u)
      modifies db
      ensures fresh(txs) && fresh(accounts) && fresh(ns) && txs.shape == t && accounts.shape == u
      ensures txs.entries == txEntries && accounts.entries == accountEntries
      ensures Paired(db, txs, accounts, ns, Unrelated(t, u, old(db.data)))
    {
      MeansItsContents(txEntries, t);
      MeansItsContents(accountEntries, u);
      MeaningKeys(txEntries, t);
      MeaningKeys(accountEntries, u);
      txs, accounts := OpenBoth(db, transactionsHash, accountsHash, t, u);
      OpenedIsAccounted(t, u, old(db.data));
      ns := txs.mem.Values + accounts.mem.Values;
    }

    /** Opens the account tree, then the transaction tree. */
    static method OpenBoth(db: Store, transactionsHash: Digest, accountsHash: Digest, ghost t: Tree, ghost u: Tree)
      returns (txs: RadixMerkleTree, accounts: RadixMerkleTree)
      requires Apart(t, u) && Hash(t) == transactionsHash && Hash(u) == accountsHash
      requires Backed({}, Flatten(t), db.data) && Backed({}, Flatten(u), db.data)
      modifies db
      ensures fresh(txs) && fresh(accounts) && txs != accounts && fresh(txs.mem.Values) && fresh(accounts.mem.Values)
      ensures txs.store == db && txs.Valid() && txs.shape == t && txs.view == Flatten(t) && txs.entries == Contents(t)
      ensures accounts.store == db && accounts.Valid() && accounts.shape == u && accounts.view == Flatten(u)
      ensures accounts.entries == Contents(u) && txs.mem.Keys == {[]} && accounts.mem.Keys == {[]}
      ensures txs.mem.Values !! accounts.mem.Values && db.data == old(db.data) - {Hash(u)} - {Hash(t)}
    {
      accounts := new RadixMerkleTree.Open(accountsHash, db, u);
      RootOnlyRemoved(u, t, {}, old(db.data));
      label Opened:
      ghost var data := db.data;
      txs := new RadixMerkleTree.Open(transactionsHash, db, t);
      RootOnlyRemoved(t, u, accounts.mem.Keys, data);
      accounts.UntouchedStaysValid@Opened();
    }

    method RefreshHeader()
      requires Sound() && Holds(books) && Inv(digest, books) && ledgerSequence > 0
      modifies this`hash, this`transactionTreeHash, this`accountTreeHash
      ensures Valid()
    {
      UpdateAccountTreeHash();
      UpdateTransactionTreeHash();
    }

    method UpdateLedgerHash()
      modifies this`hash
      ensures hash == LedgerDigest(parentHash, transactionTreeHash, accountTreeHash, totalCoins, ledgerSequence, closeTime)
    {
      hash := LedgerDigest(parentHash, transactionTreeHash, accountTreeHash, totalCoins, ledgerSequence, closeTime);
    }

    method UpdateAccountTreeHash()
      requires Sound()
      modifies this`accountTreeHash, this`hash
      ensures Sound()
      ensures accountTreeHash == Hash(accountTree.shape)
      ensures hash == LedgerDigest(parentHash, transactionTreeHash, accountTreeHash, totalCoins, ledgerSequence, closeTime)
    {
      accountTreeHash := accountTree.GetHash();
      UpdateLedgerHash();
    }

    method UpdateTransactionTreeHash()
      requires Sound()
      modifies this`transactionTreeHash, this`hash
      ensures Sound()
      ensures transactionTreeHash == Hash(transactionTree.shape)
      ensures hash == LedgerDigest(parentHash, transactionTreeHash, accountTreeHash, totalCoins, ledgerSequence, closeTime)
    {
      transactionTreeHash := transactionTree.GetHash();
      UpdateLedgerHash();
    }

    ghost method Adopt(b: Books)
      requires Sound()
      modifies this`books
      ensures Sound() && books == b
    {
      books := b;
    }

    /** Saves both trees, as their destructors do. */
    method Save()
      requires Sound()
      modifies store
      ensures Backed({}, Flatten(transactionTree.shape), store.data) && Backed({}, Flatten(accountTree.shape), store.data)
      ensures Unrelated(transactionTree.shape, accountTree.shape, store.data) <= foreign
    {
      TreesApart(transactionTree.shape, transactionTree.entries, accountTree.shape, accountTree.entries);
      OnlyForeignUnrelated(transactionTree.view, transactionTree.shape, transactionTree.mem.Keys,
                           accountTree.view, accountTree.shape, accountTree.mem.Keys, store.data, foreign);
      SaveTree(accountTree, transactionTree);
      SaveTree(transactionTree, accountTree);
    }

    static method SaveTree(t: RadixMerkleTree, other: RadixMerkleTree)
      requires t.Valid() && other.Valid() && t.store == other.store && Apart(t.shape, other.shape)
      modifies t.store
      ensures t.Valid() && other.Valid()
      ensures Backed({}, Flatten(t.shape), t.store.data)
      ensures old(Backed({}, Flatten(other.shape), t.store.data)) ==> Backed({}, Flatten(other.shape), t.store.data)
      ensures forall h :: h in t.store.data && h !in old(t.store.data) ==> HashOf(t.shape, h)
    {
      FlatteningIsUnique(t.view, t.shape);
      FlatteningIsUnique(other.view, other.shape);
      var _ := t.BackupToDatabase();
      assert forall h :: !HashOf(t.shape, h) ==> !exists p :: p in t.view && HashAt(t.view, p) == h;
      ElsewhereKept(t.shape, other.shape, other.mem.Keys, old(t.store.data), t.store.data);
      if old(Backed({}, Flatten(other.shape), t.store.data)) {
        ElsewhereKept(t.shape, other.shape, {}, old(t.store.data), t.store.data);
      }
      other.UntouchedStaysValid();
    }

    // ---- the trees, one operation at a time ----

    method ReadAccountTree(key: Key) returns (r: Option<Account>)
      requires Sound() && (key in accountTree.entries ==> accountTree.entries[key].AccountData?)
      modifies this`nodes, accountTree, transactionTree, store, nodes
      ensures Sound() && OnlyNewNodes()
      ensures SameTrees()
      ensures r == if key in accountTree.entries then Some(accountTree.entries[key].account) else None
    {
      r := accountTree.GetAccountEntry(key);
      OtherTreeUndisturbed(old(accountTree.view), old(accountTree.shape), old(accountTree.mem).Keys, old(store.data),
                           accountTree.view, accountTree.mem.Keys, store.data, old(accountTree.entries),
                           transactionTree.view, transactionTree.shape, transactionTree.mem.Keys,
                           transactionTree.entries, foreign);
      transactionTree.UntouchedStaysValid();
      nodes := nodes + accountTree.mem.Values;
    }

    method ReadTransactionTree(key: Key) returns (r: Option<Transaction>)
      requires Sound() && (key in transactionTree.entries ==> transactionTree.entries[key].TxData?)
      modifies this`nodes, accountTree, transactionTree, store, nodes
      ensures Sound() && OnlyNewNodes()
      ensures SameTrees()
      ensures r == if key in transactionTree.entries then Some(transactionTree.entries[key].tx) else None
    {
      r := transactionTree.GetTransactionEntry(key);
      OtherTreeUndisturbed(old(transactionTree.view), old(transactionTree.shape), old(transactionTree.mem).Keys,
                           old(store.data),
                           transactionTree.view, transactionTree.mem.Keys, store.data, old(transactionTree.entries),
                           accountTree.view, accountTree.shape, accountTree.mem.Keys, accountTree.entries, foreign);
      accountTree.UntouchedStaysValid();
      nodes := nodes + transactionTree.mem.Values;
    }

    method AddTransactionItem(item: Item)
      requires Sound() && item.index !in transactionTree.entries && item.index !in accountTree.entries
      modifies this`nodes, accountTree, transactionTree, store, nodes
      ensures Sound() && OnlyNewNodes()
      ensures accountTree.shape == old(accountTree.shape) && accountTree.entries == old(accountTree.entries)
      ensures transactionTree.entries == PutEntry(old(transactionTree.entries), item)
    {
      transactionTree.AddGivenItem(item, true);
      OtherTreeUndisturbed(old(transactionTree.view), old(transactionTree.shape), old(transactionTree.mem).Keys,
                           old(store.data),
                           transactionTree.view, transactionTree.mem.Keys, store.data, old(transactionTree.entries),
                           accountTree.view, accountTree.shape, accountTree.mem.Keys, accountTree.entries, foreign);
      accountTree.UntouchedStaysValid();
      nodes := nodes + transactionTree.mem.Values;
    }

    method AddAccountItem(item: Item)
      requires Sound() && item.index !in transactionTree.entries && item.index !in accountTree.entries
      modifies this`nodes, accountTree, transactionTree, store, nodes
      ensures Sound() && OnlyNewNodes()
      ensures transactionTree.shape == old(transactionTree.shape) && transactionTree.entries == old(transactionTree.entries)
      ensures accountTree.entries == PutEntry(old(accountTree.entries), item)
    {
      accountTree.AddGivenItem(item, false);
      OtherTreeUndisturbed(old(accountTree.view), old(accountTree.shape), old(accountTree.mem).Keys, old(store.data),
                           accountTree.view, accountTree.mem.Keys, store.data, old(accountTree.entries),
                           transactionTree.view, transactionTree.shape, transactionTree.mem.Keys,
                           transactionTree.entries, foreign);
      transactionTree.UntouchedStaysValid();
      nodes := nodes + accountTree.mem.Values;
    }

    method ReplaceAccountItem(item: Item)
      requires Sound() && item.index in accountTree.entries
      modifies this`nodes, accountTree, transactionTree, store, nodes
      ensures Sound() && OnlyNewNodes()
      ensures transactionTree.shape == old(transactionTree.shape) && transactionTree.entries == old(transactionTree.entries)
      ensures accountTree.entries == PutEntry(old(accountTree.entries), item)
    {
      var _ := accountTree.UpdateGivenItem(item);
      OtherTreeUndisturbed(old(accountTree.view), old(accountTree.shape), old(accountTree.mem).Keys, old(store.data),
                           accountTree.view, accountTree.mem.Keys, store.data, old(accountTree.entries),
                           transactionTree.view, transactionTree.shape, transactionTree.mem.Keys,
                           transactionTree.entries, foreign);
      transactionTree.UntouchedStaysValid();
      nodes := nodes + accountTree.mem.Values;
    }

    // ---- the ledger's operations ----

    method GetAccountEntry(address: Key) returns (r: Option<Account>)
      requires Valid()
      modifies this`nodes, accountTree, transactionTree, store, nodes
      ensures Valid() && OnlyNewNodes() && SameTrees()
      ensures r == if address in books.accounts then Some(books.accounts[address]) else None
    {
      MirroredKeys(accountTree.entries, transactionTree.entries, books);
      r := ReadAccountTree(address);
    }

    method GetTransactionEntry(h: Key) returns (r: Option<Transaction>)
      requires Valid()
      modifies this`nodes, accountTree, transactionTree, store, nodes
      ensures Valid() && OnlyNewNodes() && SameTrees()
      ensures r == if h in books.txs then Some(books.txs[h]) else None
    {
      MirroredKeys(accountTree.entries, transactionTree.entries, books);
      r := ReadTransactionTree(h);
    }

    /** Enters any account under any key that neither tree has. */
    method AddAccountTreeEntry(tag: Key, account: Account)
      requires Sound() && HeaderOk() && tag !in transactionTree.entries && tag !in accountTree.entries
      modifies this`hash, this`accountTreeHash, this`nodes, accountTree, transactionTree, store, nodes
      ensures Sound() && HeaderOk() && OnlyNewNodes()
      ensures transactionTree.entries == old(transactionTree.entries)
      ensures accountTree.entries == PutEntry(old(accountTree.entries), Item(tag, AccountData(account)))
    {
      AddAccountItem(Item(tag, AccountData(account)));
      UpdateAccountTreeHash();
    }

    /** Opens an account under its address. */
    method OpenAccount(address: Key)
      requires Valid() && address !in books.accounts && address !in books.txs
      modifies this`hash, this`accountTreeHash, this`books, this`nodes, accountTree, transactionTree, store, nodes
      ensures Valid() && OnlyNewNodes() && books == Create(old(books), address)
      ensures Opens(old(books), books, address)
    {
      CreateOpens(books, address);
      CreateKeepsInv(digest, books, address);
      MirroredKeys(accountTree.entries, transactionTree.entries, books);
      MirrorsAfterCreate(accountTree.entries, transactionTree.entries, books, address);
      AddAccountTreeEntry(address, Opened(address));
      Adopt(Create(books, address));
    }

    /** Applies a payment; 1 if the source cannot afford it, 0 if it is accepted. */
    method AddTransactionEntry(source: Key, destination: Key, amount: real) returns (code: int)
      requires Valid() && source in books.accounts && destination in books.accounts
      requires var tx := Stored(books, source, destination, amount);
        NoCollision(digest, books, tx) && digest(tx) !in books.accounts
      modifies this`hash, this`transactionTreeHash, this`accountTreeHash, this`books, this`nodes
      modifies accountTree, transactionTree, store, nodes
      ensures Valid() && OnlyNewNodes()
      ensures books == Pay(old(books), digest, ledgerSequence, source, destination, amount)
      ensures code == if old(Accepted(books, source, amount)) then 0 else 1
      ensures code == 1 ==> books == old(books) && hash == old(hash) && SameTrees()
      ensures code == 0 <==> amount <= old(books.accounts[source].balance)
      ensures code == 0 ==> Paid(old(books), books, digest, ledgerSequence, source, destination, amount)
    {
      ghost var b := books;
      code := Perform(source, destination, amount);
      PayIsPaid(digest, b, ledgerSequence, source, destination, amount, books);
    }

    method Perform(source: Key, destination: Key, amount: real) returns (code: int)
      requires Valid() && source in books.accounts && destination in books.accounts
      requires var tx := Stored(books, source, destination, amount);
        NoCollision(digest, books, tx) && digest(tx) !in books.accounts
      modifies this`hash, this`transactionTreeHash, this`accountTreeHash, this`books, this`nodes
      modifies accountTree, transactionTree, store, nodes
      ensures Valid() && OnlyNewNodes()
      ensures books == Pay(old(books), digest, ledgerSequence, source, destination, amount)
      ensures code == if old(Accepted(books, source, amount)) then 0 else 1
      ensures code == 1 ==> books == old(books) && hash == old(hash) && SameTrees()
    {
      var s, d := GetParties(source, destination);
      ghost var between := nodes;
      label Between:
      code := Apply(source, destination, amount, s, d);
      forall n | n in nodes && n !in old(nodes) ensures fresh(n) {
        if n !in between { assert fresh@Between(n); }
      }
    }

    method Apply(source: Key, destination: Key, amount: real, s: AccountCopy, d: AccountCopy) returns (code: int)
      requires Valid() && source in books.accounts && destination in books.accounts
      requires var tx := Stored(books, source, destination, amount);
        NoCollision(digest, books, tx) && digest(tx) !in books.accounts
      requires s != d && s.Value() == books.accounts[source] && d.Value() == books.accounts[destination]
      modifies s, d
      modifies this`hash, this`transactionTreeHash, this`accountTreeHash, this`books, this`nodes
      modifies accountTree, transactionTree, store, nodes
      ensures Valid() && OnlyNewNodes()
      ensures books == Pay(old(books), digest, ledgerSequence, source, destination, amount)
      ensures code == if old(Accepted(books, source, amount)) then 0 else 1
      ensures code == 1 ==> books == old(books) && hash == old(hash) && SameTrees()
    {
      var ok := Transfer(s, d, amount);
      if !ok {
        return 1;
      }
      ghost var between := nodes;
      label Between:
      Accept(source, destination, amount, s, d);
      forall n | n in nodes && n !in old(nodes) ensures fresh(n) {
        if n !in between { assert fresh@Between(n); }
      }
      code := 0;
    }

    /** Both account copies, taken before either changes. */
    method GetParties(source: Key, destination: Key) returns (s: AccountCopy, d: AccountCopy)
      requires Valid() && source in books.accounts && destination in books.accounts
      modifies this`nodes, accountTree, transactionTree, store, nodes
      ensures Valid() && OnlyNewNodes() && SameTrees()
      ensures fresh(s) && fresh(d) && s != d
      ensures s.Value() == books.accounts[source] && d.Value() == books.accounts[destination]
    {
      s := GetAccountCopy(source);
      ghost var between := nodes;
      label Between:
      d := GetAccountCopy(destination);
      forall n | n in nodes && n !in old(nodes) ensures fresh(n) {
        if n !in between { assert fresh@Between(n); }
      }
    }

    method GetAccountCopy(address: Key) returns (a: AccountCopy)
      requires Valid() && address in books.accounts
      modifies this`nodes, accountTree, transactionTree, store, nodes
      ensures Valid() && OnlyNewNodes() && SameTrees()
      ensures fresh(a) && a.Value() == books.accounts[address]
    {
      var entry := GetAccountEntry(address);
      a := new AccountCopy(entry.value);
    }

    /** Moves the amount between the copies, unless the source cannot afford it. */
    method Transfer(s: AccountCopy, d: AccountCopy, amount: real) returns (ok: bool)
      requires Valid() && s != d
      modifies s, d
      ensures Valid()
      ensures (s.Value(), ok) == old(Adjusted(s.Value(), -amount))
      ensures d.Value() == if ok then old(Adjusted(d.Value(), amount).0) else old(d.Value())
      ensures ok <==> amount <= old(s.balance)
      ensures s.balance == if ok then old(s.balance) - amount else old(s.balance)
      ensures d.balance == if ok then Received(old(d.balance), amount) else old(d.balance)
    {
      ok := s.AddBalance(-amount);
      if ok {
        var _ := d.AddBalance(amount);
      }
    }

    /** The rest of a payment, once the two balances have been adjusted in the copies. */
    method Accept(source: Key, destination: Key, amount: real, s: AccountCopy, d: AccountCopy)
      requires Valid() && source in books.accounts && destination in books.accounts
      requires var tx := Stored(books, source, destination, amount);
        NoCollision(digest, books, tx) && digest(tx) !in books.accounts
      requires Accepted(books, source, amount) && s != d
      requires s.Value() == Adjusted(books.accounts[source], -amount).0
      requires d.Value() == Adjusted(books.accounts[destination], amount).0
      modifies s, d
      modifies this`hash, this`transactionTreeHash, this`accountTreeHash, this`books, this`nodes
      modifies accountTree, transactionTree, store, nodes
      ensures Valid() && OnlyNewNodes()
      ensures books == Pay(old(books), digest, ledgerSequence, source, destination, amount)
    {
      var tx := Transaction(source, destination, amount, s.previousLedgerSeq, s.previousTxHash,
                            d.previousLedgerSeq, d.previousTxHash);
      var h := digest(tx);
      Stamp(s, d, h);
      PaymentWrites(digest, books, ledgerSequence, source, destination, amount, s.Value(), d.Value());
      ghost var between := nodes;
      label Between:
      RecordPayment(tx, h, s.Value(), d.Value(), Pay(books, digest, ledgerSequence, source, destination, amount));
      forall n | n in nodes && n !in old(nodes) ensures fresh(n) {
        if n !in between { assert fresh@Between(n); }
      }
    }

    /** Makes the payment the newest of both accounts. */
    method Stamp(s: AccountCopy, d: AccountCopy, h: Key)
      requires Valid() && s != d
      modifies s, d
      ensures Valid()
      ensures s.Value() == old(s.Value()).(previousLedgerSeq := ledgerSequence, previousTxHash := h)
      ensures d.Value() == old(d.Value()).(previousLedgerSeq := ledgerSequence, previousTxHash := h)
    {
      s.SetPrevious(ledgerSequence, h);
      d.SetPrevious(ledgerSequence, h);
    }

    /** Enters the transaction, then the two accounts. */
    method RecordPayment(tx: Transaction, h: Key, s: Account, d: Account, ghost b: Books)
      requires Valid() && h !in books.txs && h !in books.accounts
      requires s.address in books.accounts && d.address in books.accounts
      requires Inv(digest, b)
      requires b.accounts == PutAccount(PutAccount(books.accounts, s), d) && b.txs == PutTx(books.txs, h, tx)
      modifies this`hash, this`transactionTreeHash, this`accountTreeHash, this`books, this`nodes
      modifies accountTree, transactionTree, store, nodes
      ensures Valid() && OnlyNewNodes() && books == b
    {
      MirroredKeys(accountTree.entries, transactionTree.entries, books);
      MirrorsAfterPay(accountTree.entries, transactionTree.entries, books, b, h, tx, s, d);
      Settle(Item(h, TxData(tx)), AccountItem(s), AccountItem(d), b);
    }

    method Settle(tx: Item, s: Item, d: Item, ghost b: Books)
      requires Sound() && HeaderOk() && tx.index !in transactionTree.entries && tx.index !in accountTree.entries
      requires s.index in accountTree.entries && d.index in accountTree.entries
      requires Mirrors(PutEntry(PutEntry(accountTree.entries, s), d), PutEntry(transactionTree.entries, tx), b)
      modifies this`hash, this`transactionTreeHash, this`accountTreeHash, this`books, this`nodes
      modifies accountTree, transactionTree, store, nodes
      ensures Sound() && HeaderOk() && Holds(b) && OnlyNewNodes() && books == b
    {
      ChangeTrees(tx, s, d);
      Adopt(b);
    }

    method ChangeTrees(tx: Item, s: Item, d: Item)
      requires Sound() && HeaderOk() && tx.index !in transactionTree.entries && tx.index !in accountTree.entries
      requires s.index in accountTree.entries && d.index in accountTree.entries
      modifies this`hash, this`transactionTreeHash, this`accountTreeHash, this`nodes
      modifies accountTree, transactionTree, store, nodes
      ensures Sound() && HeaderOk() && OnlyNewNodes()
      ensures transactionTree.entries == PutEntry(old(transactionTree.entries), tx)
      ensures accountTree.entries == PutEntry(PutEntry(old(accountTree.entries), s), d)
    {
      EnterTransaction(tx);
      ghost var between := nodes;
      label Between:
      UpdateAccounts(s, d);
      forall n | n in nodes && n !in old(nodes) ensures fresh(n) {
        if n !in between { assert fresh@Between(n); }
      }
    }

    method EnterTransaction(item: Item)
      requires Sound() && HeaderOk() && item.index !in transactionTree.entries && item.index !in accountTree.entries
      modifies this`hash, this`transactionTreeHash, this`nodes, accountTree, transactionTree, store, nodes
      ensures Sound() && HeaderOk() && OnlyNewNodes()
      ensures transactionTree.entries == PutEntry(old(transactionTree.entries), item)
      ensures accountTree.entries == old(accountTree.entries)
    {
      AddTransactionItem(item);
      UpdateTransactionTreeHash();
    }

    /** The source's account is written first, the destination's last. */
    method UpdateAccounts(s: Item, d: Item)
      requires Sound() && HeaderOk() && s.index in accountTree.entries && d.index in accountTree.entries
      modifies this`hash, this`accountTreeHash, this`nodes, accountTree, transactionTree, store, nodes
      ensures Sound() && HeaderOk() && OnlyNewNodes()
      ensures transactionTree.entries == old(transactionTree.entries)
      ensures accountTree.entries == PutEntry(PutEntry(old(accountTree.entries), s), d)
    {
      UpdateAccountTreeEntry(s);
      ghost var between := nodes;
      label Between:
      UpdateAccountTreeEntry(d);
      forall n | n in nodes && n !in old(nodes) ensures fresh(n) {
        if n !in between { assert fresh@Between(n); }
      }
    }

    method UpdateAccountTreeEntry(item: Item)
      requires Sound() && HeaderOk() && item.index in accountTree.entries
      modifies this`hash, this`accountTreeHash, this`nodes, accountTree, transactionTree, store, nodes
      ensures Sound() && HeaderOk() && OnlyNewNodes()
      ensures transactionTree.entries == old(transactionTree.entries)
      ensures accountTree.entries == PutEntry(old(accountTree.entries), item)
    {
      ReplaceAccountItem(item);
      UpdateAccountTreeHash();
    }
  }
}

# A verified model of the Bubi ledger

The program keeps two radix Merkle trees over one key-value store and runs a payment ledger on top of them. It also ships the SQLite command shell, whose text formats are read back by the same program. This project models those parts in Dafny and proves what they are for.

**The tree.** A 16-way tree over 64-branch keys. Nodes are mutable objects, children are loaded from the store on demand, and loading a node deletes its record there. The tree exists three times:

- as a value (`Shape`, `ShapeOps`, `ShapeHash`, `ShapePaths`), where the mathematical facts are proved;
- as a flat collection of what each position holds (`FlatView`, `ViewChange`);
- as heap objects (`Node`, `TreeMemory`, `TreeSplit`, `TreeBatch`, `RadixTree`), whose methods are proved to carry the value along. A leaf is turned into an inner node in place, a chain of new nodes is hung below it, and the hashes are repaired one level at a time.

`TreeRuns`, `Canonical`, `TxOrder` and `Commitment` state what follows for whole runs, saved trees, insertion orders and root hashes. `TxUpdates` shows why only account leaves may be updated.

**The ledger.** `Books` and `LedgerRuns` are the state machine over values: accounts, transactions and the log of accepted payments. `Audit` checks it against the requests alone. `LedgerObject`, `Interface` and `Service` are the objects: two trees that share a store, a header, account copies (`AccountObject`), and the loop that follows an account's chain of payments. `StoreSharing` shows that neither tree disturbs the other's records and that none is left behind: a record is that of an unloaded node of one of the trees, or foreign, which is what other users of the store put there.

**Bytes.** `BaseUint`, `BranchMask`, `NodeCodec`, `NodeBytes` and `RecordBytes` relate keys, masks and records to the bytes and hexadecimal text that are stored. `ByteStore` is the store from text to bytes, which simulates the store of records.

**Text.** `Csv`, `CsvExport` and `CsvImport` are the CSV writer, the field reader and the import loop; `CsvLines` says what they make of a file as RFC 4180 describes it, and `CsvNulls` what a table becomes that is exported and imported. `CText`, `Buffers` and `CommandLine` are the C-string printer, the in-place unescaper and the tokenizer; `TokenLines` says what they make of a command line. `SqlText` is SQL quoting.

What is assumed:

- Digests are symbolic (`Types.Digest`): one constructor for each way the program forms a preimage. `NodeCodec.PreimageDetermines` proves that the real preimages of nodes are told apart in the same way. A transaction's key is given by an arbitrary function of the transaction, and each payment carries the hypothesis that this function does not confuse it with an accepted one (`Books.NoCollision`) or with an account's address.
- Payloads are the values their protobuf text stands for, and balances are exact real numbers.
- The header row of a saved ledger is passed on as a value.
- In `ByteStore`, the digests at hand have different bytes (`ByteStore.TellsApart`).

Where a comment in the source and its code differ, the model follows the code: the comment above `resolve_backslashes` lists `\s` for a space, and the code turns it into the letter s.

Claims that do not hold of the code, with the exact condition under which they do:

- A payment conserves the sum of balances exactly when `LedgerRuns.ConservesIff` says so. An accepted payment to oneself that the account can also receive changes the sum by its amount (`LedgerRuns.SelfPaymentCreatesMoney`), because the destination's copy is written last.
- Two insertion orders of the same transactions give the same root hash exactly when `TxOrder.SameRootIffSameFlags` says so. `TxOrder.TwoOrdersDiffer` gives a family of orders that do not and `TxOrder.OrderMatters` one of them, because new inner nodes are never flagged while a converted leaf keeps its flag.
- A root hash does not commit to all account data: `Commitment.RootCommitsExactly` says to which, from the additions and updates made. A new leaf is hashed by its index, so trees that only grew have the same root whatever their data (`Commitment.AddedDataIsNotCommitted`). An addition hashes the leaf it splits by its index again, so it also takes back what an earlier update had committed (`Commitment.NeighbourUncommits`).
- An updated leaf can be saved without losing another one if it is an account's. Two updated transaction leaves share a store key exactly when they hold the same data (`TxUpdates.SaveTwoUpdates`), because their digest leaves out the index. No caller updates a transaction.
- An exported table does not come back as it was if it has NULLs: they come back as the null text (`CsvNulls.ExportAndImportNulls`).
- A history is complete after a payment exactly when the ledger's sequence number is not 0 (`LedgerRuns.HistoryNeedsSequence`).

## Model

| member | source | states |
|---|---|---|
| TreeRuns.Run | src/ledger/radix_merkle_tree.cpp:63-288 | any run of additions of fresh keys, updates of present accounts and lookups, from any mix of loaded and unloaded nodes, answers exactly like a finite map and ends as that map, and adds no stray record to the store |
| TreeRuns.Perform | src/ledger/radix_merkle_tree.cpp:107-288 | one addition, account update or lookup changes the map it stands for in exactly that way, a lookup not at all, and adds no stray record to the store |
| TreeRuns.MerkleConsistency | src/ledger/radix_merkle_tree_node.cpp:125-172 | in every valid tree a loaded inner node's hash is the digest of its fields, a loaded child has the hash kept for it, an unloaded one is in the store under that hash, and nothing is loaded on an empty branch |
| TreeRuns.LeafFollowsPath | src/ledger/radix_merkle_tree.cpp:74-105 | a loaded leaf at depth d agrees with its path on its first d branches |
| TreeRuns.ExactlyOnePlace | src/database/rocksdb_imp.cpp:50-68 | a node of the tree whose hash is not that of a stray record is in memory if and only if it is not in the store |
| TreeRuns.SaveAndReopen | src/ledger/radix_merkle_tree.cpp:23-49 | saving a tree and opening it by its root hash gives the same tree and map, and adds no stray record |
| RadixTree.RadixMerkleTree.constructor | src/ledger/radix_merkle_tree.cpp:10-15 | a new tree is valid, empty and has a flagged or unflagged root |
| RadixTree.RadixMerkleTree.Open | src/ledger/radix_merkle_tree.cpp:23-28 | opening by hash loads only the root, removes its record, and stands for the saved tree |
| RadixTree.RadixMerkleTree.Descend | src/ledger/radix_merkle_tree.cpp:63-72 | returns the child on a branch; if it was unloaded, exactly its record moves from the store to memory, and nothing the tree stands for changes |
| RadixTree.RadixMerkleTree.GetStack | src/ledger/radix_merkle_tree.cpp:74-94 | the stack holds the nodes on the key's path, from the root to a leaf or to an empty branch, and only loads happen |
| RadixTree.RadixMerkleTree.WalkToLeaf | src/ledger/radix_merkle_tree.cpp:194-210 | finds a leaf if and only if the tree holds one with exactly this key, and only loads happen |
| RadixTree.RadixMerkleTree.HasItem | src/ledger/radix_merkle_tree.cpp:188-192 | true exactly for the keys of the map |
| RadixTree.RadixMerkleTree.GetAccountEntry | src/ledger/radix_merkle_tree.cpp:212-233 | the account the map holds for the key, or nothing |
| RadixTree.RadixMerkleTree.GetTransactionEntry | src/ledger/radix_merkle_tree.cpp:235-254 | the transaction the map holds for the key, or nothing |
| RadixTree.RadixMerkleTree.BuildChain | src/ledger/radix_merkle_tree.cpp:137-148 | the split loop ends where the two keys diverge, with one blank inner node for every shared branch; the converted leaf keeps its flag and new nodes get none |
| RadixTree.RadixMerkleTree.SplitLeaf | src/ledger/radix_merkle_tree.cpp:131-160 | after the split both items hang below the fork, every node off the path holds what it should, and those above are one level behind |
| RadixTree.RadixMerkleTree.DirtyUp | src/ledger/radix_merkle_tree.cpp:166-181 | repairs the hashes up the stack; every step changes its node's hash, so the assertion there never fires |
| RadixTree.RadixMerkleTree.AddGivenItem | src/ledger/radix_merkle_tree.cpp:107-164 | adding a fresh key keeps the tree valid, carries out the insertion on the value and adds exactly that entry; records of other trees stay in the store |
| RadixTree.RadixMerkleTree.UpdateGivenItem | src/ledger/radix_merkle_tree.cpp:267-288 | updating a present key replaces exactly its entry; the early return happens exactly when the tree stays the same, and then the data was the same |
| RadixTree.RadixMerkleTree.GetHash | src/ledger/radix_merkle_tree.cpp:290-293 | the root's hash is the hash of the tree |
| RadixTree.RadixMerkleTree.Collect | src/ledger/radix_merkle_tree.cpp:32-47 | the breadth-first loop lists each loaded node exactly once |
| RadixTree.RadixMerkleTree.BackupToDatabase | src/ledger/radix_merkle_tree.cpp:30-49 | afterwards every node of the tree is in the store, the batch has no duplicates and is the loaded nodes, and no other record changes |
| NodeStore.Node.Empty | src/ledger/radix_merkle_tree_node.cpp:10-18 | a new inner node has no children and the digest of that as its hash |
| NodeStore.Node.OfItem | src/ledger/radix_merkle_tree_node.h:24-30 | a new leaf's hash is its index, not a digest of its content |
| NodeStore.Node.UpdateHash | src/ledger/radix_merkle_tree_node.cpp:134-172 | the hash becomes the digest of the fields; the result says whether it changed |
| NodeStore.Node.SetChild | src/ledger/radix_merkle_tree_node.cpp:125-132 | sets hash, pointer and flag of one branch, leaves the others, and brings the node's hash up to date |
| NodeStore.Node.MakeInner | src/ledger/radix_merkle_tree_node.cpp:179-189 | the node is an inner node without children and with a zero hash; its flag stays |
| NodeStore.Node.SetItem | src/ledger/radix_merkle_tree_node.cpp:191-197 | the leaf carries the item under a digest of its content |
| NodeStore.Node.Decode | src/ledger/radix_merkle_tree_node.cpp:52-83 | restores the stored fields; an inner node's children start unloaded |
| NodeStore.Store.Fetch | src/database/rocksdb_imp.cpp:50-68 | returns a new node with the stored fields and the hash asked for, and deletes exactly that record |
| NodeStore.Store.StoreBatch | src/database/rocksdb_imp.cpp:76-92 | writes the batch in order over what was there |
| NodeStore.WrittenHas | src/database/rocksdb_imp.cpp:80-90 | a batch of nodes with different hashes leaves the record of each |
| TxUpdates.SaveTwoUpdates | src/ledger/radix_merkle_tree_node.cpp:150-155 | two updated transaction leaves get the same store key if and only if they hold the same data, and saving both then keeps the first one's record if and only if they are the same item |
| Shape.KeysAreUnique | src/ledger/radix_merkle_tree.cpp:74-105 | a well-formed tree holds each key at most once |
| Shape.FindIsMap | src/ledger/radix_merkle_tree.cpp:194-254 | walking the key's path answers exactly like the finite map of the tree's items |
| ShapeOps.InsertAddsItem | src/ledger/radix_merkle_tree.cpp:107-164 | insertion of a fresh key keeps the tree well formed and adds exactly one item |
| ShapeOps.UpdateReplacesItem | src/ledger/radix_merkle_tree.cpp:267-288 | an update keeps the tree well formed and replaces exactly that key's item |
| ShapeOps.InsertIsMapUpdate | src/ledger/radix_merkle_tree.cpp:107-164 | insertion is adding to the finite map |
| ShapeOps.UpdateIsMapUpdate | src/ledger/radix_merkle_tree.cpp:267-288 | an update is updating the finite map |
| ShapePaths.PathInvariant | src/ledger/radix_merkle_tree.cpp:74-105 | every item below a position agrees with that position on its first branches |
| ShapePaths.InnerDepth | src/ledger/radix_merkle_tree.cpp:80-104 | inner nodes have depth at most 63, so no branch beyond the 64th is asked for |
| ShapePaths.HashesAreDistinct | src/database/rocksdb_imp.cpp:76-92 | no two positions of a tree have the same hash, so no two nodes share a store key |
| ShapePaths.TreesShareNoHash | src/ledger/ledger.cpp:19-20 | a flagged and an unflagged tree without common keys share no hash |
| ShapeHash.ChangePropagates | src/ledger/radix_merkle_tree_node.cpp:126-132 | a child with a different hash, or on an empty branch, changes its parent's hash |
| ShapeHash.HashCommits | src/ledger/radix_merkle_tree_node.cpp:134-172 | equal hashes mean equal key sets, and equal data in the leaves last written by an update |
| ShapeHash.ContentIndexedRootCommits | src/ledger/ledger.cpp:134-137 | for leaves indexed by a digest of their content, equal root hashes mean equal items |
| Commitment.InsertKeepsAccounts | src/ledger/radix_merkle_tree.cpp:107-164 | adding an account to an account tree leaves an account tree |
| Commitment.UpdateSettles | src/ledger/radix_merkle_tree_node.cpp:191-197 | an update leaves an account tree whose root commits to the new item instead of the old one, and otherwise to what it did |
| Commitment.InsertUnsettles | src/ledger/radix_merkle_tree.cpp:131-160 | an addition takes out of what the root commits to exactly the leaf it meets and splits |
| Commitment.MetByKeys | src/ledger/radix_merkle_tree.cpp:74-105 | the leaf a new key meets is told from the keys alone: the only one that shares its first branches |
| Commitment.CommittedFromRun | src/ledger/radix_merkle_tree.cpp:107-288 | for every run of additions and updates, what the root commits to is told from the run alone |
| Commitment.SameRootIffSameSettled | src/ledger/radix_merkle_tree_node.cpp:134-172 | two account trees have the same root hash if and only if they have the same keys and the same data in the leaves last written by an update |
| Commitment.RootCommitsExactly | src/ledger/radix_merkle_tree.cpp:107-288 | two runs of additions and updates end with the same root hash if and only if they added the same keys and leave the same items committed: those updated since, with no later addition splitting their leaf |
| Commitment.AddedDataIsNotCommitted | src/ledger/radix_merkle_tree_node.h:29 | account trees that only grew have the same root hash for the same keys, whatever their data |
| Commitment.NeighbourUncommits | src/ledger/radix_merkle_tree.cpp:149-160 | two runs that leave different data in an updated account and still have the same root hash, because the account was split off by a later addition |
| Canonical.KeysFixOutline | src/ledger/radix_merkle_tree.cpp:107-164 | the key set alone fixes the shape of a tree, however it was built |
| Canonical.OrderDoesNotMatter | src/ledger/radix_merkle_tree.cpp:107-164 | any two orders of adding the same accounts give the same tree and the same root hash |
| TxOrder.InsertFlag | src/ledger/radix_merkle_tree_node.h:24-31 | adding a transaction keeps the flags of inner nodes, and flags a new one exactly when its parent was already inner |
| TxOrder.FlagsFromOrder | src/ledger/radix_merkle_tree.cpp:137-147 | the flag of every inner node is told from the order of additions alone |
| TxOrder.SameRootIffSameFlags | src/ledger/radix_merkle_tree.cpp:107-164 | two orders of the same transactions give the same root hash if and only if they give every shared position the same flag |
| TxOrder.TwoOrdersDiffer | src/ledger/radix_merkle_tree.cpp:137-147 | whenever two transactions share two branches and a third only the first of them, the order of the last two changes the root hash |
| TxOrder.OrderMatters | src/ledger/radix_merkle_tree_node.h:31 | three transactions and two orders with different root hashes |
| Books.PaymentIsFresh | src/ledger/ledger.cpp:118-137 | the key of a payment about to be stored is not in the transaction tree, because its source's chain has moved on |
| Books.PayKeepsInv | src/ledger/ledger.cpp:104-157 | a payment, accepted or refused, keeps chains complete, keys distinct and balances non-negative |
| Books.CreateKeepsInv | src/p2p/interface.cpp:25-32 | so does opening an account |
| Books.PayIsPaid | src/ledger/ledger.cpp:104-157 | a payment is accepted if and only if the source holds the amount, and then the new books are the only ones with exactly its effect |
| Books.HistoryStep | src/p2p/interface.cpp:52-69 | a pointer of the chain finds its payment, and that payment's own pointer leads to the one before it |
| Books.NewestFirstIsComplete | src/p2p/interface.cpp:40-71 | the list of payments, newest first, is the log at the positions that name the account |
| Books.PositionsAreComplete | src/p2p/interface.cpp:40-71 | these positions are all that name the account, each once, in decreasing order |
| LedgerRuns.ReachableInv | src/ledger/ledger.cpp:104-189 | every state reached by opening accounts and applying payments satisfies the invariant |
| LedgerRuns.BalancesStayNonNegative | src/ledger/account.h:26-31 | in every reachable state no balance is negative, whatever the amounts and even after payments to oneself |
| LedgerRuns.ConservesIff | src/ledger/ledger.cpp:111-115 | a payment conserves the sum of balances if and only if it is refused, or goes to another account that takes it, or goes to oneself with no effect |
| LedgerRuns.SelfPaymentCreatesMoney | src/ledger/ledger.cpp:153-154 | an accepted payment to oneself that the account can also receive changes the sum of balances by exactly its amount |
| LedgerRuns.MoneyIsConserved | src/ledger/ledger.cpp:104-157 | over any run of openings and non-negative payments between different accounts, the balances sum to 1000 times the number of accounts |
| LedgerRuns.HistoryIsComplete | src/p2p/interface.cpp:40-71 | in every reachable state the walk ends and lists exactly the payments naming the account, newest first |
| LedgerRuns.HistoryNeedsSequence | src/p2p/interface.cpp:52 | after an accepted payment the history is complete if and only if the sequence number is not 0 |
| LedgerRuns.RunsReach | src/ledger/ledger.cpp:104-189 | a run from a reachable state ends in a reachable state |
| Audit.RequestsTell | src/ledger/ledger.cpp:104-189 | for every run, whatever its amounts: the log is exactly the payments whose source held the amount at the time, in order, and every balance and the set of accounts follow from the requests alone |
| Audit.HistoryTellsBalance | src/p2p/interface.cpp:34-71 | in every reachable state an account holds what the payments of its own history leave of 1000 |
| Audit.BalanceIsDifference | src/ledger/ledger.cpp:111-116 | with non-negative payments between different accounts, a balance is 1000 plus what the account got less what it sent |
| AccountObject.AccountCopy.AddBalance | src/ledger/account.h:26-31 | the change is made, and the balance is the sum, exactly when the sum is not negative; otherwise the balance stays |
| AccountObject.AccountCopy.SetPrevious | src/ledger/account.h:32-37 | changes the pointers to the previous payment and nothing else |
| LedgerObject.Ledger.constructor | src/ledger/ledger.cpp:23-33 | a new ledger holds empty books under a current header with sequence number 1; the records already in the store are foreign to it |
| LedgerObject.Ledger.Open | src/ledger/ledger.cpp:10-21 | a ledger opened from its saved header holds the saved books, trees and hash; foreign to it are exactly the records of neither tree |
| LedgerObject.Ledger.UpdateAccountTreeHash | src/ledger/ledger.cpp:92-96 | the stored account root is current and the ledger hash follows |
| LedgerObject.Ledger.UpdateTransactionTreeHash | src/ledger/ledger.cpp:97-101 | the stored transaction root is current and the ledger hash follows |
| LedgerObject.Ledger.GetAccountEntry | src/ledger/ledger.cpp:159-162 | the account the books hold, or nothing; trees, books and header stay the same |
| LedgerObject.Ledger.GetTransactionEntry | src/ledger/ledger.cpp:164-167 | the transaction the books hold, or nothing; trees, books and header stay the same |
| LedgerObject.Ledger.AddAccountTreeEntry | src/ledger/ledger.cpp:169-177 | the account tree gains the entry, the transaction tree keeps its own, and the header is current |
| LedgerObject.Ledger.OpenAccount | src/p2p/interface.cpp:25-32 | one more account: its own address, 1000, sequence 0 and a zero hash; every other account and all transactions stay; both trees hold the books and the header is current |
| LedgerObject.Ledger.AddTransactionEntry | src/ledger/ledger.cpp:104-157 | returns 0 exactly when the amount is at most the source's balance; then one transaction with these parties, this amount and both previous payments is recorded, the parties lead to it, the amount has moved and nothing else has changed; otherwise nothing changes, trees and hashes included; both trees hold the books and the header is current |
| LedgerObject.Ledger.Transfer | src/ledger/ledger.cpp:114-116 | succeeds exactly when the amount is at most the source's balance; then the source has that much less, and the destination that much more unless that were negative |
| LedgerObject.Ledger.UpdateAccountTreeEntry | src/ledger/ledger.cpp:184-189 | replaces one account entry and keeps the header current |
| LedgerObject.Ledger.Save | src/ledger/radix_merkle_tree.cpp:17-21 | afterwards every node of both trees is in the shared store, and every other record is foreign |
| StoreSharing.OtherTreeStaysBacked | src/database/rocksdb_imp.cpp:50-68 | what an operation of one tree does to the store leaves the other tree's records there |
| StoreSharing.ElsewhereKept | src/database/rocksdb_imp.cpp:76-92 | changing only records of one tree leaves those of the other |
| StoreSharing.StaysAccounted | src/database/rocksdb_imp.cpp:50-92 | if every record belonged to an unloaded node of one of the trees or was foreign, that holds after any operation of either tree |
| StoreSharing.InOnePlace | src/database/rocksdb_imp.cpp:50-68 | then a node of either tree that is not foreign is in memory if and only if it is not in the store |
| Interface.CreateAccount | src/p2p/interface.cpp:25-32 | opens the account at the name's address with 1000 and no previous payment; every other account and all transactions stay |
| Interface.CreateTransaction | src/p2p/interface.cpp:10-17 | the same, for the accounts of two names |
| Interface.GetBalance | src/p2p/interface.cpp:34-38 | the balance the books hold, which is not negative |
| Interface.GetTransactionHistory | src/p2p/interface.cpp:40-71 | the loop ends and returns exactly the payments that name the account, newest first |
| Interface.FollowChain | src/p2p/interface.cpp:52-69 | following the pointers lists every payment the chain leads to |
| Service.Serve | src/ledger/ledger.cpp:104-189 | any run of openings and payments takes both trees and the header along with the books |
| Service.ServeNew | src/ledger/ledger.cpp:23-189 | a new ledger after any run holds a reachable state, with the accounts, payments and balances that follow from the requests alone; foreign to it are only the records that were in the store before |
| Service.SaveAndReopen | src/ledger/ledger.cpp:10-37 | saving a ledger and opening it again gives the same books, trees and hash, and leaves no record behind |
| Service.EachNodeInOnePlace | src/database/rocksdb_imp.cpp:50-68 | after every operation of a ledger, a node of either tree that is not foreign is in memory if and only if it is not in the shared store |
| Service.SameRootSameKeys | src/ledger/radix_merkle_tree.cpp:290-293 | two trees with the same root hash hold the same keys |
| Service.LedgerHashCommits | src/ledger/ledger.cpp:80-90 | two ledgers with the same hash have the same account addresses and the same transactions, as long as the transaction digest does not confuse them |
| BaseUint.HexDigit | src/base/base_uint.cpp:5-9 | the printed digit of a value reads back as that value |
| BaseUint.HexLetters | src/base/base_uint.h:49-56 | digits are printed in lower case, and read in either |
| BaseUint.BytesOfKey | src/ledger/radix_merkle_tree.cpp:96-105 | the 64 branches determine the 32 bytes |
| BaseUint.KeyOfBytes | src/ledger/radix_merkle_tree.cpp:96-105 | every sequence of 64 branches is that of some 32 bytes |
| BaseUint.HexDigitIsBranch | src/ledger/radix_merkle_tree.cpp:96-105 | the d-th hexadecimal digit of a key names the branch taken at depth d |
| BaseUint.HexByteOfHex | src/base/base_uint.h:42-48 | reading printed digits gives the printed bytes |
| BaseUint.ToHexInjective | src/base/base_uint.h:49-56 | two values have the same text if and only if they are equal |
| BaseUint.Uint256.Zero | src/base/base_uint.h:32-36 | every branch of the value is 0 |
| BaseUint.Uint256.Init | src/base/base_uint.h:37-41 | copies the first 32 bytes |
| BaseUint.Uint256.BinaryInit | src/base/base_uint.h:42-48 | byte i is what digits 2i and 2i+1 spell |
| BaseUint.Uint256.ToString | src/base/base_uint.h:49-56 | the text up to the NUL is the hexadecimal text of the bytes |
| BaseUint.Uint256.RoundTrip | src/base/base_uint.h:42-56 | printing and reading back restores every value |
| BaseUint.Uint256.Equals | src/base/base_uint.h:64-75 | true exactly when the two keys take the same branches |
| BranchMask.WithBranchSetsFlag | src/ledger/radix_merkle_tree_node.cpp:130 | setting a bit of the mask sets that flag and no other, within the 16 low bits |
| BranchMask.BitWeight | src/ledger/radix_merkle_tree_node.cpp:130 | the b-th flag has the weight 2 to the b |
| BranchMask.FlagsDetermineMask | src/ledger/radix_merkle_tree_node.cpp:95-98 | the flags lose nothing of a mask |
| BranchMask.FlagsOfWord | src/ledger/radix_merkle_tree_node.cpp:95-98 | every set of flags is that of a mask |
| NodeCodec.DecodeEncoded | src/ledger/radix_merkle_tree_node.cpp:28-83 | decoding the encoded bytes of any inner node, or of any leaf with data, restores every stored field |
| NodeCodec.Layout | src/ledger/radix_merkle_tree_node.cpp:28-50 | where each field is in the bytes: flag, type 1, 2 or 3, mask with its low byte first, then sixteen hashes, or index and data |
| NodeCodec.EncodedInjective | src/ledger/radix_merkle_tree_node.cpp:28-50 | two nodes have the same bytes if and only if they are equal |
| NodeCodec.PreimageDetermines | src/ledger/radix_merkle_tree_node.cpp:134-172 | two nodes are digested alike if and only if they are equal up to the index of a transaction leaf |
| NodeCodec.PreimageLayout | src/ledger/radix_merkle_tree_node.cpp:134-172 | what is digested: the head, a tag, then the hashes or the data, and the index in an account leaf only |
| NodeBytes.Serializer.AddRaw | src/base/serializer.cpp:41-47 | appends exactly the bytes given |
| NodeBytes.Serializer.AddSerializer | src/base/serializer.cpp:30-35 | appends the other's bytes |
| NodeBytes.StoredNode.Encode | src/ledger/radix_merkle_tree_node.cpp:28-50 | appends the encoding of the node |
| NodeBytes.StoredNode.Decode | src/ledger/radix_merkle_tree_node.cpp:52-83 | the node's value is what the bytes decode to |
| NodeBytes.EncodeNode.DoEncode | src/database/encode_node.cpp:9-21 | the key is the hash in hexadecimal and the value the encoding |
| NodeBytes.SaveAndLoad | src/database/encode_node.cpp:9-21 | a node written as an entry and read back is the same node |
| RecordBytes.BytesDetermineRecord | src/ledger/radix_merkle_tree_node.cpp:28-50 | the bytes of two records of the tree model are equal if and only if the records are |
| ByteStore.ReadSimulates | src/database/rocksdb_imp.cpp:50-68 | the bytes stored under a hash in hexadecimal decode to its record |
| ByteStore.DeleteSimulates | src/database/rocksdb_imp.cpp:50-68 | deleting the entry of a hash deletes exactly its record |
| ByteStore.PutSimulates | src/database/rocksdb_imp.cpp:76-92 | writing an entry writes exactly its record |
| ByteStore.PutAllIsWritten | src/database/rocksdb_imp.cpp:76-92 | a batch of entries stands for what the batch of nodes writes into the store of records |
| ByteStore.Database.Fetch | src/database/rocksdb_imp.cpp:50-68 | returns the node that the record under the hash stands for, and the store then stands for the records without it |
| ByteStore.Database.StoreBatch | src/database/rocksdb_imp.cpp:76-92 | the store then stands for the records with the batch written over them in order |
| Csv.FieldReadsBack | src/sqlite/shell.c:2176-2236 | reading a written field, before a separator or CR LF, gives the field and leaves what follows |
| Csv.QuotedReadsBack | src/sqlite/shell.c:2186-2222 | the quoted-field states undo the doubling of quotes, including quotes, separators, CR and LF inside the field, before every kind of ending and for any separators |
| Csv.BareFieldEndsRow | src/sqlite/shell.c:2223-2231 | a bare field before a row separator is its text, without its last character exactly if that is a CR |
| Csv.BareFieldEnds | src/sqlite/shell.c:2223-2233 | a bare field before a column separator, or at the end of the input, is its text |
| Csv.QuotedField | src/sqlite/shell.c:2186-2222 | a quoted field is its text before a separator, before CR and a row separator, and at the end of the input |
| Csv.UnclosedField | src/sqlite/shell.c:2213-2218 | a quoted field that is never closed is everything to the end of the input |
| Csv.StrayQuoteStays | src/sqlite/shell.c:2209-2221 | a single quote before another character stays in the field and does not end it |
| Csv.QuotedExactlyWhen | src/sqlite/shell.c:744-793 | a field is written as it is if and only if it is not empty and has only visible ASCII characters, no quote, no apostrophe and no separator; otherwise in quotes |
| Csv.DoubledPieces | src/sqlite/shell.c:784-787 | doubling changes nothing but the quotes, each of which becomes two |
| Csv.RowReadsBack | src/sqlite/shell.c:973-989 | a written row reads back as its fields |
| Csv.TableReadsBack | src/sqlite/shell.c:3094-3135 | a table exported with CR LF rows and imported with LF rows is the same table, for every one-character ASCII separator other than quote, CR, LF and NUL |
| CsvLines.LineReads | src/sqlite/shell.c:2176-2236 | a line of fields, bare or in quotes, reads as these fields and leaves what follows it |
| CsvLines.FileImports | src/sqlite/shell.c:3094-3135 | any file of such lines, ended by LF, CR LF or the input, is imported as one row for each line: its fields, extras dropped, NULL where it has none |
| CsvExport.Exporter.OutputField | src/sqlite/shell.c:769-794 | writes the field as it is exactly when it is not empty and has only visible ASCII characters, no quote, no apostrophe and no separator; otherwise in quotes with its quotes doubled |
| CsvExport.Exporter.OutputCsv | src/sqlite/shell.c:769-798 | writes the value in that way and, if asked, the separator; NULL as the null text |
| CsvExport.Exporter.OutputRow | src/sqlite/shell.c:981-986 | writes the values, NULL or not, with separators between them and the row separator at the end; nothing for no columns |
| CsvExport.Exporter.OutputTable | src/sqlite/shell.c:973-989 | writes the rows one after the other, whatever their lengths and NULLs; for rows of equal length without NULL that is the table that reads back |
| CsvImport.ImportCtx.ReadOneField | src/sqlite/shell.c:2176-2236 | for every input: the field, the terminating character and the rest of the input, as the statements about bare and quoted fields say |
| CsvImport.ImportCtx.ReadQuotedField | src/sqlite/shell.c:2186-2222 | for every input: the quoted field; a quote to strip back to always exists |
| CsvImport.ImportCtx.DropThroughQuote | src/sqlite/shell.c:2205 | strips the text back to before its last quote |
| CsvImport.ImportCtx.ReadPlainField | src/sqlite/shell.c:2223-2233 | for every input: the field up to a separator, without a CR before the row separator and with every other last character |
| CsvImport.Statement.Step | src/sqlite/shell.c:3127-3134 | a row is inserted only when every column has been bound exactly once for it |
| CsvImport.FillWithNulls | src/sqlite/shell.c:3110-3116 | binds NULL once to each missing column and leaves the others |
| CsvImport.SkipExtras | src/sqlite/shell.c:3118-3126 | reads to the end of the row |
| CsvImport.BindRow | src/sqlite/shell.c:3096-3117 | for every input: the columns are the row's fields, cut or filled with NULL |
| CsvImport.ImportRows | src/sqlite/shell.c:3094-3135 | for every input: the loop ends and inserts exactly the rows the text stands for, which FileImports names for every file of lines |
| CsvImport.ImportFile | src/sqlite/shell.c:3094-3135 | importing a file of lines inserts for each line its fields, however spelled, extras dropped, NULL where it has none |
| CsvImport.ExportAndImport | src/sqlite/shell.c:769-798 | exporting a table and importing the text gives the table back |
| CsvNulls.ExportAndImportNulls | src/sqlite/shell.c:769-798 | for any table: texts come back as they were, NULL comes back as the null text, and columns a row lacks as NULL |
| CText.UnescapeEscaped | src/sqlite/shell.c:677-703 | unescaping undoes escaping, for every byte |
| CText.QuotedTokenReadsBack | src/sqlite/shell.c:2626-2646 | a printed string is read as one token, which is the string |
| CText.TokensReadBack | src/sqlite/shell.c:2626-2646 | printed strings on a line are read back as they were |
| TokenLines.LetterMeans | src/sqlite/shell.c:1965-1986 | a backslash and one of a, b, t, n, v, f, r is a control from 7 to 13; with any other character but a digit from 0 to 7 it is that character |
| TokenLines.DigitsMean | src/sqlite/shell.c:1987-1997 | a backslash and up to three octal digits, as many as follow, is their value in one byte |
| TokenLines.NothingToUnescape | src/sqlite/shell.c:1963-1965 | a text without backslashes stands for itself |
| TokenLines.PrintedAsIs | src/sqlite/shell.c:677-703 | what is printed is visible ASCII, and it is the text itself if and only if that is visible and has no quote and no backslash |
| TokenLines.ArgThenRest | src/sqlite/shell.c:2626-2646 | after any blanks, a word up to a blank or the end, a text in apostrophes taken as it is, or one in quotes is the first token, and the line goes on after it |
| TokenLines.UnclosedApostrophe | src/sqlite/shell.c:2629-2637 | a token whose apostrophe is not closed reaches to the end of the line |
| TokenLines.UnclosedQuote | src/sqlite/shell.c:2629-2638 | so does one whose quote is not closed |
| TokenLines.LineSplits | src/sqlite/shell.c:2626-2646 | a line of any such arguments and blanks is split into what they stand for, those beyond the last slot dropped |
| CommandLine.OutputCString | src/sqlite/shell.c:677-703 | writes the quoted, escaped string |
| CommandLine.ResolveBackslashes | src/sqlite/shell.c:1960-2002 | for every text: the buffer then holds the unescaped text; the write index never passes the read index and nothing outside the text changes |
| CommandLine.ReadToken | src/sqlite/shell.c:2629-2645 | takes one token, leaves its text in the buffer as a C string and the rest of the line as it was; which token is what ArgThenRest says |
| CommandLine.Tokenize | src/sqlite/shell.c:2626-2646 | for every line: the arguments point to the tokens' texts, which LineSplits names, and later tokens leave earlier ones alone |
| CommandLine.SplitCommand | src/sqlite/shell.c:2626-2646 | the arguments of a command line are C strings that are what each argument on it stands for, up to fifty |
| CommandLine.PrintAndTokenize | src/sqlite/shell.c:677-703 | up to 50 strings printed on a command line come back, in order, as its arguments |
| SqlText.LiteralReadsBack | src/sqlite/shell.c:645-672 | a quoted text is one literal whose text it is, wherever no further quote follows |
| SqlText.OutputQuotedString | src/sqlite/shell.c:645-672 | writing piece by piece gives the text with every apostrophe doubled, between apostrophes |
| SqlText.SpaceFor | src/sqlite/shell.c:1104-1115 | the space computed beforehand is exactly what is needed |
| SqlText.AppendText | src/sqlite/shell.c:1103-1138 | the buffer, exactly full, holds the old text followed by the new one, quoted if asked |

## Left out

- RadixTree.RadixMerkleTree.UpdateGivenItem: only updates of account leaves, since no caller updates a transaction; `TxUpdates.SaveTwoUpdates` says what goes wrong there and when.
- TreeRuns.Run: its updates are of account leaves, for the same reason.
- TreeRuns.Perform: its updates are of account leaves, for the same reason.
- LedgerObject.Ledger.AddTransactionEntry: balances are exact real numbers, so rounding of the program's doubles is not modelled; the account root is brought up to date after each account and not once more at the end, where nothing has changed.
- LedgerObject.Ledger.Open: sequence numbers, coins and times are unbounded natural numbers, not 32-bit words, and the header comes as a value instead of a database row.
- NodeStore.Node.SetChild: the 16 hashes, pointers and flags are sequences that are reassigned, since no other object refers to the arrays; the mask is 16 flags here, and a word in module BranchMask.
- NodeStore.Node.Decode: works on records; the bytes are in NodeCodec and NodeBytes, where a node holds the bytes of its digests, and ByteStore relates the two.
- ByteStore.Database.Fetch: digests at hand are assumed to have different bytes.
- ByteStore.Database.StoreBatch: the same.
- RadixTree.RadixMerkleTree.WalkToLeaf: the three lookups of the source repeat one loop, which is modelled once.
- CsvImport.ImportCtx.ReadOneField: the growing allocation of the text buffer, interrupts and the warnings on standard error.
- CsvExport.Exporter.OutputRow: the optional header row.
- CommandLine.Tokenize: what the shell's commands do with their arguments.
- The node type TREE_NODE_TYPE_ERROR, which no code assigns.
- The lookup `has_account` and the getters of the ledger.
- SHA-512, RocksDB, SQLite, protobuf text and the rows of the ledger database.
- Sockets, threads, locks, logging, singletons and the JSON interface.
- The shell's other modes, options and commands.

/** Why only account leaves may be updated: the digest of an updated transaction leaf leaves out its index. */
module TxUpdates {
  import opened Types
  import opened NodeStore

  /** Updates two transaction leaves and saves them. They get the same store key if and only if they hold the same
      data, and then the first one's record is lost unless the two are the same item. */
  method SaveTwoUpdates(store: Store, a: Item, b: Item) returns (first: Node, second: Node)
    modifies store
    ensures fresh(first) && fresh(second) && first.HasItem() && second.HasItem()
    ensures first.item == Some(a) && second.item == Some(b)
    ensures first.hash == second.hash <==> a.data == b.data
    ensures first.hash in store.data && (store.data[first.hash] == first.Encode() <==> a.data != b.data || a == b)
    ensures second.hash in store.data && store.data[second.hash] == second.Encode()
  {
    first := new Node.OfItem(a, TxLeaf, []);
    second := new Node.OfItem(b, TxLeaf, []);
    var _ := first.SetItem(a, TxLeaf);
    var _ := second.SetItem(b, TxLeaf);
    store.StoreBatch([first, second]);
    ghost var batch := [first, second];
    assert Written(old(store.data), batch, 1) == Written(old(store.data), batch, 0)[first.hash := first.Encode()];
    assert Written(old(store.data), batch, 2) == Written(old(store.data), batch, 1)[second.hash := second.Encode()];
  }
}

/** Tree nodes as mutable objects, and the key-value store that holds unloaded nodes. */
module NodeStore {
  import opened Types
  import opened FlatView

  class Node {
    var hash: Digest
    var childHash: seq<Digest>
    var child: seq<Node?>
    var item: Option<Item>
    var flag: bool
    var kind: Kind
    var mask: Mask
    /** The node's position in its tree. */
    ghost const pos: Path

    ghost predicate Sized()
      reads this
    {
      |childHash| == 16 && |child| == 16 && |mask| == 16
    }

    /** A leaf carries an item. */
    predicate HasItem()
      reads this
    {
      kind != InnerNode ==> item.Some?
    }

    /** What `update_hash` computes. */
    function Computed(): Digest
      requires HasItem()
      reads this
    {
      match kind
      case InnerNode => InnerDigest(flag, mask, childHash)
      case TxLeaf => TxLeafDigest(flag, mask, item.value.data)
      case AcLeaf => AcLeafDigest(flag, mask, item.value.data, item.value.index)
    }

    constructor Empty(isTransactionTree: bool, ghost at: Path)
      ensures pos == at
      ensures Sized() && kind == InnerNode && flag == isTransactionTree && item == None
      ensures mask == EmptyMask() && childHash == NoHashes()
      ensures forall b :: 0 <= b < 16 ==> child[b] == null
      ensures hash == InnerDigest(flag, mask, childHash)
    {
      pos := at;
      flag := isTransactionTree;
      mask := EmptyMask();
      kind := InnerNode;
      item := None;
      childHash := NoHashes();
      child := seq(16, i => null);
      hash := Zero();
      new;
      var _ := UpdateHash();
    }

    constructor OfItem(it: Item, nodeKind: Kind, ghost at: Path)
      requires nodeKind != InnerNode
      ensures pos == at
      ensures Sized() && kind == nodeKind && flag == (nodeKind == TxLeaf) && item == Some(it)
      ensures mask == EmptyMask()
      ensures forall b :: 0 <= b < 16 ==> child[b] == null
      ensures hash == Raw(it.index)
    {
      pos := at;
      item := Some(it);
      kind := nodeKind;
      mask := EmptyMask();
      flag := nodeKind == TxLeaf;
      childHash := NoHashes();
      child := seq(16, i => null);
      hash := Zero();
      new;
      var _ := UpdateHash();
      hash := Raw(it.index);
    }

    predicate IsInner()
      reads this
    {
      kind == InnerNode
    }

    predicate IsEmptyBranch(branch: Nibble)
      requires |mask| == 16
      reads this
    {
      !mask[branch]
    }

    method Canonicalize(branch: Nibble, node: Node)
      requires |child| == 16
      modifies this`child
      ensures child == old(child)[branch := node]
    {
      child := child[branch := node];
    }

    /** Recomputes the hash; tells whether it changed. */
    method UpdateHash() returns (changed: bool)
      requires HasItem()
      modifies this`hash
      ensures hash == old(Computed())
      ensures changed == (old(hash) != hash)
    {
      var nh := Computed();
      changed := hash != nh;
      hash := nh;
    }

    method SetChild(node: Node, h: Digest, branch: Nibble) returns (changed: bool)
      requires Sized() && kind == InnerNode
      modifies this`childHash, this`child, this`mask, this`hash
      ensures childHash == old(childHash)[branch := h]
      ensures child == old(child)[branch := node]
      ensures mask == old(mask)[branch := true]
      ensures hash == InnerDigest(flag, mask, childHash)
      ensures changed == (old(hash) != hash)
    {
      childHash := childHash[branch := h];
      child := child[branch := node];
      mask := mask[branch := true];
      changed := UpdateHash();
    }

    /** Turns the node into an inner node without children, in place; the flag stays. */
    method MakeInner()
      requires Sized()
      modifies this`item, this`mask, this`kind, this`hash, this`childHash, this`child
      ensures Sized() && kind == InnerNode && item == None && hash == Zero()
      ensures mask == EmptyMask() && childHash == NoHashes()
      ensures forall b :: 0 <= b < 16 ==> child[b] == null
    {
      item := None;
      mask := EmptyMask();
      kind := InnerNode;
      hash := Zero();
      for i := 0 to 16
        invariant Sized() && kind == InnerNode && item == None && hash == Zero() && mask == EmptyMask()
        invariant forall b :: 0 <= b < i ==> childHash[b] == Zero() && child[b] == null
      {
        childHash := childHash[i := Zero()];
        child := child[i := null];
      }
    }

    method SetItem(it: Item, nodeKind: Kind) returns (changed: bool)
      requires nodeKind != InnerNode
      modifies this`kind, this`item, this`hash
      ensures kind == nodeKind && item == Some(it)
      ensures hash == Computed()
      ensures changed == (old(hash) != hash)
    {
      kind := nodeKind;
      item := Some(it);
      changed := UpdateHash();
    }

    /** The record `encode` writes. */
    function Encode(): Record
      requires HasItem()
      reads this
    {
      if kind == InnerNode then InnerRecord(flag, mask, childHash)
      else LeafRecord(kind, flag, mask, item.value)
    }

    /** Restores a node's fields from its record; children start unloaded. */
    method Decode(r: Record)
      requires r.InnerRecord? ==> |r.childHash| == 16
      requires r.LeafRecord? ==> r.kind != InnerNode
      modifies this`flag, this`kind, this`mask, this`childHash, this`child, this`item
      ensures flag == r.flag && mask == r.mask
      ensures r.InnerRecord? ==> kind == InnerNode && childHash == r.childHash && item == old(item)
      ensures r.InnerRecord? ==> |child| == 16 && forall b :: 0 <= b < 16 ==> child[b] == null
      ensures r.LeafRecord? ==> kind == r.kind && item == Some(r.item)
      ensures r.LeafRecord? ==> child == old(child) && childHash == old(childHash)
    {
      flag := r.flag;
      mask := r.mask;
      match r
      case InnerRecord(_, _, hashes) =>
        kind := InnerNode;
        childHash := hashes;
        child := seq(16, i => null);
      case LeafRecord(k, _, _, it) =>
        kind := k;
        item := Some(it);
    }
  }

  class Store {
    var data: map<Digest, Record>

    constructor ()
      ensures data == map[]
    {
      data := map[];
    }

    /** Reads a node and deletes its entry. */
    method Fetch(h: Digest, ghost at: Path) returns (node: Node)
      requires h in data && RecordOk(data[h])
      modifies this
      ensures data == old(data) - {h}
      ensures fresh(node) && node.pos == at && node.Sized() && node.HasItem()
      ensures node.hash == h && node.Encode() == old(data[h]) && (node.kind == InnerNode ==> node.item == None)
      ensures forall b :: 0 <= b < 16 ==> node.child[b] == null
    {
      var r := data[h];
      data := data - {h};
      node := new Node.Empty(false, at);
      node.hash := h;
      node.Decode(r);
    }

    method StoreBatch(batch: seq<Node>)
      requires forall i :: 0 <= i < |batch| ==> batch[i].HasItem()
      modifies this
      ensures data == Written(old(data), batch, |batch|)
    {
      for i := 0 to |batch|
        invariant data == Written(old(data), batch, i)
      {
        data := data[batch[i].hash := batch[i].Encode()];
      }
    }
  }

  ghost function Written(data: map<Digest, Record>, batch: seq<Node>, n: nat): map<Digest, Record>
    requires n <= |batch| && forall i :: 0 <= i < |batch| ==> batch[i].HasItem()
    reads set i | 0 <= i < |batch| :: batch[i]
  {
    if n == 0 then data else Written(data, batch, n - 1)[batch[n - 1].hash := batch[n - 1].Encode()]
  }

  lemma {:induction false} WrittenKeeps(data: map<Digest, Record>, batch: seq<Node>, n: nat, h: Digest)
    requires n <= |batch| && forall i :: 0 <= i < |batch| ==> batch[i].HasItem()
    requires forall i :: 0 <= i < n ==> batch[i].hash != h
    ensures h in Written(data, batch, n) <==> h in data
    ensures h in data ==> Written(data, batch, n)[h] == data[h]
  {
    if n > 0 { WrittenKeeps(data, batch, n - 1, h); }
  }

  /** A batch of nodes with different hashes leaves one entry for each. */
  lemma {:induction false} WrittenHas(data: map<Digest, Record>, batch: seq<Node>, n: nat, i: nat)
    requires i < n <= |batch| && forall j :: 0 <= j < |batch| ==> batch[j].HasItem()
    requires forall j :: 0 <= j < |batch| && j != i ==> batch[j].hash != batch[i].hash
    ensures batch[i].hash in Written(data, batch, n)
    ensures Written(data, batch, n)[batch[i].hash] == batch[i].Encode()
  {
    if i < n - 1 { WrittenHas(data, batch, n - 1, i); }
  }
}

/** Whole runs of a tree: it answers like a finite map, survives saving, and never keeps a node twice. */
module TreeRuns {
  import opened Types
  import opened Shape
  import opened ShapePaths
  import opened FlatView
  import opened TreeMemory
  import opened RadixTree
  import opened StoreSharing

  datatype Op = Add(item: Item, isTransaction: bool) | Replace(item: Item) | Find(key: Key)

  type Entries = map<Key, Payload>

  predicate LegalOp(m: Entries, op: Op) {
    match op
    case Add(item, _) => item.index !in m
    case Replace(item) => item.index in m
    case Find(_) => true
  }

  function AfterOp(m: Entries, op: Op): Entries {
    match op
    case Add(item, _) => m[item.index := item.data]
    case Replace(item) => m[item.index := item.data]
    case Find(_) => m
  }

  function AnswerOp(m: Entries, op: Op): Option<Payload> {
    if op.Find? && op.key in m then Some(m[op.key]) else None
  }

  function After(m: Entries, ops: seq<Op>): Entries {
    if ops == [] then m else AfterOp(After(m, ops[..|ops| - 1]), ops[|ops| - 1])
  }

  /** What a finite map that starts as m answers. */
  function Answers(m: Entries, ops: seq<Op>): (r: seq<Option<Payload>>)
    ensures |r| == |ops|
  {
    if ops == [] then [] else
      var before := ops[..|ops| - 1];
      Answers(m, before) + [AnswerOp(After(m, before), ops[|ops| - 1])]
  }

  lemma OneMoreOp(m: Entries, ops: seq<Op>, i: nat)
    requires i < |ops|
    ensures After(m, ops[..i + 1]) == AfterOp(After(m, ops[..i]), ops[i])
    ensures Answers(m, ops[..i + 1]) == Answers(m, ops[..i]) + [AnswerOp(After(m, ops[..i]), ops[i])]
  {
    assert ops[..i + 1][..i] == ops[..i];
  }

  ghost predicate Legal(m: Entries, ops: seq<Op>) {
    forall i {:trigger ops[..i]} :: 0 <= i < |ops| ==> LegalOp(After(m, ops[..i]), ops[i])
  }

  /** The store keys that are not those of unloaded nodes of t: another tree's, or left behind. */
  ghost function Strays(t: RadixMerkleTree): set<Digest>
    reads t, t.store
  {
    set h | h in t.store.data && !Owned(t.view, t.mem.Keys, h)
  }

  method Perform(t: RadixMerkleTree, op: Op) returns (answer: Option<Payload>)
    requires t.Valid() && LegalOp(t.entries, op)
    modifies t`mem, t`view, t`shape, t`entries, t.store, t.mem.Values
    ensures t.Valid() && Strays(t) <= old(Strays(t))
    ensures t.entries == AfterOp(old(t.entries), op)
    ensures answer == AnswerOp(old(t.entries), op)
    ensures forall p :: p in t.mem ==> (p in old(t.mem) && t.mem[p] == old(t.mem)[p]) || fresh(t.mem[p])
  {
    answer := None;
    match op
    case Add(item, isTransaction) => t.AddGivenItem(item, isTransaction);
    case Replace(item) => var _ := t.UpdateGivenItem(item);
    case Find(key) => answer := t.Lookup(key);
  }

  /** Every run of additions of fresh keys, updates of present keys and lookups, from any mix of loaded and
      unloaded nodes, answers exactly like the finite map. */
  method Run(t: RadixMerkleTree, ops: seq<Op>) returns (answers: seq<Option<Payload>>)
    requires t.Valid() && Legal(t.entries, ops)
    modifies t`mem, t`view, t`shape, t`entries, t.store, t.mem.Values
    ensures t.Valid()
    ensures t.entries == After(old(t.entries), ops)
    ensures answers == Answers(old(t.entries), ops)
    ensures Strays(t) <= old(Strays(t))
  {
    ghost var m := t.entries;
    answers := [];
    for i := 0 to |ops|
      invariant t.Valid() && t.entries == After(m, ops[..i])
      invariant answers == Answers(m, ops[..i])
      invariant forall p :: p in t.mem ==> t.mem[p] in old(t.mem).Values || fresh(t.mem[p])
      invariant Strays(t) <= old(Strays(t))
    {
      OneMoreOp(m, ops, i);
      ghost var between := t.mem;
      label Between:
      var answer := Perform(t, ops[i]);
      answers := answers + [answer];
      forall p | p in t.mem ensures t.mem[p] in old(t.mem).Values || fresh(t.mem[p]) {
        if !(p in between && t.mem[p] == between[p]) { assert fresh@Between(t.mem[p]); }
      }
    }
    assert ops[..|ops|] == ops;
  }

  /** Merkle consistency of every valid tree, hence after every operation: the hash of a loaded inner node is the
      digest of its fields; a child that is loaded has the hash kept for it, and one that is not is in the store
      under that hash; and no child is loaded on an empty branch. */
  lemma MerkleConsistency(t: RadixMerkleTree, p: Path)
    requires t.Valid() && p in t.mem && t.mem[p].IsInner()
    ensures var n := t.mem[p];
      && n.HasItem() && n.hash == n.Computed() && n.Sized() && |p| <= 63
      && forall b: Nibble ::
        && (n.child[b] != null ==> n.mask[b] && p + [b] in t.mem && n.child[b] == t.mem[p + [b]])
        && (n.child[b] != null ==> n.childHash[b] == n.child[b].hash)
        && (n.mask[b] && n.child[b] == null ==> n.childHash[b] in t.store.data)
  {
    assert Held(t.mem, t.view, p) && NodeOk(t.view, p);
    forall b: Nibble
      ensures t.mem[p].child[b] != null ==>
        t.mem[p].mask[b] && p + [b] in t.mem && t.mem[p].childHash[b] == t.mem[p + [b]].hash
      ensures t.mem[p].mask[b] && t.mem[p].child[b] == null ==> t.mem[p].childHash[b] in t.store.data
    {
      assert KidOk(t.view, p, b);
      if p + [b] in t.mem {
        assert Held(t.mem, t.view, p + [b]);
      } else if p + [b] in t.view {
        assert BackedAt(t.view, t.store.data, p + [b]);
      }
    }
  }

  /** A loaded leaf at depth d agrees with its path on its first d branches. */
  lemma LeafFollowsPath(t: RadixMerkleTree, p: Path)
    requires t.Valid() && p in t.mem && !t.mem[p].IsInner()
    ensures t.mem[p].item.Some? && |p| <= 64 && t.mem[p].item.value.index[..|p|] == p
  {
    assert Held(t.mem, t.view, p) && NodeOk(t.view, p);
  }

  /** A node of the tree whose hash is not a stray's is in memory or in the store, never in both. */
  lemma ExactlyOnePlace(t: RadixMerkleTree, p: Path)
    requires t.Valid() && p in t.view && HashAt(t.view, p) !in Strays(t)
    ensures p in t.mem <==> HashAt(t.view, p) !in t.store.data
  {
    if p !in t.mem {
      assert BackedAt(t.view, t.store.data, p);
    } else {
      forall q | q in t.view && q !in t.mem ensures HashAt(t.view, q) != HashAt(t.view, p) {
      }
      assert !Owned(t.view, t.mem.Keys, HashAt(t.view, p));
    }
  }

  /** Saving a tree and opening it again by its root hash gives back the same tree, and leaves no records behind. */
  method SaveAndReopen(t: RadixMerkleTree) returns (u: RadixMerkleTree)
    requires t.Valid()
    modifies t.store
    ensures u.Valid() && fresh(u) && u.store == t.store
    ensures u.shape == t.shape && u.entries == t.entries
    ensures Strays(u) <= old(Strays(t))
  {
    var _ := t.BackupToDatabase();
    var h := t.GetHash();
    FlatteningIsUnique(t.view, t.shape);
    MeansItsContents(t.entries, t.shape);
    ghost var saved := t.store.data;
    u := new RadixMerkleTree.Open(h, t.store, t.shape);
    forall e | e in Strays(u) ensures e in old(Strays(t)) {
      NoneLeftBehind(t.view, t.shape, t.mem.Keys, old(t.store.data), saved, e);
    }
  }

  lemma NoneLeftBehind(v: Views, t: Tree, loaded: set<Path>, data: map<Digest, Record>,
                       saved: map<Digest, Record>, h: Digest)
    requires Flattens(v, t) && v == Flatten(t)
    requires !(exists p :: p in v && HashAt(v, p) == h) ==> (h in saved <==> h in data)
    requires h in saved && h != Hash(t) && !Owned(v, {[]}, h)
    ensures h in data && !Owned(v, loaded, h)
  {
    assert !HashOf(t, h) by {
      if HashOf(t, h) { SavedIsOwned(t, h); }
    }
    forall p | p in v ensures HashAt(v, p) != h {
      assert Live(t, p);
    }
  }
}

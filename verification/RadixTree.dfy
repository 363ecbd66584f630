/** The radix Merkle tree over mutable nodes and a store, with children loaded on demand. */
module RadixTree {
  import opened Types
  import opened Shape
  import opened ShapeOps
  import opened ShapePaths
  import opened FlatView
  import opened ViewChange
  import opened NodeStore
  import opened TreeMemory
  import opened TreeSplit
  import opened TreeBatch

  class RadixMerkleTree {
    var root: Node
    const store: Store
    /** The value the tree stands for, and the same node by node. */
    ghost var shape: Tree
    ghost var view: Views
    /** The finite map the tree stands for. */
    ghost var entries: map<Key, Payload>
    /** The loaded nodes, by position. */
    ghost var mem: Memory

    ghost predicate Valid()
      reads this, store, mem.Values
    {
      Flattens(view, shape) && HeapOk() && Means(entries, shape)
    }

    ghost predicate HeapOk()
      reads this, store, mem.Values
    {
      && Coherent(view)
      && Rooted(mem)
      && mem[[]] == root
      && Faithful(mem, view)
      && Backed(mem.Keys, view, store.data)
    }

    /** A new empty tree. */
    constructor (isTransactionTree: bool, db: Store)
      ensures Valid() && store == db
      ensures fresh(mem.Values)
      ensures shape == EmptyRoot(isTransactionTree) && entries == map[]
    {
      store := db;
      var n := new Node.Empty(isTransactionTree, []);
      root := n;
      shape := EmptyRoot(isTransactionTree);
      view := Flatten(EmptyRoot(isTransactionTree));
      entries := map[];
      mem := map[[] := n];
      new;
      EmptyRootView(isTransactionTree);
      EmptyMeansNothing(isTransactionTree);
      OnlyRoot(n, view);
    }

    /** Opens a saved tree: only its root is loaded. */
    constructor Open(h: Digest, db: Store, ghost t: Tree)
      requires WFRoot(t) && Hash(t) == h && Backed({}, Flatten(t), db.data)
      modifies db
      ensures Valid() && store == db && shape == t && view == Flatten(t) && entries == Contents(t)
      ensures mem.Keys == {[]} && fresh(mem.Values)
      ensures db.data == old(db.data) - {h}
    {
      SavedRoot(t, db.data);
      store := db;
      var n := db.Fetch(h, []);
      root := n;
      shape := t;
      view := Flatten(t);
      entries := Contents(t);
      mem := map[[] := n];
      new;
      OpenedIsBacked(t, old(db.data), n);
      MeansItsContents(Contents(t), t);
    }

    /** Since the old state, some nodes moved from the store to memory and nothing else happened. */
    twostate predicate OnlyLoads()
      reads this, store
    {
      && Loaded(view, old(mem), old(store.data), mem, store.data)
      && (forall p {:trigger mem[p]} :: p in mem && p !in old(mem) ==> fresh(mem[p]))
    }

    /** What every operation guarantees for the entries of the store. */
    twostate predicate StoreKept()
      reads this, store
    {
      StoreFrame(old(view), old(mem).Keys, old(store.data), view, mem.Keys, store.data)
    }

    /** A tree whose own objects did not change stays valid as long as its unloaded nodes stay in the store. */
    twostate lemma UntouchedStaysValid()
      requires old(Valid()) && unchanged(this) && unchanged(mem.Values)
      requires Backed(mem.Keys, view, store.data)
      ensures Valid()
    {
      forall p | p in mem ensures Held(mem, view, p) {
        var held := old(Held(mem, view, p));
        assert held && mem[p] in mem.Values;
      }
    }

    method GetHash() returns (h: Digest)
      requires Valid()
      ensures h == Hash(shape)
    {
      assert Held(mem, view, []);
      assert At(shape, []) == shape;
      h := root.hash;
    }

    /** Returns the child on a branch, taking it from the store if it is not in memory. */
    method Descend(parent: Node, branch: Nibble, ghost p: Path) returns (node: Node)
      requires HeapOk()
      requires p in mem && mem[p] == parent && InnerAt(view, p) && p + [branch] in view
      modifies this`mem, store, parent
      ensures HeapOk()
      ensures p + [branch] in mem && mem[p + [branch]] == node
      ensures p + [branch] in old(mem) ==> mem == old(mem) && store.data == old(store.data)
      ensures p + [branch] !in old(mem) ==>
        && fresh(node)
        && mem == old(mem)[p + [branch] := node]
        && store.data == old(store.data) - {HashAt(view, p + [branch])}
    {
      assert Held(mem, view, p);
      var c := parent.child[branch];
      assert c == Slot(mem, p + [branch]);
      if c != null {
        return c;
      }
      node := Load(parent, branch, p);
    }

    method Load(parent: Node, branch: Nibble, ghost p: Path) returns (node: Node)
      requires HeapOk()
      requires p in mem && mem[p] == parent && InnerAt(view, p)
      requires p + [branch] in view && p + [branch] !in mem
      modifies this`mem, store, parent
      ensures HeapOk()
      ensures fresh(node)
      ensures mem == old(mem)[p + [branch] := node]
      ensures store.data == old(store.data) - {HashAt(view, p + [branch])}
    {
      ghost var q := p + [branch];
      assert Held(mem, view, p);
      assert NodeOk(view, p) && KidOk(view, p, branch) && NodeOk(view, q) && BackedAt(view, store.data, q);
      node := FetchChild(store, parent, branch, view[q], view[p], q);
      ghost var before := mem;
      mem := before[q := node];
      forall r | r in before && r != p ensures Held(before, view, r) {
        assert old(Held(mem, view, r));
      }
      LoadKeepsFaithful(before, view, p, branch, node, old(parent.child));
      BackedAfterFetch(before.Keys, view, old(store.data), q);
      assert before.Keys + {q} == mem.Keys;
      LoadKeepsRooted(before, p, branch, node);
    }

    /** Moves one step down the path of a key, which has a node there. */
    method Advance(node: Node, key: Key, depth: nat, ghost mem0: Memory, ghost data0: map<Digest, Record>)
        returns (child: Node)
      requires HeapOk() && depth < 64 && key[..depth] in mem && mem[key[..depth]] == node
      requires InnerAt(view, key[..depth]) && key[..depth + 1] in view && Loaded(view, mem0, data0, mem, store.data)
      modifies this`mem, store, node
      ensures HeapOk() && Loaded(view, mem0, data0, mem, store.data)
      ensures key[..depth + 1] in mem && mem[key[..depth + 1]] == child && Held(mem, view, key[..depth + 1])
      ensures key[..depth + 1] in old(mem) ==> mem == old(mem)
      ensures key[..depth + 1] !in old(mem) ==> fresh(child) && mem == old(mem)[key[..depth + 1] := child]
    {
      KeyStep(key, depth);
      child := Descend(node, key[depth], key[..depth]);
      LoadedOneMore(view, mem0, data0, old(mem), old(store.data), mem, store.data, key[..depth + 1]);
      assert Held(mem, view, key[..depth + 1]);
    }

    /** The nodes on the path of a key, from the root down to a leaf or to an empty branch. */
    method GetStack(key: Key) returns (stack: seq<(Node, nat)>)
      requires HeapOk()
      modifies this`mem, store, mem.Values
      ensures HeapOk() && OnlyLoads()
      ensures OnPath(stack, mem, key) && StackEnds(view, key, |stack| - 1)
    {
      var node := root;
      var depth: nat := 0;
      stack := [];
      ghost var mem0, data0 := mem, store.data;
      LoadedNothing(view, mem, store.data);
      assert Held(mem, view, []);
      while node.IsInner()
        invariant HeapOk() && Loaded(view, mem0, data0, mem, store.data)
        invariant forall p {:trigger mem[p]} :: p in mem && p !in mem0 ==> fresh(mem[p])
        invariant depth <= 64 && key[..depth] in mem && mem[key[..depth]] == node && Held(mem, view, key[..depth])
        invariant |stack| == depth && OnPath(stack, mem, key)
        decreases 64 - depth
      {
        InnerStep(view, key, depth);
        OnPathPush(stack, mem, key, node);
        stack := stack + [(node, depth)];
        if node.IsEmptyBranch(key[depth]) {
          PathEnds(view, key, depth);
          return;
        }
        ghost var before := mem;
        node := Advance(node, key, depth, mem0, data0);
        OnPathGrows(stack, before, mem, key, key[..depth + 1]);
        depth := depth + 1;
      }
      PathEnds(view, key, depth);
      OnPathPush(stack, mem, key, node);
      stack := stack + [(node, depth)];
    }

    /** Walks to the leaf on the path of a key; null unless that leaf has exactly this key. */
    method WalkToLeaf(key: Key) returns (leaf: Node?, ghost n: nat)
      requires HeapOk()
      modifies this`mem, store, mem.Values
      ensures HeapOk() && OnlyLoads()
      ensures StackEnds(view, key, n)
      ensures leaf != null <==> LeafAt(view, key[..n]) && view[key[..n]].rec.item.index == key
      ensures leaf != null ==> key[..n] in mem && leaf == mem[key[..n]]
    {
      var now := root;
      var depth: nat := 0;
      ghost var mem0, data0 := mem, store.data;
      LoadedNothing(view, mem, store.data);
      assert Held(mem, view, []);
      while now.IsInner()
        invariant HeapOk() && Loaded(view, mem0, data0, mem, store.data)
        invariant forall p {:trigger mem[p]} :: p in mem && p !in mem0 ==> fresh(mem[p])
        invariant depth <= 64 && key[..depth] in mem && mem[key[..depth]] == now && Held(mem, view, key[..depth])
        decreases 64 - depth
      {
        InnerStep(view, key, depth);
        if now.IsEmptyBranch(key[depth]) {
          PathEnds(view, key, depth);
          return null, depth;
        }
        now := Advance(now, key, depth, mem0, data0);
        depth := depth + 1;
      }
      PathEnds(view, key, depth);
      leaf, n := if now.item.value.index == key then now else null, depth;
    }

    /** Looks a key up; answers exactly like the finite map and changes nothing but what is loaded. */
    method Lookup(key: Key) returns (r: Option<Payload>)
      requires Valid()
      modifies this`mem, store, mem.Values
      ensures Valid() && OnlyLoads() && StoreKept()
      ensures r == if key in entries then Some(entries[key]) else None
    {
      var leaf;
      ghost var n;
      leaf, n := WalkToLeaf(key);
      LoadsKeepStore(view, old(mem).Keys, mem, old(store.data));
      FindFromView(view, shape, key, n);
      if leaf == null {
        return None;
      }
      assert Held(mem, view, key[..n]);
      return Some(leaf.item.value.data);
    }

    method HasItem(key: Key) returns (r: bool)
      requires Valid()
      modifies this`mem, store, mem.Values
      ensures Valid() && OnlyLoads() && StoreKept()
      ensures r == (key in entries)
    {
      var found := Lookup(key);
      r := found.Some?;
    }

    method GetAccountEntry(key: Key) returns (r: Option<Account>)
      requires Valid() && (key in entries ==> entries[key].AccountData?)
      modifies this`mem, store, mem.Values
      ensures Valid() && OnlyLoads() && StoreKept()
      ensures r == if key in entries then Some(entries[key].account) else None
    {
      var found := Lookup(key);
      r := if found.Some? then Some(found.value.account) else None;
    }

    method GetTransactionEntry(key: Key) returns (r: Option<Transaction>)
      requires Valid() && (key in entries ==> entries[key].TxData?)
      modifies this`mem, store, mem.Values
      ensures Valid() && OnlyLoads() && StoreKept()
      ensures r == if key in entries then Some(entries[key].tx) else None
    {
      var found := Lookup(key);
      r := if found.Some? then Some(found.value.tx) else None;
    }

    /** Walks back up the stack, giving each node the child below it and so its new hash. */
    method DirtyUp(stack: seq<(Node, nat)>, index: Key, start: Node, ghost m: Memory, ghost v: Views)
      requires |stack| <= 64 && OnPath(stack, m, index)
      requires index[..|stack|] in m && m[index[..|stack|]] == start
      requires Positioned(m) && HeldExceptAbove(m, v, index, |stack|)
      requires forall i {:trigger PendingAt(m, v, index, i)} :: 0 <= i < |stack| ==> PendingAt(m, v, index, i)
      modifies set i | 0 <= i < |stack| :: stack[i].0
      ensures Faithful(m, v)
    {
      var child := start;
      var n := |stack|;
      while n > 0
        invariant 0 <= n <= |stack|
        invariant index[..n] in m && m[index[..n]] == child
        invariant HeldExceptAbove(m, v, index, n)
        invariant forall i {:trigger PendingAt(m, v, index, i)} :: 0 <= i < n ==> PendingAt(m, v, index, i)
      {
        var (node, depth) := stack[n - 1];
        n := n - 1;
        assert PendingAt(m, v, index, n);
        KeyStep(index, n);
        assert Held(m, v, index[..n + 1]);
        label L:
        var changed := node.SetChild(child, child.hash, index[depth]);
        assert changed;
        forall p | p in m && !Above(index, n, p) ensures Held(m, v, p) {
          if p == index[..n] {
            ChildSet(m, v, p, index[n], old@L(node.child), child);
          } else {
            assert old@L(Held(m, v, p));
          }
        }
        forall i | 0 <= i < n ensures PendingAt(m, v, index, i) {
          assert old@L(PendingAt(m, v, index, i)) && |index[..i]| == i;
        }
        child := node;
      }
    }

    /** Hangs a new leaf on an empty branch of the inner node at depth n. */
    method AttachLeaf(node: Node, item: Item, kind: Kind, n: nat, ghost v': Views) returns (ghost m: Memory)
      requires HeapOk() && kind != InnerNode && n < 64
      requires item.index[..n] in mem && mem[item.index[..n]] == node
      requires item.index[..n + 1] !in view && LeafAdded(view, v', item, kind, n)
      modifies node
      ensures item.index[..n + 1] in m && m == mem[item.index[..n + 1] := m[item.index[..n + 1]]]
      ensures fresh(m[item.index[..n + 1]])
      ensures Rooted(m) && Positioned(m) && HeldExceptAbove(m, v', item.index, n)
      ensures forall i {:trigger PendingAt(m, v', item.index, i)} :: 0 <= i < n ==> PendingAt(m, v', item.index, i)
    {
      ghost var k := item.index;
      ghost var p, q := k[..n], k[..n + 1];
      KeyStep(k, n);
      FaithfulIsPositioned(mem, view);
      assert Held(mem, view, p) && PathChanged(view, v', k, n);
      var leaf := new Node.OfItem(item, kind, q);
      m := mem[q := leaf];
      var branch := item.index[n];
      var changed := node.SetChild(leaf, leaf.hash, branch);
      assert changed;
      forall r | r in m && !Above(k, n, r) ensures Held(m, v', r) {
        if r == q {
          LinkedFresh(leaf, mem, q);
        } else if r == p {
          LinkedParent(node, old(node.child), mem, branch, leaf);
        } else {
          assert old(Held(mem, view, r));
          LinkedElsewhere(mem[r], mem, p, branch, leaf);
        }
      }
      forall i | 0 <= i < n ensures PendingAt(m, v', k, i) {
        assert PathChanged(view, v', k, i);
        PathIsLoaded(mem, k, i, n);
        assert old(Held(mem, view, k[..i]));
        OtherSlots(mem, k, i, q, leaf);
        PathIsPending(mem, view, m, v', k, i);
      }
      LoadKeepsRooted(mem, p, branch, leaf);
    }

    /** Turns the leaf at depth n into an inner node and hangs new inner nodes below it, one for each
        further branch the keys k and o share. */
    method BuildChain(leaf: Node, below: seq<(Node, nat)>, k: Key, o: Key, n: nat, ghost d: nat)
      returns (node: Node, depth: nat, stack: seq<(Node, nat)>, ghost m: Memory)
      requires HeapOk() && n <= d && Fork(k, o, d)
      requires LeafAt(view, k[..n]) && k[..n] in mem && mem[k[..n]] == leaf
      requires |below| == n && OnPath(below, mem, k)
      modifies leaf
      ensures depth == d && |stack| == d && OnPath(stack, m, k)
      ensures k[..d] in m && m[k[..d]] == node && (node == leaf || fresh(node))
      ensures Positioned(m) && ChainGrown(mem, m, k, n, d)
      ensures forall p :: p in m && p !in mem ==> fresh(m[p])
      ensures forall j {:trigger BlankAt(m, k, n, old(leaf.flag), j)} :: n <= j <= d ==> BlankAt(m, k, n, old(leaf.flag), j)
    {
      ghost var flag := leaf.flag;
      FaithfulIsPositioned(mem, view);
      assert Held(mem, view, k[..n]);
      node, depth, stack, m := leaf, n, below, mem;
      node.MakeInner();
      while k[depth] == o[depth]
        invariant n <= depth <= d && |stack| == depth && OnPath(stack, m, k)
        invariant k[..depth] in m && m[k[..depth]] == node && (node == leaf || fresh(node))
        invariant Positioned(m) && ChainGrown(mem, m, k, n, depth) && BlankChain(m, k, n, flag, depth)
        invariant forall p :: p in m && p !in mem ==> fresh(m[p])
        decreases d - depth
      {
        OnPathPush(stack, m, k, node);
        stack := stack + [(node, depth)];
        ghost var q, before := k[..depth + 1], m;
        assert q[..n] == k[..n];
        LeafEndsPath(view, q, n);
        ChainGrows(mem, m, k, n, depth, node);
        node, m := NewLink(k, n, flag, depth, m);
        ChainGrows(mem, before, k, n, depth, node);
        depth := depth + 1;
        OnPathGrows(stack, before, m, k, q);
      }
    }

    /** Builds the chain; the nodes off it stay as they are. */
    method ChainBelow(leaf: Node, below: seq<(Node, nat)>, k: Key, o: Key, n: nat, ghost d: nat)
      returns (node: Node, depth: nat, stack: seq<(Node, nat)>, ghost m: Memory)
      requires HeapOk() && n <= d && Fork(k, o, d)
      requires LeafAt(view, k[..n]) && k[..n] in mem && mem[k[..n]] == leaf
      requires |below| == n && OnPath(below, mem, k)
      modifies leaf
      ensures depth == d && |stack| == d && OnPath(stack, m, k)
      ensures k[..d] in m && m[k[..d]] == node && (node == leaf || fresh(node))
      ensures Positioned(m) && ChainGrown(mem, m, k, n, d)
      ensures forall p :: p in m && p !in mem ==> fresh(m[p])
      ensures forall j {:trigger BlankAt(m, k, n, view[k[..n]].rec.flag, j)} ::
        n <= j <= d ==> BlankAt(m, k, n, view[k[..n]].rec.flag, j)
      ensures forall p {:trigger Held(mem, view, p)} :: p in mem && p != k[..n] ==> Held(mem, view, p)
    {
      assert Held(mem, view, k[..n]);
      FaithfulIsPositioned(mem, view);
      node, depth, stack, m := BuildChain(leaf, below, k, o, n, d);
      forall p | p in mem && p != k[..n] ensures Held(mem, view, p) {
        var held := old(Held(mem, view, p));
        assert held && mem[p].pos == p;
      }
    }

    /** Replaces the leaf at depth n by a subtree that holds its item and the new one. */
    method SplitLeaf(leaf: Node, below: seq<(Node, nat)>, item: Item, other: Item, kind: Kind, n: nat,
                     ghost d: nat, ghost v': Views)
      returns (node: Node, stack: seq<(Node, nat)>, ghost m: Memory)
      requires HeapOk() && kind != InnerNode
      requires LeafSplit(view, v', item, other, kind, n, d) && view[item.index[..n]].rec.item == other
      requires item.index[..n] in mem && mem[item.index[..n]] == leaf
      requires |below| == n && OnPath(below, mem, item.index)
      modifies leaf
      ensures |stack| == d && OnPath(stack, m, item.index)
      ensures item.index[..d] in m && m[item.index[..d]] == node
      ensures Positioned(m) && SplitGrown(mem, m, item.index, other.index, n, d)
      ensures forall p :: p in m && p !in mem ==> fresh(m[p])
      ensures HeldExceptAbove(m, v', item.index, d)
      ensures forall i {:trigger PendingAt(m, v', item.index, i)} :: 0 <= i < d ==> PendingAt(m, v', item.index, i)
    {
      var k, o := item.index, other.index;
      FaithfulIsPositioned(mem, view);
      var depth;
      ghost var m1;
      node, depth, stack, m1 := ChainBelow(leaf, below, k, o, n, d);
      m := HangLeaves(node, item, other, kind, depth, n, mem, view, m1, v');
      OnPathSplit(stack, m1, m, k);
    }

    method AddAtBranch(stack: seq<(Node, nat)>, item: Item, kind: Kind, n: nat, ghost v': Views) returns (ghost m: Memory)
      requires HeapOk() && kind != InnerNode && n < 64
      requires |stack| == n + 1 && OnPath(stack, mem, item.index)
      requires InnerAt(view, item.index[..n]) && item.index[..n + 1] !in view && LeafAdded(view, v', item, kind, n)
      modifies mem.Values
      ensures Faithful(m, v') && Rooted(m) && m[[]] == root
      ensures SameUnloaded(mem.Keys, view, m.Keys, v')
      ensures forall p {:trigger m[p]} :: p in m ==> (p in mem && m[p] == mem[p]) || fresh(m[p])
    {
      ghost var k := item.index;
      FaithfulIsPositioned(mem, view);
      var node := stack[n].0;
      m := AttachLeaf(node, item, kind, stack[n].1, v');
      assert m[k[..n]] == node by { assert |k[..n]| != |k[..n + 1]|; }
      OnPathGrows(stack, mem, m, k, k[..n + 1]);
      OnPathPop(stack, m, k, n);
      DirtyUp(stack[..n], item.index, node, m, v');
      AttachKeepsUnloaded(mem, view, m, v', item, kind, n);
    }

    method AddAtLeaf(stack: seq<(Node, nat)>, item: Item, kind: Kind, n: nat, ghost d: nat, ghost v': Views)
      returns (ghost m: Memory)
      requires HeapOk() && kind != InnerNode
      requires |stack| == n + 1 && OnPath(stack, mem, item.index)
      requires n <= 64 && LeafAt(view, item.index[..n])
      requires LeafSplit(view, v', item, view[item.index[..n]].rec.item, kind, n, d)
      modifies mem.Values
      ensures Faithful(m, v') && Rooted(m) && m[[]] == root
      ensures SameUnloaded(mem.Keys, view, m.Keys, v')
      ensures forall p {:trigger m[p]} :: p in m ==> (p in mem && m[p] == mem[p]) || fresh(m[p])
    {
      ghost var k := item.index;
      FaithfulIsPositioned(mem, view);
      assert Held(mem, view, k[..n]);
      var leaf := stack[n].0;
      var other := leaf.item.value;
      OnPathPop(stack, mem, k, n);
      var node, above;
      node, above, m := SplitLeaf(leaf, stack[..n], item, other, kind, stack[n].1, d, v');
      DirtyUp(above, item.index, node, m, v');
      SplitRooted(mem, m, k, other.index, n, d);
      SplitKeepsUnloaded(mem, view, m, v', item, other, kind, n, d);
    }

    /** Adds an item below the last node of the stack for its key. */
    method AddOnStack(stack: seq<(Node, nat)>, item: Item, kind: Kind, ghost v': Views) returns (ghost m: Memory)
      requires HeapOk() && kind != InnerNode
      requires 0 < |stack| && OnPath(stack, mem, item.index) && ItemAdded(view, v', item, kind, |stack| - 1)
      modifies mem.Values
      ensures Faithful(m, v') && Rooted(m) && m[[]] == root
      ensures SameUnloaded(mem.Keys, view, m.Keys, v')
      ensures forall p {:trigger m[p]} :: p in m ==> (p in mem && m[p] == mem[p]) || fresh(m[p])
    {
      var n := |stack| - 1;
      assert Held(mem, view, item.index[..n]);
      if stack[n].0.IsInner() {
        m := AddAtBranch(stack, item, kind, n, v');
      } else {
        ghost var d :| LeafSplit(view, v', item, view[item.index[..n]].rec.item, kind, n, d);
        m := AddAtLeaf(stack, item, kind, n, d, v');
      }
    }

    method AddLoaded(stack: seq<(Node, nat)>, item: Item, kind: Kind)
      returns (ghost t: Tree, ghost v: Views, ghost m: Memory)
      requires Valid() && kind != InnerNode && item.index !in entries
      requires 0 < |stack| && OnPath(stack, mem, item.index) && StackEnds(view, item.index, |stack| - 1)
      modifies mem.Values
      ensures CanInsert(shape, 0, item.index) && t == Insert(shape, 0, item, kind)
      ensures Means(entries[item.index := item.data], t)
      ensures Flattens(v, t) && Coherent(v) && Faithful(m, v) && Rooted(m) && m[[]] == root
      ensures SameUnloaded(mem.Keys, view, m.Keys, v)
      ensures forall p {:trigger m[p]} :: p in m ==> (p in mem && m[p] == mem[p]) || fresh(m[p])
    {
      MeansItsContents(entries, shape);
      t, v := ItemAddedByInsert(view, shape, item, kind, |stack| - 1);
      MeansItsContents(entries[item.index := item.data], t);
      m := AddOnStack(stack, item, kind, v);
    }

    ghost method Install(m: Memory, v: Views, t: Tree, e: map<Key, Payload>)
      requires Flattens(v, t) && Means(e, t) && Coherent(v) && Rooted(m) && m[[]] == root && Faithful(m, v)
      requires Backed(m.Keys, v, store.data)
      modifies this`mem, this`view, this`shape, this`entries
      ensures Valid() && mem == m && view == v && shape == t && entries == e
    {
      mem, view, shape, entries := m, v, t, e;
    }

    /** Adds an item under a fresh key. */
    method AddGivenItem(item: Item, isTransaction: bool)
      requires Valid() && item.index !in entries
      modifies this`mem, this`view, this`shape, this`entries, store, mem.Values
      ensures Valid() && StoreKept()
      ensures CanInsert(old(shape), 0, item.index)
      ensures shape == Insert(old(shape), 0, item, if isTransaction then TxLeaf else AcLeaf)
      ensures entries == old(entries)[item.index := item.data]
      ensures forall p :: p in mem ==> (p in old(mem) && mem[p] == old(mem)[p]) || fresh(mem[p])
    {
      var kind := if isTransaction then TxLeaf else AcLeaf;
      var stack := GetStack(item.index);
      LoadsKeepStore(view, old(mem).Keys, mem, old(store.data));
      ghost var t', v', m := AddLoaded(stack, item, kind);
      UnloadedKept(view, old(mem).Keys, old(store.data), mem.Keys, m.Keys, v', store.data);
      Install(m, v', t', entries[item.index := item.data]);
    }

    /** Writes the item into the leaf at p; the other nodes stay as they are. */
    method WriteLeaf(node: Node, item: Item, ghost p: Path) returns (changed: bool)
      requires HeapOk() && LeafAt(view, p) && p in mem && mem[p] == node
      modifies node
      ensures Positioned(mem) && changed == (view[p].hash != UpdatedView(view[p].rec.flag, item).hash)
      ensures Shows(node, UpdatedView(view[p].rec.flag, item)) && Linked(node, mem)
      ensures forall r {:trigger Held(mem, view, r)} :: r in mem && r != p ==> Held(mem, view, r)
    {
      assert Held(mem, view, p) && NodeOk(view, p);
      FaithfulIsPositioned(mem, view);
      changed := node.SetItem(item, AcLeaf);
      forall r | r in mem && r != p ensures Held(mem, view, r) {
        var held := old(Held(mem, view, r));
        assert held;
      }
    }

    method SetAndClimb(stack: seq<(Node, nat)>, item: Item, ghost v': Views) returns (changed: bool)
      requires HeapOk()
      requires 0 < |stack| <= 65 && OnPath(stack, mem, item.index) && LeafAt(view, item.index[..|stack| - 1])
      requires var w := view[item.index[..|stack| - 1]];
        if w.hash == UpdatedView(w.rec.flag, item).hash then w.rec == UpdatedView(w.rec.flag, item).rec
        else LeafUpdated(view, v', item, |stack| - 1)
      modifies mem.Values
      ensures var w := view[item.index[..|stack| - 1]]; changed <==> w.hash != UpdatedView(w.rec.flag, item).hash
      ensures !changed ==> HeapOk()
      ensures changed ==> Faithful(mem, v') && SameUnloaded(mem.Keys, view, mem.Keys, v')
    {
      var n := |stack| - 1;
      ghost var p := item.index[..n];
      var node := stack[n].0;
      changed := WriteLeaf(node, item, p);
      if !changed {
        assert Held(mem, view, p);
        return;
      }
      UpdateDone(mem, view, v', item, n);
      UpdateKeepsUnloaded(mem, view, v', item, n);
      OnPathPop(stack, mem, item.index, n);
      DirtyUp(stack[..n], item.index, node, mem, v');
    }

    method UpdateLoaded(stack: seq<(Node, nat)>, item: Item) returns (changed: bool, ghost t: Tree, ghost v: Views)
      requires Valid() && item.index in entries
      requires 0 < |stack| <= 65 && OnPath(stack, mem, item.index) && LeafAt(view, item.index[..|stack| - 1])
      modifies mem.Values
      ensures HasKey(Items(shape), item.index) && t == Update(shape, 0, item)
      ensures Means(entries[item.index := item.data], t)
      ensures (changed <==> t != shape) && (!changed ==> HeapOk())
      ensures changed ==> Flattens(v, t) && Coherent(v) && Faithful(mem, v) && SameUnloaded(mem.Keys, view, mem.Keys, v)
    {
      MeansItsContents(entries, shape);
      t, v := ItemUpdatedByUpdate(view, shape, item, |stack| - 1);
      MeansItsContents(entries[item.index := item.data], t);
      changed := SetAndClimb(stack, item, v);
    }

    /** Replaces the item of a present key. The walk back up is skipped exactly when the leaf's hash stays
        the same, and then the whole tree stays the same. */
    method UpdateGivenItem(item: Item) returns (changed: bool)
      requires Valid() && item.index in entries
      modifies this`mem, this`view, this`shape, this`entries, store, mem.Values
      ensures Valid() && StoreKept()
      ensures HasKey(Items(old(shape)), item.index) && shape == Update(old(shape), 0, item)
      ensures entries == old(entries)[item.index := item.data]
      ensures changed <==> shape != old(shape)
      ensures !changed ==> item.data == old(entries)[item.index]
      ensures forall p :: p in mem ==> (p in old(mem) && mem[p] == old(mem)[p]) || fresh(mem[p])
    {
      var stack := GetStack(item.index);
      LoadsKeepStore(view, old(mem).Keys, mem, old(store.data));
      FindFromView(view, shape, item.index, |stack| - 1);
      ghost var t, v;
      changed, t, v := UpdateLoaded(stack, item);
      if changed {
        UnloadedKept(view, old(mem).Keys, old(store.data), mem.Keys, mem.Keys, v, store.data);
        Install(mem, v, t, entries[item.index := item.data]);
      } else {
        MeansItsContents(entries, t);
        MeansItsContents(entries[item.index := item.data], t);
      }
    }

    /** One round of the breadth-first loop. */
    method PushChildren(now: Node, queue0: seq<Node>, batch0: seq<Node>, ghost paths0: seq<Path>, ghost done: nat)
      returns (queue: seq<Node>, batch: seq<Node>, ghost paths: seq<Path>)
      requires Tracks(batch0, paths0, mem) && Closed(paths0, done, mem) && Parented(paths0, done)
      requires done < |batch0| && batch0[done] == now && queue0 == batch0[done + 1..]
      requires now.pos == paths0[done] && Linked(now, mem)
      ensures Tracks(batch, paths, mem) && Closed(paths, done + 1, mem) && Parented(paths, done + 1)
      ensures done < |batch| && queue == batch[done + 1..]
    {
      queue, batch, paths := queue0, batch0, paths0;
      ghost var p := paths[done];
      NotYetListed(paths, done);
      for i := 0 to 16
        invariant done < |batch| && queue == batch[done + 1..]
        invariant Tracks(batch, paths, mem) && paths[done] == p && Parented(paths, done + 1)
        invariant ClosedBut(paths, done, i, mem)
        invariant forall b: Nibble :: i <= b ==> p + [b] !in paths
      {
        var tmp := now.child[i];
        assert tmp == Slot(mem, p + [i]);
        if tmp != null {
          ListChild(batch, paths, mem, done, i);
          queue := queue + [tmp];
          batch := batch + [tmp];
          paths := paths + [p + [i]];
        } else {
          SkipChild(paths, mem, done, i);
        }
      }
    }

    method Collect() returns (batch: seq<Node>, ghost paths: seq<Path>)
      requires HeapOk()
      ensures Tracks(batch, paths, mem) && Closed(paths, |paths|, mem)
    {
      batch, paths := [root], [[]];
      var queue := [root];
      ghost var done: nat := 0;
      while queue != []
        invariant done <= |batch| && queue == batch[done..]
        invariant Tracks(batch, paths, mem) && Closed(paths, done, mem) && Parented(paths, done)
        decreases |mem| - done
      {
        var now := queue[0];
        queue := queue[1..];
        assert paths[done] in mem;
        assert Held(mem, view, paths[done]);
        if now.IsInner() {
          queue, batch, paths := PushChildren(now, queue, batch, paths, done);
        } else {
          LeafIsClosed(paths, done, mem, view);
        }
        DistinctFits(paths, mem.Keys);
        done := done + 1;
      }
    }

    /** Collects the nodes in memory breadth first and writes them to the store in one batch. */
    method BackupToDatabase() returns (ghost batch: seq<Node>)
      requires Valid()
      modifies store
      ensures Valid()
      ensures Backed({}, view, store.data)
      ensures NoDuplicates(batch) && (set n | n in batch) == mem.Values
      ensures forall h :: !(exists p :: p in view && HashAt(view, p) == h) ==>
        (h in store.data <==> h in old(store.data)) && (h in store.data ==> store.data[h] == old(store.data)[h])
    {
      ghost var paths;
      var nodes;
      nodes, paths := Collect();
      BatchIsMemory(nodes, paths, mem, view);
      store.StoreBatch(nodes);
      batch := nodes;
      BatchBacks(nodes, paths, mem, view, old(store.data));
    }
  }
}

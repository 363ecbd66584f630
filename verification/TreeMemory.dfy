/** How nodes in memory and records in the store together hold a tree. */
module TreeMemory {
  import opened Types
  import opened Shape
  import opened ShapePaths
  import opened FlatView
  import opened ViewChange
  import opened NodeStore

  type Memory = map<Path, Node>

  /** Node n holds exactly what w says. */
  ghost predicate Shows(n: Node, w: View)
    reads n
  {
    && n.Sized()
    && n.HasItem()
    && n.hash == w.hash
    && n.Encode() == w.rec
    && (n.kind == InnerNode ==> n.item == None)
  }

  ghost function Slot(mem: Memory, p: Path): Node? {
    if p in mem then mem[p] else null
  }

  /** The child pointers of a node are the loaded nodes one step further. */
  ghost predicate Linked(n: Node, mem: Memory)
    reads n
  {
    |n.child| == 16 && forall b: Nibble :: n.child[b] == Slot(mem, n.pos + [b])
  }

  /** The node at p is loaded and holds what the view says. */
  ghost predicate Held(mem: Memory, v: Views, p: Path)
    requires p in mem
    reads mem[p]
  {
    p in v && mem[p].pos == p && Shows(mem[p], v[p]) && Linked(mem[p], mem)
  }

  ghost predicate ParentIn(mem: Memory, p: Path, b: Nibble) {
    p + [b] in mem ==> p in mem
  }

  ghost predicate Rooted(mem: Memory) {
    [] in mem && forall p, b: Nibble {:trigger ParentIn(mem, p, b)} :: ParentIn(mem, p, b)
  }

  ghost predicate Positioned(m: Memory) {
    forall p {:trigger m[p]} :: p in m ==> m[p].pos == p
  }

  ghost predicate Faithful(mem: Memory, v: Views)
    reads mem.Values
  {
    forall p {:trigger Held(mem, v, p)} :: p in mem ==> Held(mem, v, p)
  }

  lemma FaithfulIsPositioned(m: Memory, v: Views)
    requires Faithful(m, v)
    ensures Positioned(m) && forall p :: p in m ==> p in v
  {
    forall p | p in m ensures m[p].pos == p && p in v {
      assert Held(m, v, p);
    }
  }

  lemma SnocInjective(p: Path, b: Nibble, q: Path, c: Nibble)
    requires p + [b] == q + [c]
    ensures p == q && b == c
  {
    assert (p + [b])[..|p|] == p && (q + [c])[..|q|] == q;
    assert |p| == |q|;
    assert (p + [b])[|p|] == b && (q + [c])[|q|] == c;
  }

  // ---- moving nodes between store and memory ----

  /** The store keys of the nodes that moved to memory. */
  ghost function Moved(v: Views, before: set<Path>, after: set<Path>): set<Digest> {
    set p | p in after && p !in before :: HashAt(v, p)
  }

  lemma MovedNothing(v: Views, keys: set<Path>)
    ensures Moved(v, keys, keys) == {}
  {
  }

  lemma MovedOne(v: Views, first: set<Path>, before: Memory, after: Memory,
                 data0: map<Digest, Record>, data1: map<Digest, Record>, data2: map<Digest, Record>, q: Path)
    requires first <= before.Keys
    requires data1 == data0 - Moved(v, first, before.Keys)
    requires q in before ==> after == before && data2 == data1
    requires q !in before ==> after.Keys == before.Keys + {q} && data2 == data1 - {HashAt(v, q)}
    ensures data2 == data0 - Moved(v, first, after.Keys)
  {
    if q !in before {
      assert Moved(v, first, after.Keys) == Moved(v, first, before.Keys) + {HashAt(v, q)};
    }
  }

  /** From one state to another some nodes moved from the store to memory and nothing else happened. */
  ghost predicate Loaded(v: Views, mem: Memory, data: map<Digest, Record>, mem': Memory, data': map<Digest, Record>) {
    && (forall p {:trigger p in mem} :: p in mem ==> p in mem' && mem'[p] == mem[p])
    && data' == data - Moved(v, mem.Keys, mem'.Keys)
  }

  lemma LoadedNothing(v: Views, mem: Memory, data: map<Digest, Record>)
    ensures Loaded(v, mem, data, mem, data)
  {
    MovedNothing(v, mem.Keys);
  }

  lemma LoadedOneMore(v: Views, mem: Memory, data: map<Digest, Record>, before: Memory, data1: map<Digest, Record>,
                      after: Memory, data2: map<Digest, Record>, q: Path)
    requires Loaded(v, mem, data, before, data1)
    requires q in before ==> after == before && data2 == data1
    requires q !in before ==> q in after && after == before[q := after[q]] && data2 == data1 - {HashAt(v, q)}
    ensures Loaded(v, mem, data, after, data2)
  {
    MovedOne(v, mem.Keys, before, after, data, data1, data2, q);
  }

  /** h is the store key of a node that is not in memory. */
  ghost predicate Owned(v: Views, loaded: set<Path>, h: Digest) {
    exists p :: p in v && p !in loaded && HashAt(v, p) == h
  }

  /** From one state to another, entries only leave the store; those of other trees stay, and what
      stays of this tree's is still the entry of a node that is not in memory. */
  ghost predicate StoreFrame(v: Views, loaded: set<Path>, data: map<Digest, Record>,
                             v': Views, loaded': set<Path>, data': map<Digest, Record>)
  {
    && (forall h :: h in data' ==> h in data && data'[h] == data[h])
    && (forall h :: h in data && !Owned(v, loaded, h) ==> h in data')
    && (forall h :: h in data' && Owned(v, loaded, h) ==> Owned(v', loaded', h))
  }

  /** The nodes that are not in memory are the same before and after. */
  ghost predicate SameUnloaded(loaded: set<Path>, v: Views, loaded': set<Path>, v': Views) {
    && (forall p {:trigger p in v} :: p in v && p !in loaded ==> p in v' && p !in loaded' && v'[p] == v[p])
    && (forall p {:trigger p in v'} :: p in v' && p !in loaded' ==> p in v && p !in loaded && v'[p] == v[p])
  }

  lemma LoadsKeepStore(v: Views, loaded: set<Path>, mem: Memory, data: map<Digest, Record>)
    requires Faithful(mem, v)
    ensures StoreFrame(v, loaded, data, v, mem.Keys, data - Moved(v, loaded, mem.Keys))
  {
    FaithfulIsPositioned(mem, v);
  }

  lemma UnloadedKept(v: Views, loaded: set<Path>, data: map<Digest, Record>,
                     keys: set<Path>, keys': set<Path>, v': Views, data': map<Digest, Record>)
    requires StoreFrame(v, loaded, data, v, keys, data') && SameUnloaded(keys, v, keys', v') && Backed(keys, v, data')
    ensures StoreFrame(v, loaded, data, v', keys', data')
    ensures Backed(keys', v', data')
  {
    forall h | Owned(v, keys, h) ensures Owned(v', keys', h) {
      var p :| p in v && p !in keys && HashAt(v, p) == h;
      assert p in v' && p !in keys' && HashAt(v', p) == h;
    }
    forall p | p in v' && p !in keys' ensures BackedAt(v', data', p) {
      assert BackedAt(v, data', p);
    }
  }

  // ---- the nodes along the path of a key ----

  ghost predicate OnPath(stack: seq<(Node, nat)>, mem: Memory, key: Key) {
    (|stack| <= 65 && forall i :: 0 <= i < |stack| ==> key[..i] in mem && stack[i] == (mem[key[..i]], i)) == true
  }

  lemma OnPathPush(stack: seq<(Node, nat)>, mem: Memory, key: Key, node: Node)
    requires OnPath(stack, mem, key) && |stack| <= 64 && key[..|stack|] in mem && mem[key[..|stack|]] == node
    ensures OnPath(stack + [(node, |stack|)], mem, key)
  {
  }

  lemma OnPathGrows(stack: seq<(Node, nat)>, before: Memory, after: Memory, key: Key, q: Path)
    requires OnPath(stack, before, key) && |q| >= |stack|
    requires after == before || (q !in before && q in after && after == before[q := after[q]])
    ensures OnPath(stack, after, key)
  {
    forall i | 0 <= i < |stack| ensures key[..i] in after && stack[i] == (after[key[..i]], i) {
      assert |key[..i]| == i;
    }
  }

  /** At an inner node on the path, the mask tells whether the path goes on. */
  lemma InnerStep(v: Views, key: Key, n: nat)
    requires Coherent(v) && n <= 64 && InnerAt(v, key[..n])
    ensures n < 64 && RecordOk(v[key[..n]].rec) && v[key[..n]].rec.mask[key[n]] == (key[..n + 1] in v)
  {
    assert NodeOk(v, key[..n]);
    KeyStep(key, n);
    assert KidOk(v, key[..n], key[n]);
  }

  lemma OnPathPop(stack: seq<(Node, nat)>, m: Memory, k: Key, n: nat)
    requires OnPath(stack, m, k) && n <= |stack|
    ensures OnPath(stack[..n], m, k)
  {
  }

  lemma {:induction false} PrefixesAreInner(v: Views, key: Key, n: nat)
    requires Coherent(v) && n <= 64 && key[..n] in v
    ensures forall i :: 0 <= i < n ==> InnerAt(v, key[..i])
  {
    if n > 0 {
      KeyStep(key, n - 1);
      assert ParentOk(v, key[..n - 1], key[n - 1]);
      PrefixesAreInner(v, key, n - 1);
    }
  }

  lemma PathEnds(v: Views, key: Key, n: nat)
    requires Coherent(v) && n <= 64 && (LeafAt(v, key[..n]) || (InnerAt(v, key[..n]) && n < 64 && key[..n + 1] !in v))
    ensures StackEnds(v, key, n)
  {
    PrefixesAreInner(v, key, n);
  }

  lemma {:induction false} PathIsLoaded(m: Memory, k: Key, i: nat, n: nat)
    requires Rooted(m) && i <= n <= 64 && k[..n] in m
    ensures k[..i] in m
    decreases n
  {
    if i < n {
      KeyStep(k, n - 1);
      assert ParentIn(m, k[..n - 1], k[n - 1]);
      PathIsLoaded(m, k, i, n - 1);
    }
  }

  /** Walking down a key's path ends at depth n: at a leaf, or at an inner node with that branch empty. */
  ghost predicate StackEnds(v: Views, key: Key, n: int) {
    && 0 <= n <= 64
    && (forall i :: 0 <= i < n ==> InnerAt(v, key[..i]))
    && (LeafAt(v, key[..n]) || (InnerAt(v, key[..n]) && n < 64 && key[..n + 1] !in v))
  }

  // ---- loading one node ----

  lemma LinkedFresh(n: Node, mem: Memory, q: Path)
    requires Rooted(mem) && q !in mem && n.pos == q
    requires |n.child| == 16 && forall b :: 0 <= b < 16 ==> n.child[b] == null
    ensures Linked(n, mem[q := n])
  {
    forall b: Nibble ensures n.child[b] == Slot(mem[q := n], q + [b]) {
      assert ParentIn(mem, q, b) && |q + [b]| != |q|;
    }
  }

  lemma LinkedParent(n: Node, was: seq<Node?>, mem: Memory, b: Nibble, kid: Node)
    requires |was| == 16 && forall c: Nibble :: was[c] == Slot(mem, n.pos + [c])
    requires n.child == was[b := kid]
    ensures Linked(n, mem[n.pos + [b] := kid])
  {
    var p := n.pos;
    forall c: Nibble ensures n.child[c] == Slot(mem[p + [b] := kid], p + [c]) {
      if c != b && p + [c] == p + [b] { SnocInjective(p, c, p, b); }
    }
  }

  lemma LinkedElsewhere(n: Node, mem: Memory, p: Path, b: Nibble, kid: Node)
    requires Linked(n, mem) && n.pos != p
    ensures Linked(n, mem[p + [b] := kid])
  {
    var r := n.pos;
    forall c: Nibble ensures n.child[c] == Slot(mem[p + [b] := kid], r + [c]) {
      if r + [c] == p + [b] { SnocInjective(r, c, p, b); }
    }
  }

  lemma LoadKeepsFaithful(mem: Memory, v: Views, p: Path, b: Nibble, node: Node, was: seq<Node?>)
    requires Rooted(mem) && p in mem && p + [b] !in mem && p in v && p + [b] in v
    requires forall r {:trigger Held(mem, v, r)} :: r in mem && r != p ==> Held(mem, v, r)
    requires |was| == 16 && forall c: Nibble :: was[c] == Slot(mem, p + [c])
    requires mem[p].pos == p && Shows(mem[p], v[p]) && mem[p].child == was[b := node]
    requires node.pos == p + [b] && Shows(node, v[p + [b]]) && forall c :: 0 <= c < 16 ==> node.child[c] == null
    ensures Faithful(mem[p + [b] := node], v)
  {
    var mem' := mem[p + [b] := node];
    forall r | r in mem' ensures Held(mem', v, r) {
      if r == p + [b] {
        LinkedFresh(node, mem, r);
      } else if r == p {
        LinkedParent(mem[p], was, mem, b, node);
      } else {
        assert Held(mem, v, r);
        LinkedElsewhere(mem[r], mem, p, b, node);
      }
    }
  }

  lemma LoadKeepsRooted(mem: Memory, p: Path, b: Nibble, node: Node)
    requires Rooted(mem) && p in mem
    ensures Rooted(mem[p + [b] := node])
  {
    var mem' := mem[p + [b] := node];
    forall q, c: Nibble ensures ParentIn(mem', q, c) {
      assert ParentIn(mem, q, c);
      if q + [c] == p + [b] { SnocInjective(q, c, p, b); }
    }
  }

  method FetchChild(store: Store, parent: Node, branch: Nibble, ghost w: View, ghost pw: View, ghost q: Path)
    returns (node: Node)
    requires Shows(parent, pw) && parent.kind == InnerNode && parent.childHash[branch] == w.hash
    requires w.hash in store.data && store.data[w.hash] == w.rec && RecordOk(w.rec)
    modifies store, parent`child
    ensures store.data == old(store.data) - {w.hash}
    ensures fresh(node) && node.pos == q && Shows(node, w) && forall b :: 0 <= b < 16 ==> node.child[b] == null
    ensures Shows(parent, pw) && parent.child == old(parent.child)[branch := node]
  {
    node := store.Fetch(parent.childHash[branch], q);
    parent.Canonicalize(branch, node);
    assert parent.Encode() == old(parent.Encode());
  }

  lemma {:induction false} NothingBelowEmptyRoot(flag: bool, p: Path)
    requires p != []
    ensures !Live(EmptyRoot(flag), p)
    decreases |p|
  {
    var t, q := EmptyRoot(flag), p[..|p| - 1];
    if q == [] {
      assert At(t, q) == t && Kid(t, p[|p| - 1]) == Nil;
    } else {
      NothingBelowEmptyRoot(flag, q);
    }
  }

  lemma EmptyRootView(flag: bool)
    ensures var t := EmptyRoot(flag);
            Flattens(Flatten(t), t) && Coherent(Flatten(t))
    ensures forall p :: p in Flatten(EmptyRoot(flag)) <==> p == []
    ensures Flatten(EmptyRoot(flag))[[]] ==
              View(InnerDigest(flag, EmptyMask(), NoHashes()), InnerRecord(flag, EmptyMask(), NoHashes()))
  {
    var t := EmptyRoot(flag);
    assert At(t, []) == t;
    forall p | p in Flatten(t) ensures p == [] {
      if p != [] { NothingBelowEmptyRoot(flag, p); }
    }
    EmptyRootIsWellFormed(flag);
    FlattenFlattens(t);
    FlattenedIsCoherent(Flatten(t), t);
    BlankView();
  }

  /** A memory with the root alone. */
  lemma OnlyRoot(n: Node, v: Views)
    requires n.pos == [] && [] in v && Shows(n, v[[]]) && forall b :: 0 <= b < 16 ==> n.child[b] == null
    ensures Rooted(map[[] := n]) && Faithful(map[[] := n], v)
  {
    var mem: Memory := map[[] := n];
    forall p, b: Nibble ensures ParentIn(mem, p, b) {
      assert p + [b] != [];
    }
    forall p | p in mem ensures Held(mem, v, p) {
    }
  }

  lemma EmptyMeansNothing(flag: bool)
    ensures Means(map[], EmptyRoot(flag))
  {
  }

  lemma SavedRoot(t: Tree, data: map<Digest, Record>)
    requires WFRoot(t) && Backed({}, Flatten(t), data)
    ensures Hash(t) in data && RecordOk(data[Hash(t)]) && data[Hash(t)] == ViewOf(t).rec
  {
    assert At(t, []) == t;
    assert BackedAt(Flatten(t), data, []);
  }

  lemma OpenedIsBacked(t: Tree, data: map<Digest, Record>, n: Node)
    requires WFRoot(t) && Backed({}, Flatten(t), data)
    requires n.pos == [] && n.Sized() && n.HasItem() && n.hash == Hash(t) && n.Encode() == ViewOf(t).rec
    requires n.kind == InnerNode ==> n.item == None
    requires forall b :: 0 <= b < 16 ==> n.child[b] == null
    ensures Flattens(Flatten(t), t) && Coherent(Flatten(t))
    ensures Rooted(map[[] := n]) && Faithful(map[[] := n], Flatten(t))
    ensures Backed({[]}, Flatten(t), data - {Hash(t)})
  {
    var v := Flatten(t);
    var m: Memory := map[[] := n];
    assert At(t, []) == t;
    FlattenFlattens(t);
    FlattenedIsCoherent(v, t);
    BackedAfterFetch({}, v, data, []);
    var none: set<Path>, top: Path := {}, [];
    assert none + {top} == {top};
    forall p, b: Nibble ensures ParentIn(m, p, b) {
      assert p + [b] != [];
    }
    forall b: Nibble ensures n.child[b] == Slot(m, [] + [b]) {
      assert [] + [b] != [];
    }
    assert Held(m, v, []);
  }

  // ---- repairing hashes along a path ----

  /** p is one of the first n positions on a key's path. */
  predicate Above(index: Key, n: nat, p: Path)
    requires n <= 64
  {
    |p| < n && p == index[..|p|]
  }

  ghost predicate HeldExceptAbove(m: Memory, v: Views, index: Key, n: nat)
    requires n <= 64
    reads m.Values
  {
    forall p {:trigger Held(m, v, p)} :: p in m && !Above(index, n, p) ==> Held(m, v, p)
  }

  /** All that the node lacks to show w is its child on branch b, with hash h; its own hash is out of date. */
  ghost predicate Pending(n: Node, w: View, b: Nibble, h: Digest, m: Memory)
    reads n
  {
    && n.Sized()
    && n.kind == InnerNode
    && n.item == None
    && n.hash != w.hash
    && w.rec == InnerRecord(n.flag, n.mask[b := true], n.childHash[b := h])
    && w.hash == InnerDigest(n.flag, n.mask[b := true], n.childHash[b := h])
    && forall c: Nibble :: c != b ==> n.child[c] == Slot(m, n.pos + [c])
  }

  ghost predicate PendingAt(m: Memory, v: Views, index: Key, i: nat)
    requires i < 64
    reads if index[..i] in m then {m[index[..i]]} else {}
  {
    && index[..i] in m && index[..i] in v && index[..i + 1] in v
    && Pending(m[index[..i]], v[index[..i]], index[i], v[index[..i + 1]].hash, m)
  }

  lemma PathIsPending(m: Memory, v: Views, m': Memory, v': Views, k: Key, i: nat)
    requires i < 64 && k[..i] in m && Held(m, v, k[..i]) && PathChanged(v, v', k, i)
    requires k[..i] in m' && m'[k[..i]] == m[k[..i]]
    requires forall c: Nibble :: c != k[i] ==> Slot(m', k[..i] + [c]) == Slot(m, k[..i] + [c])
    ensures PendingAt(m', v', k, i)
  {
  }

  /** Adding a node below the path leaves the other branches along it alone. */
  lemma OtherSlots(m: Memory, k: Key, i: nat, q: Path, node: Node)
    requires i < 64 && |q| > i && q[i] == k[i]
    ensures forall c: Nibble :: c != k[i] ==> Slot(m[q := node], k[..i] + [c]) == Slot(m, k[..i] + [c])
  {
    forall c: Nibble | c != k[i] ensures k[..i] + [c] != q {
      assert (k[..i] + [c])[i] == c;
    }
  }

  lemma ChildSet(m: Memory, v: Views, p: Path, b: Nibble, was: seq<Node?>, kid: Node)
    requires p in m && p in v && m[p].pos == p && p + [b] in m && m[p + [b]] == kid
    requires Shows(m[p], v[p]) && |was| == 16 && m[p].child == was[b := kid]
    requires forall c: Nibble :: c != b ==> was[c] == Slot(m, p + [c])
    ensures Held(m, v, p)
  {
  }

  lemma AttachKeepsUnloaded(mem: Memory, v: Views, m: Memory, v': Views, item: Item, kind: Kind, n: nat)
    requires n < 64 && Rooted(mem) && item.index[..n] in mem && LeafAdded(v, v', item, kind, n) && item.index[..n + 1] !in v
    requires m.Keys == mem.Keys + {item.index[..n + 1]}
    ensures SameUnloaded(mem.Keys, v, m.Keys, v')
  {
    var k := item.index;
    forall p | p in v && p !in mem.Keys ensures !Follows(k, n, p) {
      if Follows(k, n, p) { PathIsLoaded(mem, k, |p|, n); }
    }
    forall p | p in v' && p !in m.Keys ensures !Follows(k, n + 1, p) {
      if Follows(k, n, p) { PathIsLoaded(mem, k, |p|, n); }
    }
  }

  lemma UpdateDone(mem: Memory, v: Views, v': Views, item: Item, n: nat)
    requires n <= 64 && Rooted(mem) && Positioned(mem) && item.index[..n] in mem && LeafUpdated(v, v', item, n)
    requires forall r {:trigger Held(mem, v, r)} :: r in mem && r != item.index[..n] ==> Held(mem, v, r)
    requires Shows(mem[item.index[..n]], v'[item.index[..n]]) && Linked(mem[item.index[..n]], mem)
    ensures HeldExceptAbove(mem, v', item.index, n)
    ensures forall i {:trigger PendingAt(mem, v', item.index, i)} :: 0 <= i < n ==> PendingAt(mem, v', item.index, i)
  {
    var k := item.index;
    forall r | r in mem && !Above(k, n, r) ensures Held(mem, v', r) {
      if r != k[..n] { assert Held(mem, v, r); }
    }
    forall i | 0 <= i < n ensures PendingAt(mem, v', k, i) {
      PathIsLoaded(mem, k, i, n);
      assert |k[..i]| == i && Held(mem, v, k[..i]) && PathChanged(v, v', k, i);
      PathIsPending(mem, v, mem, v', k, i);
    }
  }

  lemma UpdateKeepsUnloaded(mem: Memory, v: Views, v': Views, item: Item, n: nat)
    requires n <= 64 && Rooted(mem) && item.index[..n] in mem && LeafUpdated(v, v', item, n)
    ensures SameUnloaded(mem.Keys, v, mem.Keys, v')
  {
    forall p | p in v && p !in mem.Keys ensures !Follows(item.index, n, p) {
      if Follows(item.index, n, p) { PathIsLoaded(mem, item.index, |p|, n); }
    }
  }
}

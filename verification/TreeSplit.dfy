/** Replacing a leaf by a chain of inner nodes that ends in two leaves. */
module TreeSplit {
  import opened Types
  import opened ShapePaths
  import opened FlatView
  import opened ViewChange
  import opened NodeStore
  import opened TreeMemory

  /** An inner node fresh from `make_inner`. */
  ghost predicate Blank(n: Node)
    reads n
  {
    && n.Sized()
    && n.kind == InnerNode
    && n.item == None
    && n.hash == Zero()
    && n.mask == EmptyMask()
    && n.childHash == NoHashes()
    && forall b :: 0 <= b < 16 ==> n.child[b] == null
  }

  ghost predicate BlankAt(m: Memory, k: Key, n: nat, flag: bool, j: nat)
    requires j <= 64
    reads if k[..j] in m then {m[k[..j]]} else {}
  {
    k[..j] in m && Blank(m[k[..j]]) && m[k[..j]].flag == (n == j && flag)
  }

  /** m adds to mem at most the positions on the path of k at depths n + 1 to d. */
  ghost predicate ChainGrown(mem: Memory, m: Memory, k: Key, n: nat, d: nat) {
    && d <= 64
    && (forall p {:trigger p in mem} :: p in mem ==> p in m && m[p] == mem[p])
    && (forall p {:trigger p in m} :: p in m && p !in mem ==> n < |p| <= d && p == k[..|p|])
    && (forall i :: n <= i <= d ==> k[..i] in m)
  }

  lemma ChainGrows(mem: Memory, m: Memory, k: Key, n: nat, d: nat, node: Node)
    requires d < 64 && n <= d && ChainGrown(mem, m, k, n, d) && k[..d + 1] !in mem
    ensures k[..d + 1] !in m && ChainGrown(mem, m[k[..d + 1] := node], k, n, d + 1)
  {
    assert |k[..d + 1]| == d + 1;
  }

  /** The chain from depth n to d is blank. */
  ghost predicate BlankChain(m: Memory, k: Key, n: nat, flag: bool, d: nat)
    requires d <= 64
    reads m.Values
  {
    forall j {:trigger BlankAt(m, k, n, flag, j)} :: n <= j <= d ==> BlankAt(m, k, n, flag, j)
  }

  /** A new inner node at the end of the chain. */
  method NewLink(k: Key, ghost n: nat, ghost flag: bool, ghost d: nat, ghost m: Memory)
    returns (node: Node, ghost m': Memory)
    requires n <= d < 64 && k[..d + 1] !in m && Positioned(m) && BlankChain(m, k, n, flag, d)
    ensures fresh(node) && m' == m[k[..d + 1] := node] && Positioned(m') && BlankChain(m', k, n, flag, d + 1)
  {
    node := new Node.Empty(false, k[..d + 1]);
    node.MakeInner();
    m' := m[k[..d + 1] := node];
    forall j | n <= j <= d + 1 ensures BlankAt(m', k, n, flag, j) {
      if j <= d {
        var blank := old(BlankAt(m, k, n, flag, j));
        assert blank && |k[..j]| == j && m[k[..j]] in m.Values;
      }
    }
  }

  ghost predicate NewLeafNode(n: Node, item: Item, kind: Kind)
    reads n
  {
    Shows(n, LeafView(item, kind)) && forall b :: 0 <= b < 16 ==> n.child[b] == null
  }

  /** m adds to mem the chain below depth n and the two leaves that end it. */
  ghost predicate SplitGrown(mem: Memory, m: Memory, k: Key, o: Key, n: nat, d: nat) {
    && n <= d && Fork(k, o, d)
    && (forall p {:trigger p in mem} :: p in mem ==> p in m && m[p] == mem[p])
    && (forall p {:trigger p in m} :: p in m && p !in mem ==> (n < |p| <= d + 1 && p == k[..|p|]) || p == o[..d + 1])
    && o[..d + 1] in m && (forall i :: n <= i <= d + 1 ==> k[..i] in m)
  }

  /** Hangs two new leaves on a node fresh from `make_inner`. */
  method HangTwo(node: Node, item: Item, other: Item, kind: Kind, d: nat, ghost p: Path, ghost q: Path)
    returns (first: Node, second: Node)
    requires Blank(node) && kind != InnerNode && Fork(item.index, other.index, d)
    modifies node
    ensures fresh(first) && first.pos == p && NewLeafNode(first, item, kind)
    ensures fresh(second) && second.pos == q && NewLeafNode(second, other, kind)
    ensures node.flag == old(node.flag) && Shows(node, ForkView(node.flag, item.index, other.index, d))
    ensures node.child == old(node.child)[item.index[d] := first][other.index[d] := second]
  {
    first := new Node.OfItem(item, kind, p);
    var changed := node.SetChild(first, first.hash, item.index[d]);
    assert changed;
    second := new Node.OfItem(other, kind, q);
    changed := node.SetChild(second, second.hash, other.index[d]);
    assert changed by {
      assert !EmptyMask()[item.index[d] := true][other.index[d]];
    }
  }

  lemma SplitGrows(mem: Memory, v: Views, m1: Memory, m: Memory, k: Key, o: Key, n: nat, d: nat,
                   first: Node, second: Node)
    requires n <= d && Fork(k, o, d) && Coherent(v) && LeafAt(v, k[..n]) && (forall p :: p in mem ==> p in v)
    requires ChainGrown(mem, m1, k, n, d) && Positioned(m1)
    requires m == m1[k[..d + 1] := first][o[..d + 1] := second]
    requires first.pos == k[..d + 1] && second.pos == o[..d + 1]
    ensures k[..d + 1] in m && m[k[..d + 1]] == first && o[..d + 1] in m && m[o[..d + 1]] == second
    ensures Positioned(m) && SplitGrown(mem, m, k, o, n, d)
    ensures forall i :: 0 <= i <= d && k[..i] in m1 ==> k[..i] in m && m[k[..i]] == m1[k[..i]]
    ensures forall p :: p in m ==> p in m1 || m[p] == first || m[p] == second
  {
    assert k[..d + 1][d] == k[d] && o[..d + 1][d] == o[d];
    assert k[..d + 1][..n] == k[..n] && o[..d][..n] == o[..n] && k[..d][..n] == k[..n] && o[..d + 1][..n] == o[..n];
    LeafEndsPath(v, k[..d + 1], n);
    LeafEndsPath(v, o[..d + 1], n);
    assert forall i :: 0 <= i <= d ==> |k[..i]| == i;
  }

  lemma OnPathSplit(stack: seq<(Node, nat)>, m1: Memory, m: Memory, k: Key)
    requires OnPath(stack, m1, k) && |stack| <= 64
    requires forall i :: 0 <= i <= |stack| && k[..i] in m1 ==> k[..i] in m && m[k[..i]] == m1[k[..i]]
    ensures OnPath(stack, m, k)
  {
  }

  /** Slots of the grown memory, away from the new positions. */
  lemma SplitSlot(mem: Memory, m: Memory, k: Key, o: Key, n: nat, d: nat, r: Path, c: Nibble)
    requires SplitGrown(mem, m, k, o, n, d)
    requires !(n <= |r| <= d && r == k[..|r|] && (c == k[|r|] || (|r| == d && c == o[d])))
    ensures Slot(m, r + [c]) == Slot(mem, r + [c])
  {
    var q := r + [c];
    assert q[..|r|] == r && q[|r|] == c;
    assert o[..d + 1][..d] == o[..d] && o[..d + 1][d] == o[d];
    assert |q| <= 64 ==> k[..|q|][..|r|] == k[..|r|] && k[..|q|][|r|] == k[|r|];
  }

  lemma BelowLeafIsEmpty(mem: Memory, v: Views, r: Path, n: nat, c: Nibble)
    requires Coherent(v) && (forall p :: p in mem ==> p in v)
    requires n <= |r| && LeafAt(v, r[..n])
    ensures Slot(mem, r + [c]) == null
  {
    assert (r + [c])[..n] == r[..n];
    LeafEndsPath(v, r + [c], n);
  }

  lemma SplitForkLinked(mem: Memory, v: Views, m: Memory, k: Key, o: Key, n: nat, d: nat)
    requires SplitGrown(mem, m, k, o, n, d)
    requires Coherent(v) && (forall p :: p in mem ==> p in v) && LeafAt(v, k[..n])
    requires k[..d] in m && m[k[..d]].pos == k[..d] && |m[k[..d]].child| == 16 && k[..d + 1] in m && o[..d + 1] in m
    requires forall b: Nibble :: m[k[..d]].child[b] ==
               if b == k[d] then m[k[..d + 1]] else if b == o[d] then m[o[..d + 1]] else null
    ensures Linked(m[k[..d]], m)
  {
    var node := m[k[..d]];
    KeyStep(k, d);
    KeyStep(o, d);
    assert k[..d][..n] == k[..n];
    forall b: Nibble ensures node.child[b] == Slot(m, k[..d] + [b]) {
      if b != k[d] && b != o[d] {
        SplitSlot(mem, m, k, o, n, d, k[..d], b);
        BelowLeafIsEmpty(mem, v, k[..d], n, b);
      }
    }
  }

  lemma SplitLeafLinked(mem: Memory, v: Views, m: Memory, k: Key, o: Key, n: nat, d: nat, r: Path)
    requires SplitGrown(mem, m, k, o, n, d) && r in m && m[r].pos == r
    requires Coherent(v) && (forall p :: p in mem ==> p in v) && LeafAt(v, k[..n])
    requires (r == k[..d + 1] || r == o[..d + 1]) && |m[r].child| == 16 && forall b :: 0 <= b < 16 ==> m[r].child[b] == null
    ensures Linked(m[r], m)
  {
    assert k[..d + 1][..n] == k[..n] && o[..d + 1][..n] == o[..d][..n] && k[..d][..n] == k[..n];
    forall b: Nibble ensures m[r].child[b] == Slot(m, r + [b]) {
      SplitSlot(mem, m, k, o, n, d, r, b);
      BelowLeafIsEmpty(mem, v, r, n, b);
    }
  }

  lemma SplitPending(mem: Memory, v: Views, m: Memory, v': Views, item: Item, other: Item, kind: Kind,
                     n: nat, d: nat, i: nat)
    requires Coherent(v) && (forall p :: p in mem ==> p in v)
    requires LeafSplit(v, v', item, other, kind, n, d) && SplitGrown(mem, m, item.index, other.index, n, d) && Positioned(m)
    requires i < d
    requires i < n ==> item.index[..i] in mem && Held(mem, v, item.index[..i])
    requires n <= i ==> BlankAt(m, item.index, n, v[item.index[..n]].rec.flag, i)
    ensures PendingAt(m, v', item.index, i)
  {
    var k, o := item.index, other.index;
    if i < n {
      forall c: Nibble | c != k[i] ensures Slot(m, k[..i] + [c]) == Slot(mem, k[..i] + [c]) {
        SplitSlot(mem, m, k, o, n, d, k[..i], c);
      }
      assert PathChanged(v, v', k, i);
      PathIsPending(mem, v, m, v', k, i);
    } else {
      assert ChainAt(v', k, n, v[k[..n]].rec.flag, i);
      assert k[..i][..n] == k[..n];
      forall c: Nibble | c != k[i] ensures m[k[..i]].child[c] == Slot(m, k[..i] + [c]) {
        SplitSlot(mem, m, k, o, n, d, k[..i], c);
        BelowLeafIsEmpty(mem, v, k[..i], n, c);
      }
    }
  }

  lemma SplitHeld(mem: Memory, v: Views, m: Memory, v': Views, item: Item, other: Item, kind: Kind, n: nat, d: nat, r: Path)
    requires Coherent(v) && (forall p :: p in mem ==> p in v)
    requires LeafSplit(v, v', item, other, kind, n, d) && SplitGrown(mem, m, item.index, other.index, n, d) && Positioned(m)
    requires forall p {:trigger Held(mem, v, p)} :: p in mem && p != item.index[..n] ==> Held(mem, v, p)
    requires var k, o := item.index, other.index;
      && k[..d] in m && k[..d + 1] in m && o[..d + 1] in m
      && Shows(m[k[..d]], v'[k[..d]])
      && (forall b: Nibble :: m[k[..d]].child[b] ==
            if b == k[d] then m[k[..d + 1]] else if b == o[d] then m[o[..d + 1]] else null)
      && NewLeafNode(m[k[..d + 1]], item, kind) && NewLeafNode(m[o[..d + 1]], other, kind)
    requires r in m && !Above(item.index, d, r)
    ensures Held(m, v', r)
  {
    var k, o := item.index, other.index;
    if r == k[..d] {
      SplitForkLinked(mem, v, m, k, o, n, d);
    } else if r == k[..d + 1] || r == o[..d + 1] {
      SplitLeafLinked(mem, v, m, k, o, n, d, r);
    } else {
      assert Held(mem, v, r);
      forall c: Nibble ensures Slot(m, r + [c]) == Slot(mem, r + [c]) {
        SplitSlot(mem, m, k, o, n, d, r, c);
      }
    }
  }

  lemma SplitDone(mem: Memory, v: Views, m: Memory, v': Views, item: Item, other: Item, kind: Kind, n: nat, d: nat)
    requires Coherent(v) && Rooted(mem) && (forall p :: p in mem ==> p in v)
    requires LeafSplit(v, v', item, other, kind, n, d) && SplitGrown(mem, m, item.index, other.index, n, d) && Positioned(m)
    requires item.index[..n] in mem
    requires forall p {:trigger Held(mem, v, p)} :: p in mem && p != item.index[..n] ==> Held(mem, v, p)
    requires forall j {:trigger BlankAt(m, item.index, n, v[item.index[..n]].rec.flag, j)} ::
      n <= j < d ==> BlankAt(m, item.index, n, v[item.index[..n]].rec.flag, j)
    requires var k, o := item.index, other.index;
      && k[..d] in m && k[..d + 1] in m && o[..d + 1] in m
      && Shows(m[k[..d]], v'[k[..d]])
      && (forall b: Nibble :: m[k[..d]].child[b] ==
            if b == k[d] then m[k[..d + 1]] else if b == o[d] then m[o[..d + 1]] else null)
      && NewLeafNode(m[k[..d + 1]], item, kind) && NewLeafNode(m[o[..d + 1]], other, kind)
    ensures HeldExceptAbove(m, v', item.index, d)
    ensures forall i {:trigger PendingAt(m, v', item.index, i)} :: 0 <= i < d ==> PendingAt(m, v', item.index, i)
  {
    var k := item.index;
    forall r | r in m && !Above(k, d, r) ensures Held(m, v', r) {
      SplitHeld(mem, v, m, v', item, other, kind, n, d, r);
    }
    forall i | 0 <= i < d ensures PendingAt(m, v', k, i) {
      if i < n {
        PathIsLoaded(mem, k, i, n);
        assert |k[..i]| == i && Held(mem, v, k[..i]);
      } else {
        assert BlankAt(m, k, n, v[k[..n]].rec.flag, i);
      }
      SplitPending(mem, v, m, v', item, other, kind, n, d, i);
    }
  }

  /** Hangs both leaves at the end of the chain. */
  /** Hangs the two leaves; the other nodes stay as they are. */
  method HangBoth(node: Node, item: Item, other: Item, kind: Kind, d: nat, ghost n: nat,
                  ghost mem: Memory, ghost v: Views, ghost m1: Memory)
    returns (first: Node, second: Node)
    requires kind != InnerNode && n <= d && Fork(item.index, other.index, d) && item.index[..n] in v
    requires forall p {:trigger Held(mem, v, p)} :: p in mem && p != item.index[..n] ==> Held(mem, v, p)
    requires Positioned(m1) && ChainGrown(mem, m1, item.index, n, d)
    requires item.index[..d] in m1 && m1[item.index[..d]] == node
    requires forall j {:trigger BlankAt(m1, item.index, n, v[item.index[..n]].rec.flag, j)} ::
      n <= j <= d ==> BlankAt(m1, item.index, n, v[item.index[..n]].rec.flag, j)
    requires Blank(node) && (item.index[..d] in mem ==> d == n)
    modifies node
    ensures fresh(first) && first.pos == item.index[..d + 1] && NewLeafNode(first, item, kind)
    ensures fresh(second) && second.pos == other.index[..d + 1] && NewLeafNode(second, other, kind)
    ensures node.flag == old(node.flag) && Shows(node, ForkView(node.flag, item.index, other.index, d))
    ensures node.child == old(node.child)[item.index[d] := first][other.index[d] := second]
    ensures forall p {:trigger Held(mem, v, p)} :: p in mem && p != item.index[..n] ==> Held(mem, v, p)
    ensures forall j {:trigger BlankAt(m1, item.index, n, v[item.index[..n]].rec.flag, j)} ::
      n <= j < d ==> BlankAt(m1, item.index, n, v[item.index[..n]].rec.flag, j)
  {
    ghost var k, flag := item.index, v[item.index[..n]].rec.flag;
    assert BlankAt(m1, k, n, flag, d);
    first, second := HangTwo(node, item, other, kind, d, k[..d + 1], other.index[..d + 1]);
    forall p | p in mem && p != k[..n] ensures Held(mem, v, p) {
      var held := old(Held(mem, v, p));
      assert held && mem[p].pos == p && node.pos == k[..d];
    }
    forall j | n <= j < d ensures BlankAt(m1, k, n, flag, j) {
      var blank := old(BlankAt(m1, k, n, flag, j));
      assert blank && |k[..j]| == j && m1[k[..j]].pos == k[..j] && node.pos == k[..d];
    }
  }

  method HangLeaves(node: Node, item: Item, other: Item, kind: Kind, d: nat, ghost n: nat,
                    ghost mem: Memory, ghost v: Views, ghost m1: Memory, ghost v': Views)
    returns (ghost m: Memory)
    requires kind != InnerNode && Coherent(v) && Rooted(mem) && (forall p :: p in mem ==> p in v)
    requires LeafSplit(v, v', item, other, kind, n, d) && item.index[..n] in mem
    requires forall p {:trigger Held(mem, v, p)} :: p in mem && p != item.index[..n] ==> Held(mem, v, p)
    requires Positioned(m1) && ChainGrown(mem, m1, item.index, n, d)
    requires item.index[..d] in m1 && m1[item.index[..d]] == node
    requires forall j {:trigger BlankAt(m1, item.index, n, v[item.index[..n]].rec.flag, j)} ::
      n <= j <= d ==> BlankAt(m1, item.index, n, v[item.index[..n]].rec.flag, j)
    modifies node
    ensures Positioned(m) && SplitGrown(mem, m, item.index, other.index, n, d)
    ensures forall p :: p in m ==> p in m1 || fresh(m[p])
    ensures forall i :: 0 <= i <= d && item.index[..i] in m1 ==>
      item.index[..i] in m && m[item.index[..i]] == m1[item.index[..i]]
    ensures HeldExceptAbove(m, v', item.index, d)
    ensures forall i {:trigger PendingAt(m, v', item.index, i)} :: 0 <= i < d ==> PendingAt(m, v', item.index, i)
  {
    ghost var k, o := item.index, other.index;
    ghost var flag := v[k[..n]].rec.flag;
    assert BlankAt(m1, k, n, flag, d);
    if n < d {
      assert k[..d][..n] == k[..n];
      LeafEndsPath(v, k[..d], n);
    }
    var first, second := HangBoth(node, item, other, kind, d, n, mem, v, m1);
    m := m1[k[..d + 1] := first][o[..d + 1] := second];
    SplitGrows(mem, v, m1, m, k, o, n, d, first, second);
    forall j | n <= j < d ensures BlankAt(m, k, n, flag, j) {
      assert BlankAt(m1, k, n, flag, j) && |k[..j]| == j;
    }
    SplitDone(mem, v, m, v', item, other, kind, n, d);
  }

  lemma SplitKeepsUnloaded(mem: Memory, v: Views, m: Memory, v': Views, item: Item, other: Item, kind: Kind, n: nat, d: nat)
    requires Coherent(v) && Rooted(mem) && LeafSplit(v, v', item, other, kind, n, d) && item.index[..n] in mem
    requires SplitGrown(mem, m, item.index, other.index, n, d)
    ensures SameUnloaded(mem.Keys, v, m.Keys, v')
  {
    var k, o := item.index, other.index;
    forall p | p in v && p !in mem.Keys ensures !Follows(k, n, p) && p !in m {
      if Follows(k, n, p) { PathIsLoaded(mem, k, |p|, n); }
      if n < |p| && p[..n] == k[..n] { LeafEndsPath(v, p, n); }
      assert n < |p| <= 64 ==> k[..|p|][..n] == k[..n];
      assert o[..d + 1][..n] == o[..d][..n] && k[..d][..n] == k[..n];
    }
    forall p | p in v' && p !in m ensures !Follows(k, d + 1, p) {
      if Follows(k, n, p) { PathIsLoaded(mem, k, |p|, n); }
    }
  }

  lemma SplitRooted(mem: Memory, m: Memory, k: Key, o: Key, n: nat, d: nat)
    requires Rooted(mem) && SplitGrown(mem, m, k, o, n, d)
    ensures Rooted(m)
  {
    forall p, b: Nibble ensures ParentIn(m, p, b) {
      assert ParentIn(mem, p, b);
      assert (p + [b])[..|p|] == p;
      assert |p| < 64 ==> k[..|p| + 1][..|p|] == k[..|p|];
      assert o[..d + 1][..d] == k[..d];
    }
  }
}

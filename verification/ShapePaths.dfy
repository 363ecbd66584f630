/** Positions in a tree, and what adding or updating an item changes at each position. */
module ShapePaths {
  import opened Types
  import opened Shape
  import opened ShapeOps
  import opened ShapeHash

  function Kid(t: Tree, b: Nibble): Tree {
    if t.Inner? && b < |t.kids| then t.kids[b] else Nil
  }

  /** The subtree at a path; `Nil` where the tree has no node. */
  function At(t: Tree, p: Path): Tree
    decreases |p|
  {
    if p == [] then t else Kid(At(t, p[..|p| - 1]), p[|p| - 1])
  }

  predicate Live(t: Tree, p: Path) {
    At(t, p) != Nil
  }

  lemma AtSnoc(t: Tree, p: Path, b: Nibble)
    ensures At(t, p + [b]) == Kid(At(t, p), b)
  {
    assert (p + [b])[..|p|] == p;
  }

  lemma KeyStep(k: Key, i: nat)
    requires i < 64
    ensures k[..i + 1] == k[..i] + [k[i]]
  {
  }

  /** Path invariant: what sits below position p agrees with p on its first branches. */
  lemma {:induction false} PathInvariant(t: Tree, p: Path)
    requires WFRoot(t)
    ensures WF(At(t, p), |p|)
    ensures forall it :: it in Items(At(t, p)) ==> |p| <= 64 && it.index[..|p|] == p && it in Items(t)
    decreases |p|
  {
    if p != [] {
      var q, b := p[..|p| - 1], p[|p| - 1];
      PathInvariant(t, q);
      assert p == q + [b];
      if At(t, q).Inner? {
        forall it | it in Items(At(t, p)) ensures |p| <= 64 && it.index[..|p|] == p && it in Items(t) {
          assert it in Items(At(t, q));
          KeyStep(it.index, |q|);
        }
      }
    }
  }

  /** Depth bound: inner nodes are at depth 63 at most, so branch selection stays within the 64 branches. */
  lemma InnerDepth(t: Tree, p: Path)
    requires WFRoot(t) && At(t, p).Inner?
    ensures |p| <= 63
  {
    PathInvariant(t, p);
  }

  lemma {:induction false} ProperPrefixIsInner(t: Tree, p: Path, n: nat)
    requires n < |p| && Live(t, p)
    ensures At(t, p[..n]).Inner?
    decreases |p|
  {
    var q := p[..|p| - 1];
    if n < |q| {
      ProperPrefixIsInner(t, q, n);
      assert q[..n] == p[..n];
    } else {
      assert p[..n] == q;
    }
  }

  lemma {:induction false} HashBelowIsSmaller(t: Tree, p: Path, n: nat)
    requires n < |p| && Live(t, p)
    ensures Hash(At(t, p)) < Hash(At(t, p[..n]))
    decreases |p|
  {
    var q := p[..|p| - 1];
    ProperPrefixIsInner(t, p, |q|);
    KidHashIsPart(At(t, q), p[|q|]);
    if n < |q| {
      HashBelowIsSmaller(t, q, n);
      assert q[..n] == p[..n];
    } else {
      assert p[..n] == q;
    }
  }

  predicate IsPrefix(p: Path, q: Path) {
    |p| <= |q| && q[..|p|] == p
  }

  ghost function KeysAt(t: Tree, p: Path): set<Key> {
    Keys(At(t, p))
  }

  lemma KeysAtPosition(t: Tree, p: Path)
    requires WFRoot(t)
    ensures forall k :: k in KeysAt(t, p) ==> |p| <= 64 && k[..|p|] == p && k in Keys(t)
    ensures p != [] && Live(t, p) ==> KeysAt(t, p) != {}
  {
    PathInvariant(t, p);
    if p != [] && Live(t, p) {
      NonNilHasItem(At(t, p), |p|);
      var it :| it in Items(At(t, p));
      assert it.index in KeysAt(t, p);
    }
  }

  lemma SameHashSameKeys(t: Tree, p: Path, u: Tree, q: Path)
    requires WFRoot(t) && WFRoot(u) && Live(t, p) && Live(u, q) && Hash(At(t, p)) == Hash(At(u, q))
    ensures KeysAt(t, p) == KeysAt(u, q)
  {
    PathInvariant(t, p);
    PathInvariant(u, q);
    HashCommits(At(t, p), |p|, At(u, q), |q|);
  }

  lemma CommonKeyComparable(k: Key, p: Path, q: Path)
    requires |p| <= 64 && |q| <= 64 && k[..|p|] == p && k[..|q|] == q
    ensures IsPrefix(p, q) || IsPrefix(q, p)
  {
    assert |p| <= |q| ==> k[..|q|][..|p|] == k[..|p|];
    assert |q| <= |p| ==> k[..|p|][..|q|] == k[..|q|];
  }

  /** No two positions of a tree have the same hash, so no two nodes share a key in the store. */
  lemma HashesAreDistinct(t: Tree, p: Path, q: Path)
    requires WFRoot(t) && Live(t, p) && Live(t, q) && p != q
    ensures Hash(At(t, p)) != Hash(At(t, q))
  {
    if IsPrefix(p, q) {
      HashBelowIsSmaller(t, q, |p|);
    } else if IsPrefix(q, p) {
      HashBelowIsSmaller(t, p, |q|);
    } else if Hash(At(t, p)) == Hash(At(t, q)) {
      KeysAtPosition(t, p);
      KeysAtPosition(t, q);
      SameHashSameKeys(t, p, t, q);
      var k :| k in KeysAt(t, p);
      CommonKeyComparable(k, p, q);
    }
  }

  /** Two trees over disjoint keys with different root flags share no hash, so they can share a store. */
  lemma TreesShareNoHash(t: Tree, u: Tree, p: Path, q: Path)
    requires WFRoot(t) && WFRoot(u) && t.flag != u.flag && Keys(t) !! Keys(u)
    requires Live(t, p) && Live(u, q)
    ensures Hash(At(t, p)) != Hash(At(u, q))
  {
    if Hash(At(t, p)) == Hash(At(u, q)) {
      KeysAtPosition(t, p);
      KeysAtPosition(u, q);
      SameHashSameKeys(t, p, u, q);
      assert KeysAt(t, p) == {};
      SameHashSameKids(t, u);
    }
  }

  // ---- adding an item ----

  lemma {:induction false} InsertAlongPath(t: Tree, item: Item, kind: Kind, i: nat)
    requires CanInsert(t, 0, item.index) && i <= 64
    requires forall j :: 0 <= j < i ==> At(t, item.index[..j]).Inner?
    ensures CanInsert(At(t, item.index[..i]), i, item.index)
    ensures At(Insert(t, 0, item, kind), item.index[..i]) == Insert(At(t, item.index[..i]), i, item, kind)
  {
    var k := item.index;
    if i == 0 {
      assert k[..0] == [];
    } else {
      InsertAlongPath(t, item, kind, i - 1);
      KeyStep(k, i - 1);
      var u := At(t, k[..i - 1]);
      assert u.Inner?;
      KidCanInsert(u, i - 1, k);
      AtSnoc(t, k[..i - 1], k[i - 1]);
      AtSnoc(Insert(t, 0, item, kind), k[..i - 1], k[i - 1]);
    }
  }

  /** p leaves the path of key k at branch j, below an inner node of t. */
  predicate LeavesAt(t: Tree, k: Key, p: Path, j: nat) {
    j < |p| && j < 64 && p[..j] == k[..j] && p[j] != k[j] && At(t, k[..j]).Inner?
  }

  lemma {:induction false} InsertOffPath(t: Tree, item: Item, kind: Kind, p: Path, j: nat)
    requires CanInsert(t, 0, item.index)
    requires LeavesAt(t, item.index, p, j)
    ensures At(Insert(t, 0, item, kind), p) == At(t, p)
    decreases |p|
  {
    var q := p[..|p| - 1];
    if j < |q| {
      assert q[..j] == p[..j];
      InsertOffPath(t, item, kind, q, j);
    } else {
      assert q == item.index[..j];
      forall i | 0 <= i < j ensures At(t, item.index[..i]).Inner? {
        ProperPrefixIsInner(t, item.index[..j], i);
        assert item.index[..j][..i] == item.index[..i];
      }
      InsertAlongPath(t, item, kind, j);
    }
  }

  // ---- updating an item ----

  lemma {:induction false} UpdateAlongPath(t: Tree, item: Item, i: nat)
    requires WFRoot(t) && HasKey(Items(t), item.index) && i <= 64
    requires forall j :: 0 <= j < i ==> At(t, item.index[..j]).Inner?
    ensures WF(At(t, item.index[..i]), i) && HasKey(Items(At(t, item.index[..i])), item.index)
    ensures At(Update(t, 0, item), item.index[..i]) == Update(At(t, item.index[..i]), i, item)
  {
    var k := item.index;
    if i == 0 {
      assert k[..0] == [];
    } else {
      UpdateAlongPath(t, item, i - 1);
      KeyStep(k, i - 1);
      var u := At(t, k[..i - 1]);
      assert u.Inner?;
      var it :| it in Items(u) && it.index == k;
      assert it in Items(u.kids[k[i - 1]]);
      AtSnoc(t, k[..i - 1], k[i - 1]);
      AtSnoc(Update(t, 0, item), k[..i - 1], k[i - 1]);
    }
  }

  /** Where the path leaves the key's, the other children stay. */
  lemma UpdateAtFork(t: Tree, item: Item, j: nat, b: Nibble)
    requires WFRoot(t) && HasKey(Items(t), item.index) && j < 64 && At(t, item.index[..j]).Inner? && b != item.index[j]
    ensures WF(At(t, item.index[..j]), j)
    ensures var u := At(Update(t, 0, item), item.index[..j]);
      u.Inner? && |u.kids| == 16 && u.kids[b] == At(t, item.index[..j]).kids[b]
  {
    forall i | 0 <= i < j ensures At(t, item.index[..i]).Inner? {
      ProperPrefixIsInner(t, item.index[..j], i);
      assert item.index[..j][..i] == item.index[..i];
    }
    UpdateAlongPath(t, item, j);
  }

  lemma {:induction false} UpdateOffPath(t: Tree, item: Item, p: Path, j: nat)
    requires WFRoot(t) && HasKey(Items(t), item.index)
    requires LeavesAt(t, item.index, p, j)
    ensures At(Update(t, 0, item), p) == At(t, p)
    decreases |p|
  {
    var q := p[..|p| - 1];
    if j < |q| {
      assert q[..j] == p[..j];
      UpdateOffPath(t, item, q, j);
    } else {
      assert q == item.index[..j];
      UpdateAtFork(t, item, j, p[j]);
    }
  }
}

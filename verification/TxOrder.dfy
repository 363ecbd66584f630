/** Transaction trees: when two insertion orders of the same items give the same root hash. */
module TxOrder {
  import opened Types
  import opened Shape
  import opened ShapeOps
  import opened ShapeHash
  import opened ShapePaths
  import opened ViewChange
  import opened Canonical

  predicate Under(k: Key, p: Path) {
    |p| <= 64 && k[..|p|] == p
  }

  /** At least two of the items have keys below p. */
  ghost predicate Two(items: seq<Item>, p: Path) {
    exists i, j :: 0 <= i < j < |items| && Under(items[i].index, p) && Under(items[j].index, p)
  }

  /** The flag of the inner node at p, told from the order of the keys alone: set exactly when, just before
      the second key below p arrived, the parent position already had two keys below it or was the root. */
  ghost predicate FlagAt(items: seq<Item>, p: Path)
    decreases |items|
  {
    items != [] &&
    var before := items[..|items| - 1];
    if Two(before, p) then FlagAt(before, p) else |p| == 1 || (p != [] && Two(before, p[..|p| - 1]))
  }

  /** Every leaf is a transaction leaf hashed by its index. */
  ghost predicate AllTx(t: Tree) {
    match t
    case Nil => true
    case Leaf(kind, flag, item, hash) => kind == TxLeaf && flag && hash == Raw(item.index)
    case Inner(_, _) => forall b :: 0 <= b < |t.kids| ==> AllTx(t.kids[b])
  }

  lemma {:induction false} SplitIsTx(flag: bool, item: Item, other: Item, d: nat)
    requires d <= 64 && item.index[..d] == other.index[..d] && item.index != other.index
    ensures AllTx(Split(flag, TxLeaf, item, other, d))
    decreases 64 - d
  {
    KeysDiverge(item.index, other.index, d);
    if item.index[d] == other.index[d] { SplitIsTx(false, item, other, d + 1); }
  }

  lemma {:induction false} InsertKeepsTx(t: Tree, d: nat, item: Item)
    requires CanInsert(t, d, item.index) && AllTx(t)
    ensures AllTx(Insert(t, d, item, TxLeaf))
    decreases t
  {
    match t
    case Nil =>
    case Leaf(_, flag, other, _) =>
      assert other in Items(t);
      SplitIsTx(flag, item, other, d);
    case Inner(_, kids) =>
      KidCanInsert(t, d, item.index);
      InsertKeepsTx(kids[item.index[d]], d + 1, item);
  }

  lemma {:induction false} AtIsTx(t: Tree, p: Path)
    requires AllTx(t)
    ensures AllTx(At(t, p))
    decreases |p|
  {
    if p != [] { AtIsTx(t, p[..|p| - 1]); }
  }

  // ---- what one addition does to the flags ----

  /** Where the walk along a key leaves the inner nodes. */
  lemma {:induction false} WalkEnd(t: Tree, k: Key) returns (n: nat)
    requires WFRoot(t)
    ensures 0 < n <= 64 && InnerBefore(t, k, n) && !At(t, k[..n]).Inner?
  {
    n := 0;
    assert At(t, k[..0]) == t;
    while At(t, k[..n]).Inner?
      invariant n <= 64 && InnerBefore(t, k, n)
      invariant n == 0 ==> At(t, k[..n]).Inner?
      decreases 64 - n
    {
      InnerDepth(t, k[..n]);
      n := n + 1;
    }
  }

  lemma FlagOnPath(t: Tree, item: Item, n: nat, i: nat)
    requires WFRoot(t) && CanInsert(t, 0, item.index) && i < n <= 64 && InnerBefore(t, item.index, n)
    ensures At(Insert(t, 0, item, TxLeaf), item.index[..i]).Inner?
    ensures At(Insert(t, 0, item, TxLeaf), item.index[..i]).flag == At(t, item.index[..i]).flag
  {
    InsertAlongPath(t, item, TxLeaf, i);
    assert At(t, item.index[..i]).Inner?;
  }

  lemma FlagAtNewLeaf(t: Tree, item: Item, n: nat, p: Path)
    requires WFRoot(t) && CanInsert(t, 0, item.index) && 0 < n <= 64 && InnerBefore(t, item.index, n)
    requires At(t, item.index[..n]) == Nil && |p| <= 64 && At(Insert(t, 0, item, TxLeaf), p).Inner?
    ensures At(t, p).Inner? && At(Insert(t, 0, item, TxLeaf), p).flag == At(t, p).flag
  {
    InsertAtEmptyBranch(t, item, TxLeaf, n - 1, p);
    assert p != item.index[..n];
    if Follows(item.index, n, p) {
      FlagOnPath(t, item, n, |p|);
      assert At(t, item.index[..|p|]).Inner?;
    } else {
      assert At(Insert(t, 0, item, TxLeaf), p) == At(t, p);
    }
  }

  lemma NotInnerFrom(t: Tree, k: Key, n: nat, i: nat)
    requires n <= i <= 64 && !At(t, k[..n]).Inner?
    ensures !At(t, k[..i]).Inner?
  {
    if n < i {
      assert k[..i][..n] == k[..n];
      NothingBelow(t, k[..i], n);
    }
  }

  lemma ChainFlag(t: Tree, item: Item, n: nat, d: nat, i: nat)
    requires WFRoot(t) && CanInsert(t, 0, item.index) && 0 < n <= 64 && InnerBefore(t, item.index, n)
    requires At(t, item.index[..n]).Leaf? && At(t, item.index[..n]).flag
    requires n <= i <= d && Fork(item.index, At(t, item.index[..n]).item.index, d)
    ensures At(Insert(t, 0, item, TxLeaf), item.index[..i]).Inner? && !At(t, item.index[..i]).Inner?
    ensures At(Insert(t, 0, item, TxLeaf), item.index[..i]).flag == At(t, item.index[..i - 1]).Inner?
  {
    ChainOfInsert(t, item, TxLeaf, n, d, i);
    NotInnerFrom(t, item.index, n, i);
    if n < i { NotInnerFrom(t, item.index, n, i - 1); }
  }

  lemma SplitLeavesEnd(t: Tree, item: Item, n: nat, d: nat, p: Path)
    requires WFRoot(t) && CanInsert(t, 0, item.index) && n <= 64 && InnerBefore(t, item.index, n)
    requires At(t, item.index[..n]).Leaf? && n <= d && Fork(item.index, At(t, item.index[..n]).item.index, d)
    requires At(Insert(t, 0, item, TxLeaf), p).Inner?
    ensures p != item.index[..d + 1] && p != At(t, item.index[..n]).item.index[..d + 1]
  {
    ForkOfInsert(t, item, TxLeaf, n, d);
  }

  lemma FlagAtSplit(t: Tree, item: Item, n: nat, p: Path)
    requires WFRoot(t) && CanInsert(t, 0, item.index) && 0 < n <= 64 && InnerBefore(t, item.index, n)
    requires At(t, item.index[..n]).Leaf? && At(t, item.index[..n]).flag
    requires p != [] && |p| <= 64 && At(Insert(t, 0, item, TxLeaf), p).Inner?
    ensures At(Insert(t, 0, item, TxLeaf), p).flag ==
              if At(t, p).Inner? then At(t, p).flag else At(t, p[..|p| - 1]).Inner?
  {
    var d := ForkBelow(t, item, n);
    SplitLeavesEnd(t, item, n, d, p);
    if Follows(item.index, d + 1, p) {
      FlagOnSplitPath(t, item, n, d, p);
    } else {
      SplitElsewhere(t, item, TxLeaf, n, d, p);
    }
  }

  lemma FlagOnSplitPath(t: Tree, item: Item, n: nat, d: nat, p: Path)
    requires WFRoot(t) && CanInsert(t, 0, item.index) && 0 < n <= 64 && InnerBefore(t, item.index, n)
    requires At(t, item.index[..n]).Leaf? && At(t, item.index[..n]).flag
    requires n <= d && Fork(item.index, At(t, item.index[..n]).item.index, d)
    requires p != [] && |p| <= d && Follows(item.index, d + 1, p) && At(Insert(t, 0, item, TxLeaf), p).Inner?
    ensures At(Insert(t, 0, item, TxLeaf), p).flag ==
              if At(t, p).Inner? then At(t, p).flag else At(t, p[..|p| - 1]).Inner?
  {
    var i := |p|;
    assert p == item.index[..i] && p[..i - 1] == item.index[..i - 1];
    if i < n {
      FlagOnPath(t, item, n, i);
    } else {
      ChainFlag(t, item, n, d, i);
    }
  }

  lemma ForkBelow(t: Tree, item: Item, n: nat) returns (d: nat)
    requires WFRoot(t) && CanInsert(t, 0, item.index) && n <= 64 && At(t, item.index[..n]).Leaf?
    ensures n <= d && Fork(item.index, At(t, item.index[..n]).item.index, d)
  {
    var k, o := item.index, At(t, item.index[..n]).item.index;
    PathInvariant(t, k[..n]);
    assert At(t, k[..n]).item in Items(At(t, k[..n]));
    d := LeavesOrFollows(k, o);
    assert k == k[..64] && o == o[..64];
    assert forall j :: 0 <= j < n ==> k[..n][j] == k[j] && o[..n][j] == o[j];
  }

  /** An addition keeps the flags of inner nodes; a new inner node is flagged exactly when its parent was inner. */
  lemma InsertFlag(t: Tree, item: Item, p: Path)
    requires WFRoot(t) && CanInsert(t, 0, item.index) && AllTx(t)
    requires p != [] && At(Insert(t, 0, item, TxLeaf), p).Inner?
    ensures At(Insert(t, 0, item, TxLeaf), p).flag ==
              if At(t, p).Inner? then At(t, p).flag else At(t, p[..|p| - 1]).Inner?
  {
    InsertAddsItem(t, 0, item, TxLeaf);
    InnerDepth(Insert(t, 0, item, TxLeaf), p);
    var n := WalkEnd(t, item.index);
    AtIsTx(t, item.index[..n]);
    if At(t, item.index[..n]).Leaf? {
      FlagAtSplit(t, item, n, p);
    } else {
      FlagAtNewLeaf(t, item, n, p);
    }
  }

  // ---- which positions are inner ----

  lemma InKid(u: Tree, d: nat, it: Item)
    requires u.Inner? && WF(u, d) && it in Items(u)
    ensures it in Items(u.kids[it.index[d]])
  {
    var c :| 0 <= c < 16 && it in Items(u.kids[c]);
    assert Routed(u.kids[c], d, c);
  }

  /** Two items that go the same way meet an inner node there. */
  lemma BothInKid(u: Tree, d: nat, a: Item, b: Item)
    requires u.Inner? && WF(u, d) && a in Items(u) && b in Items(u) && a.index != b.index && a.index[d] == b.index[d]
    ensures var kid := u.kids[a.index[d]]; kid.Inner? && a in Items(kid) && b in Items(kid)
  {
    InKid(u, d, a);
    InKid(u, d, b);
  }

  lemma PrefixesShared(a: Key, b: Key, n: nat)
    requires n < 64 && a[..n + 1] == b[..n + 1]
    ensures a[..n] == b[..n] && a[n] == b[n]
  {
    assert a[..n + 1][..n] == a[..n] && b[..n + 1][..n] == b[..n];
    assert a[..n + 1][n] == a[n] && b[..n + 1][n] == b[n];
  }

  lemma {:induction false} SharedPrefixIsInner(t: Tree, a: Item, b: Item, n: nat)
    requires WFRoot(t) && a in Items(t) && b in Items(t) && a.index != b.index
    requires n <= 64 && a.index[..n] == b.index[..n]
    ensures At(t, a.index[..n]).Inner? && a in Items(At(t, a.index[..n])) && b in Items(At(t, a.index[..n]))
  {
    if n == 0 {
      assert a.index[..0] == [];
    } else {
      PrefixesShared(a.index, b.index, n - 1);
      SharedPrefixIsInner(t, a, b, n - 1);
      KeyStep(a.index, n - 1);
      AtSnoc(t, a.index[..n - 1], a.index[n - 1]);
      PathInvariant(t, a.index[..n - 1]);
      BothInKid(At(t, a.index[..n - 1]), n - 1, a, b);
    }
  }

  lemma TwoMeansInner(items: seq<Item>, t: Tree, p: Path)
    requires WFRoot(t) && DistinctKeys(items) && Items(t) == Listed(items) && p != []
    ensures Two(items, p) <==> At(t, p).Inner?
  {
    if Two(items, p) {
      var i, j :| 0 <= i < j < |items| && Under(items[i].index, p) && Under(items[j].index, p);
      assert items[i] in Listed(items) && items[j] in Listed(items);
      SharedPrefixIsInner(t, items[i], items[j], |p|);
    }
    if At(t, p).Inner? {
      PathInvariant(t, p);
      var x, y :| x in Items(At(t, p)) && y in Items(At(t, p)) && x.index != y.index;
      var i :| 0 <= i < |items| && items[i] == x;
      var j :| 0 <= j < |items| && items[j] == y;
      assert Under(items[i].index, p) && Under(items[j].index, p);
      if j < i { assert Two(items, p); }
    }
  }

  // ---- the flags of a built tree ----

  lemma {:induction false} BuildIsTx(items: seq<Item>)
    requires DistinctKeys(items)
    ensures AllTx(Build(items, TxLeaf, true)) && Build(items, TxLeaf, true).flag
    decreases |items|
  {
    if items != [] {
      BuildIsTx(items[..|items| - 1]);
      InsertKeepsTx(Build(items[..|items| - 1], TxLeaf, true), 0, items[|items| - 1]);
    }
  }

  /** The flag of every inner node of a transaction tree is the one told from the insertion order. */
  lemma {:induction false} FlagsFromOrder(items: seq<Item>, p: Path)
    requires DistinctKeys(items) && p != [] && At(Build(items, TxLeaf, true), p).Inner?
    ensures At(Build(items, TxLeaf, true), p).flag == FlagAt(items, p)
    decreases |items|
  {
    if items == [] {
      TwoMeansInner(items, Build(items, TxLeaf, true), p);
    } else {
      var before, last := items[..|items| - 1], items[|items| - 1];
      var t := Build(before, TxLeaf, true);
      BuildIsTx(before);
      InsertFlag(t, last, p);
      TwoMeansInner(before, t, p);
      if Two(before, p) {
        FlagsFromOrder(before, p);
      } else if |p| > 1 {
        TwoMeansInner(before, t, p[..|p| - 1]);
      } else {
        assert p[..0] == [];
      }
    }
  }

  // ---- equal roots ----

  lemma {:induction false} SameFlagsSameTree(t: Tree, u: Tree, p: Path, x: Tree, y: Tree)
    requires WFRoot(t) && WFRoot(u) && AllTx(x) && AllTx(y) && x == At(t, p) && y == At(u, p)
    requires WF(x, |p|) && WF(y, |p|) && Items(x) == Items(y) && (p == [] ==> x.Inner? && y.Inner?)
    requires forall q :: At(t, q).Inner? && At(u, q).Inner? ==> At(t, q).flag == At(u, q).flag
    ensures x == y
    decreases x
  {
    SameKeysSameKind(x, y, |p|);
    if x.Leaf? {
      assert x.item in Items(y);
    } else if x.Inner? {
      forall b | 0 <= b < 16 ensures x.kids[b] == y.kids[b] {
        ItemsOfKid(x, y, |p|, b);
        ItemsOfKid(y, x, |p|, b);
        AtSnoc(t, p, b);
        AtSnoc(u, p, b);
        SameFlagsSameTree(t, u, p + [b], x.kids[b], y.kids[b]);
      }
      assert x.kids == y.kids;
    }
  }

  lemma {:induction false} SameHashAt(t: Tree, u: Tree, p: Path)
    requires WFRoot(t) && WFRoot(u) && Hash(t) == Hash(u) && At(t, p).Inner? && At(u, p).Inner?
    ensures Hash(At(t, p)) == Hash(At(u, p))
    decreases |p|
  {
    if p != [] {
      var q := p[..|p| - 1];
      SameHashAt(t, u, q);
      SameHashSameKids(At(t, q), At(u, q));
    }
  }

  /** Two orders of the same transactions give the same root hash if and only if they give every inner
      position the same flag. */
  lemma SameRootIffSameFlags(a: seq<Item>, b: seq<Item>)
    requires DistinctKeys(a) && DistinctKeys(b) && Listed(a) == Listed(b)
    ensures Hash(Build(a, TxLeaf, true)) == Hash(Build(b, TxLeaf, true)) <==>
            forall p :: p != [] && Two(a, p) ==> FlagAt(a, p) == FlagAt(b, p)
  {
    var t, u := Build(a, TxLeaf, true), Build(b, TxLeaf, true);
    BuildIsTx(a);
    BuildIsTx(b);
    forall p | p != [] ensures (Two(a, p) <==> At(t, p).Inner?) && (Two(a, p) <==> At(u, p).Inner?)
      ensures Two(a, p) ==> At(t, p).flag == FlagAt(a, p) && At(u, p).flag == FlagAt(b, p)
    {
      TwoMeansInner(a, t, p);
      TwoMeansInner(a, u, p);
      if Two(a, p) {
        FlagsFromOrder(a, p);
        FlagsFromOrder(b, p);
      }
    }
    if Hash(t) == Hash(u) {
      forall p | p != [] && Two(a, p) ensures FlagAt(a, p) == FlagAt(b, p) {
        SameHashAt(t, u, p);
        SameHashSameKids(At(t, p), At(u, p));
      }
    }
    if forall p :: p != [] && Two(a, p) ==> FlagAt(a, p) == FlagAt(b, p) {
      forall q | At(t, q).Inner? && At(u, q).Inner? ensures At(t, q).flag == At(u, q).flag {
        if q != [] { assert Two(a, q); }
      }
      SameFlagsSameTree(t, u, [], t, u);
    }
  }

  // ---- the order does matter ----

  function KeyFrom(a: Nibble, b: Nibble, c: Nibble): Key {
    [a, b, c] + seq(61, i => 0)
  }

  /** The second inner node of a chain built by one split is not flagged; one added below an inner node is. */
  lemma FlagsOfTwoOrders(i: Item, j: Item, k: Item, p: Path)
    requires |p| == 2 && Under(i.index, p) && Under(j.index, p) && !Under(k.index, p)
    requires Under(i.index, p[..1]) && Under(k.index, p[..1])
    ensures Two([i, j, k], p) && !FlagAt([i, j, k], p) && FlagAt([i, k, j], p)
  {
    var a, b := [i, j, k], [i, k, j];
    assert a[..2] == [i, j] && a[..2][..1] == [i] && b[..2] == [i, k];
    assert Two(a[..2], p) by { assert Under(a[..2][0].index, p) && Under(a[..2][1].index, p); }
    assert !FlagAt(a[..2], p);
    assert Two(b[..2], p[..1]) by { assert Under(b[..2][0].index, p[..1]) && Under(b[..2][1].index, p[..1]); }
    assert !Two(b[..2], p);
    assert Two(a, p) by { assert Under(a[0].index, p) && Under(a[1].index, p); }
  }

  /** Three transactions of which two share a position that the third one leaves: the order of the last two matters. */
  lemma TwoOrdersDiffer(i: Item, j: Item, k: Item, p: Path)
    requires |p| == 2 && Under(i.index, p) && Under(j.index, p) && !Under(k.index, p)
    requires Under(i.index, p[..1]) && Under(k.index, p[..1])
    requires i.index != j.index
    ensures DistinctKeys([i, j, k]) && DistinctKeys([i, k, j]) && Listed([i, j, k]) == Listed([i, k, j])
    ensures Hash(Build([i, j, k], TxLeaf, true)) != Hash(Build([i, k, j], TxLeaf, true))
  {
    FlagsOfTwoOrders(i, j, k, p);
    assert Listed([i, j, k]) == {i, j, k} == Listed([i, k, j]);
    SameRootIffSameFlags([i, j, k], [i, k, j]);
  }

  /** Three transactions whose two orders give different root hashes. */
  lemma OrderMatters(x: Payload, y: Payload, z: Payload)
    ensures var i, j, k := Item(KeyFrom(0, 0, 0), x), Item(KeyFrom(0, 0, 1), y), Item(KeyFrom(0, 1, 0), z);
      && DistinctKeys([i, j, k]) && DistinctKeys([i, k, j])
      && Listed([i, j, k]) == Listed([i, k, j])
      && Hash(Build([i, j, k], TxLeaf, true)) != Hash(Build([i, k, j], TxLeaf, true))
  {
    var i, j, k := Item(KeyFrom(0, 0, 0), x), Item(KeyFrom(0, 0, 1), y), Item(KeyFrom(0, 1, 0), z);
    assert i.index[2] == 0 && j.index[2] == 1 && j.index[1] == 0 && k.index[1] == 1 && i.index[1] == 0;
    var p: Path := [0, 0];
    assert Under(i.index, p) && Under(j.index, p) && !Under(k.index, p);
    assert p[..1] == [0] && Under(i.index, [0]) && Under(k.index, [0]);
    TwoOrdersDiffer(i, j, k, p);
  }
}

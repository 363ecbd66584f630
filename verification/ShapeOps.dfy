/** Adding and updating an item, as functions on tree values. */
module ShapeOps {
  import opened Types
  import opened Shape

  /** A leaf fresh from its constructor: hashed by its index, not by its content. */
  function NewLeaf(item: Item, kind: Kind): Tree {
    Leaf(kind, kind == TxLeaf, item, Raw(item.index))
  }

  /** A leaf as an update leaves it. */
  function UpdatedLeaf(flag: bool, item: Item): Tree {
    Leaf(AcLeaf, flag, item, AcLeafDigest(flag, EmptyMask(), item.data, item.index))
  }

  lemma KeysDiverge(a: Key, b: Key, d: nat)
    requires d <= 64 && a[..d] == b[..d] && a != b
    ensures d < 64
    ensures a[d] == b[d] ==> a[..d + 1] == b[..d + 1]
  {
    assert a == a[..64] && b == b[..64];
    assert d < 64 ==> a[..d + 1] == a[..d] + [a[d]] && b[..d + 1] == b[..d] + [b[d]];
  }

  /** The subtree that replaces a leaf: one inner node for every further branch both keys share.
      The new inner nodes carry the default flag; the converted leaf keeps its own. */
  function Split(flag: bool, kind: Kind, item: Item, other: Item, d: nat): (t: Tree)
    requires d <= 64 && item.index[..d] == other.index[..d] && item.index != other.index
    ensures t.Inner? && t.flag == flag
    decreases 64 - d
  {
    KeysDiverge(item.index, other.index, d);
    var b1, b2 := item.index[d], other.index[d];
    if b1 == b2 then
      Inner(flag, NoKids()[b1 := Split(false, kind, item, other, d + 1)])
    else
      Inner(flag, NoKids()[b1 := NewLeaf(item, kind)][b2 := NewLeaf(other, kind)])
  }

  ghost predicate CanInsert(t: Tree, d: nat, k: Key) {
    && d <= 64
    && WF(t, d)
    && Agree(Items(t), k, d)
    && !HasKey(Items(t), k)
  }

  lemma KidCanInsert(t: Tree, d: nat, k: Key)
    requires t.Inner? && CanInsert(t, d, k)
    ensures CanInsert(t.kids[k[d]], d + 1, k)
  {
    var kid := t.kids[k[d]];
    forall it | it in Items(kid) ensures it.index[..d + 1] == k[..d + 1] && it.index != k {
      assert it in Items(t);
      assert it.index[..d + 1] == it.index[..d] + [it.index[d]];
      assert k[..d + 1] == k[..d] + [k[d]];
    }
  }

  ghost function Insert(t: Tree, d: nat, item: Item, kind: Kind): (r: Tree)
    requires CanInsert(t, d, item.index)
    ensures r != Nil
    decreases t
  {
    match t
    case Nil => NewLeaf(item, kind)
    case Leaf(_, flag, other, _) => assert other in Items(t); Split(flag, kind, item, other, d)
    case Inner(flag, kids) =>
      KidCanInsert(t, d, item.index);
      Inner(flag, kids[item.index[d] := Insert(kids[item.index[d]], d + 1, item, kind)])
  }

  ghost function Update(t: Tree, d: nat, item: Item): (r: Tree)
    requires WF(t, d) && HasKey(Items(t), item.index)
    ensures r != Nil
    decreases t
  {
    match t
    case Leaf(_, flag, _, _) => UpdatedLeaf(flag, item)
    case Inner(flag, kids) => Inner(flag, kids[item.index[d] := Update(kids[item.index[d]], d + 1, item)])
  }

  lemma ItemsOfKidsUpdate(flag: bool, kids: seq<Tree>, b: nat, kid: Tree)
    requires b < |kids|
    ensures forall it :: it in Items(Inner(flag, kids[b := kid])) <==>
              it in Items(kid) || exists c :: 0 <= c < |kids| && c != b && it in Items(kids[c])
  {
    var after := Inner(flag, kids[b := kid]);
    forall it | it in Items(kid) ensures it in Items(after) {
      assert it in Items(after.kids[b]);
    }
    forall it, c | 0 <= c < |kids| && c != b && it in Items(kids[c]) ensures it in Items(after) {
      assert it in Items(after.kids[c]);
    }
  }

  lemma WithKid(flag: bool, kids: seq<Tree>, b: nat, kid: Tree, d: nat)
    requires |kids| == 16 && b < 16 && d < 64
    requires forall c :: 0 <= c < 16 && c != b ==> WF(kids[c], d + 1) && Routed(kids[c], d, c)
    requires WF(kid, d + 1) && Routed(kid, d, b)
    requires d > 0 ==> TwoKeys(Items(Inner(flag, kids[b := kid])))
    ensures WF(Inner(flag, kids[b := kid]), d)
  {
    var t := Inner(flag, kids[b := kid]);
    forall c | 0 <= c < 16 ensures WF(t.kids[c], d + 1) && Routed(t.kids[c], d, c) {
      if c != b { assert t.kids[c] == kids[c]; }
    }
  }

  lemma ItemsOfOneKid(flag: bool, b: nat, kid: Tree)
    requires b < 16
    ensures Items(Inner(flag, NoKids()[b := kid])) == Items(kid)
  {
    ItemsOfKidsUpdate(flag, NoKids(), b, kid);
  }

  lemma ItemsOfTwoKids(flag: bool, b: nat, kid: Tree, c: nat, kid': Tree)
    requires b < 16 && c < 16 && b != c
    ensures Items(Inner(flag, NoKids()[b := kid][c := kid'])) == Items(kid) + Items(kid')
  {
    var kids := NoKids()[b := kid];
    ItemsOfKidsUpdate(flag, kids, c, kid');
    var t := Inner(flag, kids[c := kid']);
    forall it | it in Items(t) ensures it in Items(kid) + Items(kid') {
      if it !in Items(kid') {
        var x :| 0 <= x < 16 && x != c && it in Items(kids[x]);
        assert x == b;
      }
    }
    forall it | it in Items(kid) ensures it in Items(t) {
      assert kids[b] == kid && b != c && it in Items(kids[b]);
      assert t.kids[b] == kid;
    }
  }

  lemma ForkIsWellFormed(flag: bool, kind: Kind, item: Item, other: Item, d: nat)
    requires d < 64 && item.index[d] != other.index[d] && kind != InnerNode
    ensures var t := Inner(flag, NoKids()[item.index[d] := NewLeaf(item, kind)][other.index[d] := NewLeaf(other, kind)]);
            WF(t, d) && Items(t) == {item, other}
  {
    var b1, b2 := item.index[d], other.index[d];
    var t := Inner(flag, NoKids()[b1 := NewLeaf(item, kind)][b2 := NewLeaf(other, kind)]);
    ItemsOfTwoKids(flag, b1, NewLeaf(item, kind), b2, NewLeaf(other, kind));
    assert item in Items(t) && other in Items(t);
    WithKid(flag, NoKids()[b1 := NewLeaf(item, kind)], b2, NewLeaf(other, kind), d);
  }

  lemma {:induction false} SplitIsWellFormed(flag: bool, kind: Kind, item: Item, other: Item, d: nat)
    requires d <= 64 && item.index[..d] == other.index[..d] && item.index != other.index
    requires kind != InnerNode
    ensures WF(Split(flag, kind, item, other, d), d)
    ensures Items(Split(flag, kind, item, other, d)) == {item, other}
    decreases 64 - d
  {
    KeysDiverge(item.index, other.index, d);
    var b := item.index[d];
    if b == other.index[d] {
      var kid := Split(false, kind, item, other, d + 1);
      SplitIsWellFormed(false, kind, item, other, d + 1);
      ItemsOfOneKid(flag, b, kid);
      WithKid(flag, NoKids(), b, kid, d);
    } else {
      ForkIsWellFormed(flag, kind, item, other, d);
    }
  }

  lemma ItemsOfInsertedKid(t: Tree, b: nat, kid: Tree, item: Item)
    requires t.Inner? && b < |t.kids| && Items(kid) == Items(t.kids[b]) + {item}
    ensures Items(Inner(t.flag, t.kids[b := kid])) == Items(t) + {item}
  {
    var t' := Inner(t.flag, t.kids[b := kid]);
    ItemsOfKidsUpdate(t.flag, t.kids, b, kid);
    forall it | it in Items(t) ensures it in Items(t') {
      var c :| 0 <= c < |t.kids| && it in Items(t.kids[c]);
      assert it in Items(t'.kids[c]);
    }
  }

  /** Adding a fresh key keeps the tree well formed and stores exactly one more item. */
  lemma {:induction false} InsertAddsItem(t: Tree, d: nat, item: Item, kind: Kind)
    requires CanInsert(t, d, item.index) && kind != InnerNode
    ensures WF(Insert(t, d, item, kind), d)
    ensures Items(Insert(t, d, item, kind)) == Items(t) + {item}
    decreases t
  {
    match t
    case Nil =>
    case Leaf(_, flag, other, _) =>
      assert other in Items(t);
      SplitIsWellFormed(flag, kind, item, other, d);
    case Inner(flag, kids) =>
      var b := item.index[d];
      KidCanInsert(t, d, item.index);
      var kid := Insert(kids[b], d + 1, item, kind);
      InsertAddsItem(kids[b], d + 1, item, kind);
      ItemsOfInsertedKid(t, b, kid, item);
      WithKid(flag, kids, b, kid, d);
  }

  lemma ItemsOfUpdatedKid(t: Tree, b: nat, kid: Tree, was: Item, item: Item, d: nat)
    requires t.Inner? && WF(t, d) && b < 16
    requires was in Items(t.kids[b]) && Items(kid) == Items(t.kids[b]) - {was} + {item}
    ensures Items(Inner(t.flag, t.kids[b := kid])) == Items(t) - {was} + {item}
  {
    var t' := Inner(t.flag, t.kids[b := kid]);
    ItemsOfKidsUpdate(t.flag, t.kids, b, kid);
    forall it | it in Items(t) - {was} ensures it in Items(t') {
      var c :| 0 <= c < 16 && it in Items(t.kids[c]);
      assert it in Items(t'.kids[c]);
    }
    forall c | 0 <= c < 16 && c != b ensures was !in Items(t.kids[c]) {
      assert Routed(t.kids[b], d, b) && Routed(t.kids[c], d, c);
    }
  }

  lemma TwoKeysAfterReplace(s: set<Item>, was: Item, item: Item)
    requires TwoKeys(s) && UniqueKeys(s) && was in s && was.index == item.index
    ensures TwoKeys(s - {was} + {item})
  {
    var x, y :| x in s && y in s && x.index != y.index;
    var s' := s - {was} + {item};
    assert (if x == was then item else x) in s' && (if y == was then item else y) in s';
  }

  /** Updating a present key keeps the tree well formed and replaces exactly that key's item. */
  lemma {:induction false} UpdateReplacesItem(t: Tree, d: nat, was: Item, item: Item)
    requires WF(t, d) && was in Items(t) && was.index == item.index
    ensures WF(Update(t, d, item), d)
    ensures Items(Update(t, d, item)) == Items(t) - {was} + {item}
    decreases t
  {
    match t
    case Leaf(_, _, _, _) =>
    case Inner(flag, kids) =>
      var b := item.index[d];
      ItemIsBelowItsBranch(t, d, was);
      UpdateReplacesItem(kids[b], d + 1, was, item);
      UpdatedKidFits(t, d, was, item, Update(kids[b], d + 1, item));
  }

  lemma ItemIsBelowItsBranch(t: Tree, d: nat, it: Item)
    requires t.Inner? && WF(t, d) && it in Items(t)
    ensures it in Items(t.kids[it.index[d]])
  {
    var b :| 0 <= b < 16 && it in Items(t.kids[b]);
    assert Routed(t.kids[b], d, b);
  }

  lemma UpdatedKidFits(t: Tree, d: nat, was: Item, item: Item, kid: Tree)
    requires t.Inner? && WF(t, d) && was in Items(t) && was.index == item.index
    requires was in Items(t.kids[item.index[d]]) && WF(kid, d + 1)
    requires Items(kid) == Items(t.kids[item.index[d]]) - {was} + {item}
    ensures var t' := Inner(t.flag, t.kids[item.index[d] := kid]);
      WF(t', d) && Items(t') == Items(t) - {was} + {item}
  {
    var b := item.index[d];
    ItemsOfUpdatedKid(t, b, kid, was, item, d);
    if d > 0 {
      KeysAreUnique(t, d);
      TwoKeysAfterReplace(Items(t), was, item);
    }
    RoutedAfterReplace(t.kids[b], kid, was, item, d, b);
    WithKid(t.flag, t.kids, b, kid, d);
  }

  lemma RoutedAfterReplace(kid: Tree, kid': Tree, was: Item, item: Item, d: nat, b: nat)
    requires d < 64 && Routed(kid, d, b) && item.index[d] == b && Items(kid') == Items(kid) - {was} + {item}
    ensures Routed(kid', d, b)
  {
  }

  /** Adding to and updating the tree are adding to and updating the map. */
  lemma InsertIsMapUpdate(t: Tree, item: Item, kind: Kind)
    requires WFRoot(t) && kind != InnerNode && item.index !in Contents(t)
    ensures CanInsert(t, 0, item.index)
    ensures WFRoot(Insert(t, 0, item, kind))
    ensures Contents(Insert(t, 0, item, kind)) == Contents(t)[item.index := item.data]
  {
    KeysAreUnique(t, 0);
    assert !HasKey(Items(t), item.index);
    InsertAddsItem(t, 0, item, kind);
    MapOfAdd(Items(t), item);
  }

  lemma UpdateIsMapUpdate(t: Tree, item: Item)
    requires WFRoot(t) && item.index in Contents(t)
    ensures HasKey(Items(t), item.index)
    ensures WFRoot(Update(t, 0, item))
    ensures Contents(Update(t, 0, item)) == Contents(t)[item.index := item.data]
  {
    KeysAreUnique(t, 0);
    var was :| was in Items(t) && was.index == item.index;
    UpdateReplacesItem(t, 0, was, item);
    MapOfReplace(Items(t), was, item);
  }
}

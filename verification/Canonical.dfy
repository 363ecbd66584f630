/** The shape of a tree depends on its key set alone. */
module Canonical {
  import opened Types
  import opened Shape
  import opened ShapeOps
  import opened ShapeHash

  /** A tree without flags, data and hashes. */
  datatype Outline = Empty | One(key: Key) | Many(parts: seq<Outline>)

  function OutlineOf(t: Tree): Outline {
    match t
    case Nil => Empty
    case Leaf(_, _, item, _) => One(item.index)
    case Inner(_, kids) => Many(Outlines(kids))
  }

  function Outlines(kids: seq<Tree>): (os: seq<Outline>)
    ensures |os| == |kids| && forall i :: 0 <= i < |kids| ==> os[i] == OutlineOf(kids[i])
  {
    if kids == [] then [] else [OutlineOf(kids[0])] + Outlines(kids[1..])
  }

  lemma KeysOfKid(t: Tree, d: nat, b: nat)
    requires WF(t, d) && t.Inner? && b < 16
    ensures Keys(t.kids[b]) == set k | k in Keys(t) && k[d] == b
  {
    var below := set k | k in Keys(t) && k[d] == b;
    forall k | k in Keys(t.kids[b]) ensures k in below {
      var it :| it in Items(t.kids[b]) && it.index == k;
      assert Routed(t.kids[b], d, b);
      assert it in Items(t);
    }
    forall k | k in below ensures k in Keys(t.kids[b]) {
      var it :| it in Items(t) && it.index == k;
      var c :| 0 <= c < 16 && it in Items(t.kids[c]);
      assert Routed(t.kids[c], d, c);
    }
  }

  lemma SameKeysSameKind(t: Tree, u: Tree, d: nat)
    requires WF(t, d) && WF(u, d) && Keys(t) == Keys(u) && (d > 0 || (t.Inner? && u.Inner?))
    ensures t.Nil? == u.Nil? && t.Leaf? == u.Leaf? && t.Inner? == u.Inner?
    ensures t.Leaf? ==> t.item.index == u.item.index
  {
    if d > 0 {
      CountsTell(t, d);
      CountsTell(u, d);
      assert t.Leaf? ==> t.item.index in Keys(u);
    }
  }

  lemma CountsTell(t: Tree, d: nat)
    requires WF(t, d) && d > 0
    ensures t.Nil? <==> Keys(t) == {}
    ensures t.Leaf? ==> Keys(t) == {t.item.index}
    ensures t.Inner? <==> exists a, b :: a in Keys(t) && b in Keys(t) && a != b
  {
    match t
    case Nil =>
    case Leaf(_, _, item, _) => assert Keys(t) == {item.index};
    case Inner(_, _) =>
      var x, y :| x in Items(t) && y in Items(t) && x.index != y.index;
      assert x.index in Keys(t) && y.index in Keys(t);
  }

  /** Equal key sets, equal outlines: for every pair of well-formed trees, however they were built. */
  lemma {:induction false} KeysFixOutline(t: Tree, u: Tree, d: nat)
    requires WF(t, d) && WF(u, d) && Keys(t) == Keys(u) && (d > 0 || (t.Inner? && u.Inner?))
    ensures OutlineOf(t) == OutlineOf(u)
    decreases t
  {
    SameKeysSameKind(t, u, d);
    if t.Inner? {
      forall b | 0 <= b < 16 ensures OutlineOf(t.kids[b]) == OutlineOf(u.kids[b]) {
        KeysOfKid(t, d, b);
        KeysOfKid(u, d, b);
        KeysFixOutline(t.kids[b], u.kids[b], d + 1);
      }
      assert Outlines(t.kids) == Outlines(u.kids);
    }
  }

  // ---- account trees that only grew ----

  /** No flag is set and every leaf is an account leaf hashed by its index. */
  ghost predicate Plain(t: Tree) {
    match t
    case Nil => true
    case Leaf(kind, flag, item, hash) => kind == AcLeaf && !flag && hash == Raw(item.index)
    case Inner(flag, _) => !flag && forall b :: 0 <= b < |t.kids| ==> Plain(t.kids[b])
  }

  /** Plain trees with the same items are the same tree, so they have the same root hash. */
  lemma {:induction false} PlainFixed(t: Tree, u: Tree, d: nat)
    requires WF(t, d) && WF(u, d) && Items(t) == Items(u) && (d > 0 || (t.Inner? && u.Inner?))
    requires Plain(t) && Plain(u)
    ensures t == u
    decreases t
  {
    SameKeysSameKind(t, u, d);
    if t.Leaf? {
      assert t.item in Items(u);
    } else if t.Inner? {
      forall b | 0 <= b < 16 ensures t.kids[b] == u.kids[b] {
        ItemsOfKid(t, u, d, b);
        ItemsOfKid(u, t, d, b);
        PlainFixed(t.kids[b], u.kids[b], d + 1);
      }
      assert t.kids == u.kids;
    }
  }

  lemma ItemsOfKid(t: Tree, u: Tree, d: nat, b: nat)
    requires WF(t, d) && WF(u, d) && t.Inner? && u.Inner? && Items(t) == Items(u) && b < 16
    ensures Items(t.kids[b]) <= Items(u.kids[b])
  {
    forall it | it in Items(t.kids[b]) ensures it in Items(u.kids[b]) {
      assert it in Items(t) && Routed(t.kids[b], d, b);
      var c :| 0 <= c < 16 && it in Items(u.kids[c]);
      assert Routed(u.kids[c], d, c);
    }
  }

  lemma {:induction false} SplitIsPlain(item: Item, other: Item, d: nat)
    requires d <= 64 && item.index[..d] == other.index[..d] && item.index != other.index
    ensures Plain(Split(false, AcLeaf, item, other, d))
    decreases 64 - d
  {
    KeysDiverge(item.index, other.index, d);
    if item.index[d] == other.index[d] { SplitIsPlain(item, other, d + 1); }
  }

  lemma {:induction false} InsertKeepsPlain(t: Tree, d: nat, item: Item)
    requires CanInsert(t, d, item.index) && Plain(t)
    ensures Plain(Insert(t, d, item, AcLeaf))
    decreases t
  {
    match t
    case Nil =>
    case Leaf(_, _, other, _) =>
      assert other in Items(t);
      SplitIsPlain(item, other, d);
    case Inner(_, kids) =>
      KidCanInsert(t, d, item.index);
      InsertKeepsPlain(kids[item.index[d]], d + 1, item);
  }

  // ---- insertion orders ----

  predicate DistinctKeys(items: seq<Item>) {
    forall i, j :: 0 <= i < j < |items| ==> items[i].index != items[j].index
  }

  ghost function Listed(items: seq<Item>): set<Item> {
    set it | it in items
  }

  /** The tree after adding these items, in this order, to an empty one. */
  ghost function Build(items: seq<Item>, kind: Kind, flag: bool): (t: Tree)
    requires DistinctKeys(items) && kind != InnerNode
    ensures WFRoot(t) && Items(t) == Listed(items)
  {
    if items == [] then
      EmptyRootIsWellFormed(flag);
      EmptyRoot(flag)
    else
      var last := items[|items| - 1];
      var t := Build(items[..|items| - 1], kind, flag);
      InsertAddsItem(t, 0, last, kind);
      ListedSnoc(items);
      Insert(t, 0, last, kind)
  }

  lemma ListedSnoc(items: seq<Item>)
    requires items != []
    ensures Listed(items) == Listed(items[..|items| - 1]) + {items[|items| - 1]}
  {
    var n := |items| - 1;
    forall it | it in items ensures it in items[..n] || it == items[n] {
      var i :| 0 <= i < |items| && items[i] == it;
      assert i < n ==> items[..n][i] == it;
    }
  }

  lemma {:induction false} BuildIsPlain(items: seq<Item>)
    requires DistinctKeys(items)
    ensures Plain(Build(items, AcLeaf, false))
    decreases |items|
  {
    if items != [] {
      BuildIsPlain(items[..|items| - 1]);
      InsertKeepsPlain(Build(items[..|items| - 1], AcLeaf, false), 0, items[|items| - 1]);
    }
  }

  /** Account trees: any two orders of adding the same items to an empty tree give the same root hash. */
  lemma OrderDoesNotMatter(a: seq<Item>, b: seq<Item>)
    requires DistinctKeys(a) && DistinctKeys(b) && Listed(a) == Listed(b)
    ensures Build(a, AcLeaf, false) == Build(b, AcLeaf, false)
    ensures Hash(Build(a, AcLeaf, false)) == Hash(Build(b, AcLeaf, false))
  {
    BuildIsPlain(a);
    BuildIsPlain(b);
    PlainFixed(Build(a, AcLeaf, false), Build(b, AcLeaf, false), 0);
  }
}

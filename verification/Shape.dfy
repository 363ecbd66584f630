/** The value of a radix Merkle tree, independent of which of its nodes are in memory. */
module Shape {
  import opened Types

  /** `Nil` is an empty branch. A leaf keeps its hash, because a new leaf is hashed by its index
      and only a later update gives it a content digest. */
  datatype Tree =
    | Nil
    | Leaf(kind: Kind, flag: bool, item: Item, hash: Digest)
    | Inner(flag: bool, kids: seq<Tree>)

  function NoKids(): (kids: seq<Tree>)
    ensures |kids| == 16 && forall i :: 0 <= i < 16 ==> kids[i] == Nil
  {
    seq(16, i => Nil)
  }

  function MaskOf(kids: seq<Tree>): Mask {
    seq(|kids|, i requires 0 <= i < |kids| => !kids[i].Nil?)
  }

  function Hash(t: Tree): Digest {
    match t
    case Nil => Zero()
    case Leaf(_, _, _, hash) => hash
    case Inner(flag, kids) => InnerDigest(flag, MaskOf(kids), Hashes(kids))
  }

  function Hashes(kids: seq<Tree>): (hs: seq<Digest>)
    ensures |hs| == |kids|
    ensures forall i :: 0 <= i < |kids| ==> hs[i] == Hash(kids[i])
  {
    if kids == [] then [] else [Hash(kids[0])] + Hashes(kids[1..])
  }

  /** Everything stored below a node, read off without any routing. */
  ghost function Items(t: Tree): set<Item> {
    match t
    case Nil => {}
    case Leaf(_, _, item, _) => {item}
    case Inner(_, _) => set b, it | 0 <= b < |t.kids| && it in Items(t.kids[b]) :: it
  }

  ghost predicate HasKey(s: set<Item>, k: Key) {
    exists it :: it in s && it.index == k
  }

  ghost predicate TwoKeys(s: set<Item>) {
    exists a, b :: a in s && b in s && a.index != b.index
  }

  ghost predicate UniqueKeys(s: set<Item>) {
    forall a, b :: a in s && b in s && a.index == b.index ==> a == b
  }

  ghost predicate Agree(s: set<Item>, k: Key, d: nat)
    requires d <= 64
  {
    forall it :: it in s ==> it.index[..d] == k[..d]
  }

  predicate LeafOk(t: Tree)
    requires t.Leaf?
  {
    match t.kind
    case InnerNode => false
    case TxLeaf => t.hash == Raw(t.item.index)
    case AcLeaf =>
      || t.hash == Raw(t.item.index)
      || t.hash == AcLeafDigest(t.flag, EmptyMask(), t.item.data, t.item.index)
  }

  ghost predicate Routed(kid: Tree, d: nat, b: int)
    requires d < 64
  {
    forall it :: it in Items(kid) ==> it.index[d] == b
  }

  /** The shape every reachable tree has: items sit under the branch their key selects, and only
      the root may be an inner node with fewer than two keys below it. */
  ghost predicate WF(t: Tree, d: nat)
    decreases t
  {
    match t
    case Nil => true
    case Leaf(_, _, _, _) => d <= 64 && LeafOk(t)
    case Inner(_, _) =>
      && d < 64
      && |t.kids| == 16
      && (forall b :: 0 <= b < 16 ==> WF(t.kids[b], d + 1) && Routed(t.kids[b], d, b))
      && (d > 0 ==> TwoKeys(Items(t)))
  }

  ghost predicate WFRoot(t: Tree) {
    t.Inner? && WF(t, 0)
  }

  function EmptyRoot(flag: bool): Tree {
    Inner(flag, NoKids())
  }

  lemma EmptyRootIsWellFormed(flag: bool)
    ensures WFRoot(EmptyRoot(flag)) && Items(EmptyRoot(flag)) == {}
  {
    var t := EmptyRoot(flag);
    forall b | 0 <= b < 16 ensures t.kids[b] == Nil {
    }
  }

  lemma {:induction false} KeysAreUnique(t: Tree, d: nat)
    requires WF(t, d)
    ensures UniqueKeys(Items(t))
    decreases t
  {
    if t.Inner? {
      forall a, b | a in Items(t) && b in Items(t) && a.index == b.index
        ensures a == b
      {
        var i :| 0 <= i < 16 && a in Items(t.kids[i]);
        KeysAreUnique(t.kids[i], d + 1);
      }
    }
  }

  lemma {:induction false} NonNilHasItem(t: Tree, d: nat)
    requires WF(t, d) && t != Nil && (t.Inner? ==> d > 0)
    ensures exists it :: it in Items(t)
  {
    if t.Leaf? {
      assert t.item in Items(t);
    }
  }

  /** The lookup loop of the original, on the value. */
  function Find(t: Tree, d: nat, k: Key): Option<Payload>
    decreases t
  {
    match t
    case Nil => None
    case Leaf(_, _, item, _) => if item.index == k then Some(item.data) else None
    case Inner(_, kids) => if d < 64 && |kids| == 16 then Find(kids[k[d]], d + 1, k) else None
  }

  /** Routing finds a payload exactly when that item is stored. */
  lemma {:induction false} FindIsMembership(t: Tree, d: nat, k: Key, v: Payload)
    requires WF(t, d)
    ensures Find(t, d, k) == Some(v) <==> Item(k, v) in Items(t)
    decreases t
  {
    if t.Inner? {
      FindIsMembership(t.kids[k[d]], d + 1, k, v);
    }
  }

  lemma {:induction false} FindNone(t: Tree, d: nat, k: Key)
    requires WF(t, d)
    ensures Find(t, d, k) == None <==> !HasKey(Items(t), k)
  {
    if Find(t, d, k).Some? {
      FindIsMembership(t, d, k, Find(t, d, k).value);
    } else {
      forall it | it in Items(t) ensures it.index != k {
        FindIsMembership(t, d, k, it.data);
      }
    }
  }

  /** The finite map a set of items stands for. */
  ghost function MapOf(s: set<Item>): map<Key, Payload> {
    map k | k in (set it | it in s :: it.index) :: DataOf(s, k)
  }

  ghost function DataOf(s: set<Item>, k: Key): Payload
    requires k in (set it | it in s :: it.index)
  {
    var it :| it in s && it.index == k; it.data
  }

  ghost function Contents(t: Tree): map<Key, Payload> {
    MapOf(Items(t))
  }

  lemma MapOfItem(s: set<Item>, it: Item)
    requires UniqueKeys(s) && it in s
    ensures it.index in MapOf(s) && MapOf(s)[it.index] == it.data
  {
    assert it.index in (set x | x in s :: x.index);
  }

  /** Lookup answers exactly like the finite map. */
  lemma FindIsMap(t: Tree, d: nat, k: Key)
    requires WF(t, d)
    ensures Find(t, d, k) == if k in Contents(t) then Some(Contents(t)[k]) else None
  {
    KeysAreUnique(t, d);
    FindNone(t, d, k);
    if k in Contents(t) {
      var it :| it in Items(t) && it.index == k;
      MapOfItem(Items(t), it);
      FindIsMembership(t, d, k, it.data);
    }
  }

  lemma MapOfAdd(s: set<Item>, it: Item)
    requires UniqueKeys(s) && !HasKey(s, it.index)
    ensures UniqueKeys(s + {it})
    ensures MapOf(s + {it}) == MapOf(s)[it.index := it.data]
  {
    var s' := s + {it};
    MapOfItem(s', it);
    forall x | x in s ensures x.index in MapOf(s') && MapOf(s')[x.index] == x.data == MapOf(s)[x.index] {
      MapOfItem(s', x);
      MapOfItem(s, x);
    }
    assert MapOf(s').Keys == MapOf(s).Keys + {it.index};
  }

  lemma MapOfReplace(s: set<Item>, was: Item, it: Item)
    requires UniqueKeys(s) && was in s && was.index == it.index
    ensures UniqueKeys(s - {was} + {it})
    ensures MapOf(s - {was} + {it}) == MapOf(s)[it.index := it.data]
  {
    var rest := s - {was};
    assert rest + {was} == s;
    assert !HasKey(rest, was.index);
    MapOfAdd(rest, was);
    MapOfAdd(rest, it);
  }

  /** The tree answers every lookup like the map m. */
  ghost predicate Means(m: map<Key, Payload>, t: Tree) {
    forall k {:trigger Find(t, 0, k)} :: Find(t, 0, k) == if k in m then Some(m[k]) else None
  }

  lemma MeansItsContents(m: map<Key, Payload>, t: Tree)
    requires WF(t, 0)
    ensures Means(m, t) <==> m == Contents(t)
  {
    forall k ensures Find(t, 0, k) == if k in Contents(t) then Some(Contents(t)[k]) else None {
      FindIsMap(t, 0, k);
    }
    if Means(m, t) {
      forall k ensures (k in m <==> k in Contents(t)) && (k in m ==> m[k] == Contents(t)[k]) {
        assert Find(t, 0, k) == Find(t, 0, k);
      }
    }
  }
}

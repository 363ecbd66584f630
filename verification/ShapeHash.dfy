/** What a hash says about the subtree it stands for. */
module ShapeHash {
  import opened Types
  import opened Shape

  ghost function Keys(t: Tree): set<Key> {
    set it | it in Items(t) :: it.index
  }

  /** The items of the leaves whose hash is a content digest, that is, those last written by an update. */
  ghost function Settled(t: Tree): set<Item> {
    match t
    case Nil => {}
    case Leaf(_, _, item, hash) => if hash.AcLeafDigest? then {item} else {}
    case Inner(_, _) => set b, it | 0 <= b < |t.kids| && it in Settled(t.kids[b]) :: it
  }

  lemma SameHashSameKids(t: Tree, u: Tree)
    requires t.Inner? && u.Inner? && Hash(t) == Hash(u)
    ensures t.flag == u.flag && |t.kids| == |u.kids|
    ensures forall b :: 0 <= b < |t.kids| ==>
              Hash(t.kids[b]) == Hash(u.kids[b]) && (t.kids[b] == Nil <==> u.kids[b] == Nil)
  {
    assert Hash(t) == InnerDigest(t.flag, MaskOf(t.kids), Hashes(t.kids));
    assert Hash(u) == InnerDigest(u.flag, MaskOf(u.kids), Hashes(u.kids));
    forall b | 0 <= b < |t.kids|
      ensures Hash(t.kids[b]) == Hash(u.kids[b]) && (t.kids[b] == Nil <==> u.kids[b] == Nil)
    {
      assert Hashes(t.kids)[b] == Hashes(u.kids)[b];
      assert MaskOf(t.kids)[b] == MaskOf(u.kids)[b];
    }
  }

  lemma SameHashSameConstructor(t: Tree, d: nat, u: Tree, e: nat)
    requires WF(t, d) && WF(u, e) && t != Nil && u != Nil && Hash(t) == Hash(u)
    ensures t.Leaf? <==> u.Leaf?
    ensures t.Leaf? ==> t.item.index == u.item.index && Settled(t) == Settled(u)
  {
  }

  /** Commitment: equal hashes mean equal key sets, and equal data wherever an update wrote last. */
  lemma {:induction false} HashCommits(t: Tree, d: nat, u: Tree, e: nat)
    requires WF(t, d) && WF(u, e) && t != Nil && u != Nil && Hash(t) == Hash(u)
    ensures Keys(t) == Keys(u)
    ensures Settled(t) == Settled(u)
    decreases t
  {
    SameHashSameConstructor(t, d, u, e);
    if t.Inner? {
      SameHashSameKids(t, u);
      forall b | 0 <= b < 16
        ensures Keys(t.kids[b]) == Keys(u.kids[b]) && Settled(t.kids[b]) == Settled(u.kids[b])
      {
        if t.kids[b] != Nil { HashCommits(t.kids[b], d + 1, u.kids[b], e + 1); }
      }
      KeysOfKids(t, u);
      KeysOfKids(u, t);
    }
  }

  lemma KeysOfKids(t: Tree, u: Tree)
    requires t.Inner? && u.Inner? && |t.kids| == |u.kids|
    requires forall b :: 0 <= b < |t.kids| ==> Keys(t.kids[b]) == Keys(u.kids[b])
    ensures Keys(t) <= Keys(u)
  {
    forall k | k in Keys(t) ensures k in Keys(u) {
      var b, it :| 0 <= b < |t.kids| && it in Items(t.kids[b]) && it.index == k;
      assert k in Keys(t.kids[b]);
      var it' :| it' in Items(u.kids[b]) && it'.index == k;
      assert it' in Items(u);
    }
  }

  /** For leaves indexed by a digest of their content that does not collide on the items at hand,
      equal root hashes mean equal items. */
  lemma ContentIndexedRootCommits(t: Tree, u: Tree, digest: Payload -> Key)
    requires WFRoot(t) && WFRoot(u) && Hash(t) == Hash(u)
    requires forall it :: it in Items(t) + Items(u) ==> it.index == digest(it.data)
    requires forall a, b :: a in Items(t) && b in Items(u) && digest(a.data) == digest(b.data) ==> a.data == b.data
    ensures Items(t) == Items(u)
  {
    HashCommits(t, 0, u, 0);
    forall it | it in Items(t) ensures it in Items(u) {
      assert it.index in Keys(t);
      var it' :| it' in Items(u) && it'.index == it.index;
    }
    forall it | it in Items(u) ensures it in Items(t) {
      assert it.index in Keys(u);
      var it' :| it' in Items(t) && it'.index == it.index;
    }
  }

  /** A child's hash is a proper part of its parent's, so no node hashes to what a node below it does. */
  lemma KidHashIsPart(t: Tree, b: nat)
    requires t.Inner? && b < |t.kids|
    ensures Hash(t.kids[b]) < Hash(t)
  {
    assert Hashes(t.kids)[b] == Hash(t.kids[b]);
  }

  /** Replacing one child by another with a different hash, or filling an empty branch, changes the hash. */
  lemma ChangePropagates(flag: bool, kids: seq<Tree>, b: nat, kid: Tree)
    requires b < |kids| && (Hash(kid) != Hash(kids[b]) || (kid != Nil && kids[b] == Nil))
    ensures Hash(Inner(flag, kids[b := kid])) != Hash(Inner(flag, kids))
  {
    if Hash(Inner(flag, kids[b := kid])) == Hash(Inner(flag, kids)) {
      SameHashSameKids(Inner(flag, kids[b := kid]), Inner(flag, kids));
    }
  }
}

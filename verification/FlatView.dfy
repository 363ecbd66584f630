/** A tree as a flat collection of what each of its nodes holds, by position. */
module FlatView {
  import opened Types
  import opened Shape
  import opened ShapePaths

  /** The stored form of a node (module NodeCodec gives its bytes). */
  datatype Record =
    | InnerRecord(flag: bool, mask: Mask, childHash: seq<Digest>)
    | LeafRecord(kind: Kind, flag: bool, mask: Mask, item: Item)

  predicate RecordOk(r: Record) {
    match r
    case InnerRecord(_, mask, hashes) => |mask| == 16 && |hashes| == 16
    case LeafRecord(kind, _, mask, _) => |mask| == 16 && kind != InnerNode
  }

  function NoHashes(): (s: seq<Digest>)
    ensures |s| == 16 && forall i :: 0 <= i < 16 ==> s[i] == Zero()
  {
    seq(16, i => Zero())
  }

  lemma BlankView()
    ensures MaskOf(NoKids()) == EmptyMask() && Hashes(NoKids()) == NoHashes()
  {
    assert Hashes(NoKids()) == NoHashes();
  }

  /** What one node holds. */
  datatype View = View(hash: Digest, rec: Record)

  type Views = imap<Path, View>

  function ViewOf(t: Tree): View
    requires t != Nil
  {
    View(Hash(t),
         match t
         case Leaf(kind, flag, item, _) => LeafRecord(kind, flag, EmptyMask(), item)
         case Inner(flag, kids) => InnerRecord(flag, MaskOf(kids), Hashes(kids)))
  }

  ghost function Flatten(t: Tree): Views {
    imap p | Live(t, p) :: ViewOf(At(t, p))
  }

  ghost predicate Flattens(v: Views, t: Tree) {
    WFRoot(t) && forall p {:trigger At(t, p)} ::
      (p in v <==> At(t, p) != Nil) && (At(t, p) != Nil ==> v[p] == ViewOf(At(t, p)))
  }

  lemma FlattenFlattens(t: Tree)
    requires WFRoot(t)
    ensures Flattens(Flatten(t), t)
  {
  }

  lemma FlatteningIsUnique(v: Views, t: Tree)
    requires Flattens(v, t)
    ensures v == Flatten(t)
  {
    forall p ensures p in v <==> p in Flatten(t) {
      assert At(t, p) == At(t, p);
    }
  }

  ghost predicate InnerAt(v: Views, p: Path) {
    p in v && v[p].rec.InnerRecord?
  }

  ghost predicate LeafAt(v: Views, p: Path) {
    p in v && v[p].rec.LeafRecord?
  }

  ghost predicate KidOk(v: Views, p: Path, b: Nibble)
    requires InnerAt(v, p) && RecordOk(v[p].rec)
  {
    && v[p].rec.mask[b] == (p + [b] in v)
    && (p + [b] in v ==> v[p].rec.childHash[b] == v[p + [b]].hash)
  }

  ghost predicate ParentOk(v: Views, p: Path, b: Nibble) {
    p + [b] in v ==> InnerAt(v, p)
  }

  ghost function HashAt(v: Views, p: Path): Digest {
    if p in v then v[p].hash else Zero()
  }

  /** What one node's view says about itself and the nodes one step further. */
  ghost predicate NodeOk(v: Views, p: Path)
    requires p in v
  {
    && RecordOk(v[p].rec)
    && |p| <= 64
    && match v[p].rec
       case InnerRecord(flag, mask, hashes) =>
         && |p| < 64
         && v[p].hash == InnerDigest(flag, mask, hashes)
         && forall b: Nibble :: KidOk(v, p, b)
       case LeafRecord(_, _, mask, item) =>
         && mask == EmptyMask()
         && item.index[..|p|] == p
  }

  /** What the heap proofs need to know about a flattened tree. */
  ghost predicate Coherent(v: Views) {
    && InnerAt(v, [])
    && (forall p {:trigger NodeOk(v, p)} :: p in v ==> NodeOk(v, p))
    && (forall p, b: Nibble {:trigger ParentOk(v, p, b)} :: ParentOk(v, p, b))
    && (forall p, q {:trigger HashAt(v, p), HashAt(v, q)} ::
          p in v && q in v && HashAt(v, p) == HashAt(v, q) ==> p == q)
  }

  lemma {:induction false} PrefixIsInner(v: Views, p: Path, n: nat)
    requires Coherent(v) && p in v && n < |p|
    ensures InnerAt(v, p[..n])
    decreases |p|
  {
    var q := p[..|p| - 1];
    assert p == q + [p[|p| - 1]];
    assert ParentOk(v, q, p[|p| - 1]);
    if n < |q| {
      PrefixIsInner(v, q, n);
      assert q[..n] == p[..n];
    }
  }

  /** A leaf has nothing below it. */
  lemma LeafEndsPath(v: Views, p: Path, n: nat)
    requires Coherent(v) && n < |p| && LeafAt(v, p[..n])
    ensures p !in v
  {
    if p in v { PrefixIsInner(v, p, n); }
  }

  lemma ViewNodeOk(v: Views, t: Tree, p: Path)
    requires Flattens(v, t) && p in v
    ensures NodeOk(v, p)
  {
    assert At(t, p) != Nil;
    PathInvariant(t, p);
    if At(t, p).Leaf? {
      assert At(t, p).item in Items(At(t, p));
    } else {
      forall b: Nibble ensures KidOk(v, p, b) {
        AtSnoc(t, p, b);
      }
    }
  }

  lemma FlattenedIsCoherent(v: Views, t: Tree)
    requires Flattens(v, t)
    ensures Coherent(v)
  {
    assert At(t, []) == t;
    forall p | p in v ensures NodeOk(v, p) {
      ViewNodeOk(v, t, p);
    }
    forall p, b: Nibble ensures ParentOk(v, p, b) {
      AtSnoc(t, p, b);
    }
    forall p, q | p in v && q in v && HashAt(v, p) == HashAt(v, q) ensures p == q {
      if p != q {
        assert At(t, p) != Nil && At(t, q) != Nil;
        HashesAreDistinct(t, p, q);
      }
    }
  }

  ghost predicate BackedAt(v: Views, data: map<Digest, Record>, p: Path)
    requires p in v
  {
    v[p].hash in data && data[v[p].hash] == v[p].rec
  }

  /** Every node that is not in memory has its record in the store. */
  ghost predicate Backed(loaded: set<Path>, v: Views, data: map<Digest, Record>) {
    forall p {:trigger BackedAt(v, data, p)} :: p in v && p !in loaded ==> BackedAt(v, data, p)
  }

  /** Taking one node out of the store leaves every other unloaded node there. */
  lemma BackedAfterFetch(loaded: set<Path>, v: Views, data: map<Digest, Record>, q: Path)
    requires Coherent(v) && Backed(loaded, v, data) && q in v
    ensures Backed(loaded + {q}, v, data - {v[q].hash})
  {
    forall p | p in v && p !in loaded + {q} ensures BackedAt(v, data - {v[q].hash}, p) {
      assert BackedAt(v, data, p);
      assert HashAt(v, p) != HashAt(v, q);
    }
  }
}

/** Two trees over one store: what one does there leaves the records of the other alone. */
module StoreSharing {
  import opened Types
  import opened Shape
  import opened ShapeHash
  import opened ShapePaths
  import opened FlatView
  import opened TreeMemory

  /** Two trees that share no record of the store. */
  ghost predicate Apart(t: Tree, u: Tree) {
    WFRoot(t) && WFRoot(u) && t.flag != u.flag && Keys(t) !! Keys(u)
  }

  ghost predicate HashOf(t: Tree, h: Digest) {
    exists p :: Live(t, p) && Hash(At(t, p)) == h
  }

  /** What changes only records of t leaves u in the store. */
  lemma ElsewhereKept(t: Tree, u: Tree, loaded: set<Path>, data: map<Digest, Record>, data': map<Digest, Record>)
    requires Apart(t, u) && Backed(loaded, Flatten(u), data)
    requires forall h :: h in data && !HashOf(t, h) ==> h in data' && data'[h] == data[h]
    ensures Backed(loaded, Flatten(u), data')
  {
    FlattenFlattens(u);
    forall q | q in Flatten(u) && q !in loaded ensures BackedAt(Flatten(u), data', q) {
      assert BackedAt(Flatten(u), data, q);
      assert Live(u, q);
      forall p | Live(t, p) ensures Hash(At(t, p)) != Hash(At(u, q)) {
        TreesShareNoHash(t, u, p, q);
      }
      assert !HashOf(t, Hash(At(u, q)));
    }
  }

  lemma MeaningKeys(m: map<Key, Payload>, t: Tree)
    requires WFRoot(t) && Means(m, t)
    ensures m.Keys == Keys(t)
  {
    MeansItsContents(m, t);
  }

  lemma TreesApart(t: Tree, m: map<Key, Payload>, u: Tree, n: map<Key, Payload>)
    requires WFRoot(t) && WFRoot(u) && t.flag != u.flag && Means(m, t) && Means(n, u) && m.Keys !! n.Keys
    ensures Apart(t, u)
  {
    MeaningKeys(m, t);
    MeaningKeys(n, u);
  }

  lemma RootOnlyRemoved(t: Tree, u: Tree, loaded: set<Path>, data: map<Digest, Record>)
    requires Apart(t, u) && Backed(loaded, Flatten(u), data)
    ensures Backed(loaded, Flatten(u), data - {Hash(t)})
  {
    assert Live(t, []) && At(t, []) == t;
    ElsewhereKept(t, u, loaded, data, data - {Hash(t)});
  }

  lemma OtherTreeStaysBacked(v: Views, t: Tree, loaded: set<Path>, data: map<Digest, Record>,
                             v': Views, loaded': set<Path>, data': map<Digest, Record>, m: map<Key, Payload>,
                             w: Views, u: Tree, others: set<Path>, n: map<Key, Payload>)
    requires Flattens(v, t) && Flattens(w, u) && t.flag != u.flag
    requires Means(m, t) && Means(n, u) && m.Keys !! n.Keys
    requires StoreFrame(v, loaded, data, v', loaded', data') && Backed(others, w, data)
    ensures Backed(others, w, data')
  {
    MeaningKeys(m, t);
    MeaningKeys(n, u);
    forall q | q in w && q !in others ensures BackedAt(w, data', q) {
      assert BackedAt(w, data, q);
      assert At(u, q) != Nil;
      forall p | p in v ensures HashAt(v, p) != HashAt(w, q) {
        assert At(t, p) != Nil;
        TreesShareNoHash(t, u, p, q);
      }
      assert !Owned(v, loaded, HashAt(w, q));
    }
  }

  // ---- no record without an owner ----

  ghost predicate AccountedFor(v: Views, loaded: set<Path>, w: Views, others: set<Path>, foreign: set<Digest>, h: Digest) {
    Owned(v, loaded, h) || Owned(w, others, h) || h in foreign
  }

  /** Every record belongs to a node of one of two trees that is not in memory, or is foreign. */
  ghost predicate Accounted(v: Views, loaded: set<Path>, w: Views, others: set<Path>,
                            data: map<Digest, Record>, foreign: set<Digest>)
  {
    forall h {:trigger AccountedFor(v, loaded, w, others, foreign, h)} ::
      h in data ==> AccountedFor(v, loaded, w, others, foreign, h)
  }

  /** What one tree does to the store leaves no stray records. */
  lemma StaysAccounted(v: Views, loaded: set<Path>, data: map<Digest, Record>,
                       v': Views, loaded': set<Path>, data': map<Digest, Record>,
                       w: Views, others: set<Path>, foreign: set<Digest>)
    requires StoreFrame(v, loaded, data, v', loaded', data')
    ensures Accounted(v, loaded, w, others, data, foreign) ==> Accounted(v', loaded', w, others, data', foreign)
    ensures Accounted(w, others, v, loaded, data, foreign) ==> Accounted(w, others, v', loaded', data', foreign)
  {
    if Accounted(v, loaded, w, others, data, foreign) {
      forall h | h in data' ensures AccountedFor(v', loaded', w, others, foreign, h) {
        assert AccountedFor(v, loaded, w, others, foreign, h);
      }
    }
    if Accounted(w, others, v, loaded, data, foreign) {
      forall h | h in data' ensures AccountedFor(w, others, v', loaded', foreign, h) {
        assert AccountedFor(w, others, v, loaded, foreign, h);
      }
    }
  }

  /** What one tree does to the store leaves the records of the other alone, and no strays. */
  lemma OtherTreeUndisturbed(v: Views, t: Tree, loaded: set<Path>, data: map<Digest, Record>,
                             v': Views, loaded': set<Path>, data': map<Digest, Record>, m: map<Key, Payload>,
                             w: Views, u: Tree, others: set<Path>, n: map<Key, Payload>, foreign: set<Digest>)
    requires Flattens(v, t) && Flattens(w, u) && t.flag != u.flag
    requires Means(m, t) && Means(n, u) && m.Keys !! n.Keys
    requires StoreFrame(v, loaded, data, v', loaded', data') && Backed(others, w, data)
    ensures Backed(others, w, data')
    ensures Accounted(v, loaded, w, others, data, foreign) ==> Accounted(v', loaded', w, others, data', foreign)
    ensures Accounted(w, others, v, loaded, data, foreign) ==> Accounted(w, others, v', loaded', data', foreign)
  {
    OtherTreeStaysBacked(v, t, loaded, data, v', loaded', data', m, w, u, others, n);
    StaysAccounted(v, loaded, data, v', loaded', data', w, others, foreign);
  }

  /** Then each node of either tree is in memory or in the store, never in both. */
  lemma InOnePlace(v: Views, t: Tree, loaded: set<Path>, w: Views, u: Tree, others: set<Path>,
                   data: map<Digest, Record>, foreign: set<Digest>, p: Path)
    requires Flattens(v, t) && Flattens(w, u) && Apart(t, u) && Backed(loaded, v, data) && p in v
    requires Accounted(v, loaded, w, others, data, foreign) || Accounted(w, others, v, loaded, data, foreign)
    requires HashAt(v, p) !in foreign
    ensures p in loaded <==> HashAt(v, p) !in data
  {
    FlattenedIsCoherent(v, t);
    assert At(t, p) != Nil;
    if p !in loaded {
      assert BackedAt(v, data, p);
    } else {
      forall q | q in w ensures HashAt(w, q) != HashAt(v, p) {
        assert At(u, q) != Nil;
        TreesShareNoHash(t, u, p, q);
      }
      assert !Owned(v, loaded, HashAt(v, p)) && !Owned(w, others, HashAt(v, p));
      assert !AccountedFor(v, loaded, w, others, foreign, HashAt(v, p));
      assert !AccountedFor(w, others, v, loaded, foreign, HashAt(v, p));
    }
  }

  /** After opening a saved tree by its root, its other records are those of nodes that are not in memory. */
  lemma SavedIsOwned(t: Tree, h: Digest)
    requires WFRoot(t) && HashOf(t, h) && h != Hash(t)
    ensures Owned(Flatten(t), {[]}, h)
  {
    FlattenFlattens(t);
    assert At(t, []) == t;
    var p :| Live(t, p) && Hash(At(t, p)) == h;
    assert p in Flatten(t) && p !in {[]};
  }

  /** The store keys of neither tree. */
  ghost function Unrelated(t: Tree, u: Tree, data: map<Digest, Record>): set<Digest> {
    set h | h in data && !HashOf(t, h) && !HashOf(u, h)
  }

  lemma OpenedIsAccounted(t: Tree, u: Tree, data: map<Digest, Record>)
    requires WFRoot(t) && WFRoot(u)
    ensures Accounted(Flatten(t), {[]}, Flatten(u), {[]}, data - {Hash(u)} - {Hash(t)}, Unrelated(t, u, data))
  {
    var f := Unrelated(t, u, data);
    forall h | h in data - {Hash(u)} - {Hash(t)} ensures AccountedFor(Flatten(t), {[]}, Flatten(u), {[]}, f, h) {
      if HashOf(t, h) { SavedIsOwned(t, h); }
      if HashOf(u, h) { SavedIsOwned(u, h); }
    }
  }

  lemma OnlyForeignUnrelated(v: Views, t: Tree, loaded: set<Path>, w: Views, u: Tree, others: set<Path>,
                             data: map<Digest, Record>, foreign: set<Digest>)
    requires Flattens(v, t) && Flattens(w, u) && Accounted(v, loaded, w, others, data, foreign)
    ensures Unrelated(t, u, data) <= foreign
  {
    forall h | h in Unrelated(t, u, data) ensures h in foreign {
      assert AccountedFor(v, loaded, w, others, foreign, h);
      assert forall p :: p in v ==> At(t, p) != Nil && HashAt(v, p) == Hash(At(t, p));
      assert forall p :: p in w ==> At(u, p) != Nil && HashAt(w, p) == Hash(At(u, p));
    }
  }
}

/** What adding or updating an item changes in the flat view of a tree. */
module ViewChange {
  import opened Types
  import opened Shape
  import opened ShapeOps
  import opened ShapeHash
  import opened ShapePaths
  import opened FlatView

  /** The node at depth i on the path of k differs only by its child on that path, and its hash changed. */
  ghost predicate PathChanged(v: Views, v': Views, k: Key, i: nat)
    requires i < 64
  {
    var p := k[..i];
    && InnerAt(v, p) && p in v' && k[..i + 1] in v'
    && RecordOk(v[p].rec)
    && v'[p].rec == InnerRecord(v[p].rec.flag, v[p].rec.mask[k[i] := true],
                                v[p].rec.childHash[k[i] := v'[k[..i + 1]].hash])
    && v'[p].hash == InnerDigest(v'[p].rec.flag, v'[p].rec.mask, v'[p].rec.childHash)
    && v'[p].hash != v[p].hash
  }

  ghost predicate Grafted(t: Tree, t': Tree, k: Key, i: nat)
    requires i < 64
  {
    var u := At(t, k[..i]);
    u.Inner? && |u.kids| == 16 && At(t', k[..i]) == Inner(u.flag, u.kids[k[i] := At(t', k[..i + 1])])
  }

  ghost predicate ChangedAt(t: Tree, t': Tree, k: Key, i: nat)
    requires i <= 64
  {
    At(t', k[..i]) != Nil && (At(t, k[..i]) == Nil || Hash(At(t', k[..i])) != Hash(At(t, k[..i])))
  }

  lemma {:induction false} ChangeClimbs(t: Tree, t': Tree, k: Key, i: nat, n: nat)
    requires i <= n <= 64 && ChangedAt(t, t', k, n)
    requires forall j :: i <= j < n ==> Grafted(t, t', k, j)
    ensures ChangedAt(t, t', k, i)
    decreases n - i
  {
    if i < n {
      ChangeClimbs(t, t', k, i + 1, n);
      assert Grafted(t, t', k, i);
      var u := At(t, k[..i]);
      KeyStep(k, i);
      AtSnoc(t, k[..i], k[i]);
      ChangePropagates(u.flag, u.kids, k[i], At(t', k[..i + 1]));
    }
  }

  lemma KidsUpdateView(kids: seq<Tree>, b: nat, kid: Tree)
    requires b < |kids| && kid != Nil
    ensures MaskOf(kids[b := kid]) == MaskOf(kids)[b := true]
    ensures Hashes(kids[b := kid]) == Hashes(kids)[b := Hash(kid)]
  {
  }

  lemma GraftedIsPathChanged(v: Views, t: Tree, v': Views, t': Tree, k: Key, i: nat, n: nat)
    requires Flattens(v, t) && Flattens(v', t')
    requires i < n <= 64 && ChangedAt(t, t', k, n)
    requires forall j :: 0 <= j < n ==> Grafted(t, t', k, j)
    ensures PathChanged(v, v', k, i)
  {
    ChangeClimbs(t, t', k, i, n);
    ChangeClimbs(t, t', k, i + 1, n);
    assert Grafted(t, t', k, i);
    var u := At(t, k[..i]);
    KidsUpdateView(u.kids, k[i], At(t', k[..i + 1]));
  }

  // ---- where a position leaves the path of a key ----

  lemma {:induction false} LeavesOrFollows(k: Key, p: Path) returns (j: nat)
    requires |p| <= 64
    ensures j <= |p| && p[..j] == k[..j] && (j < |p| ==> p[j] != k[j])
    ensures j == |p| ==> p == k[..|p|]
  {
    j := 0;
    while j < |p| && p[j] == k[j]
      invariant j <= |p| && p[..j] == k[..j]
    {
      KeyStep(k, j);
      assert p[..j + 1] == p[..j] + [p[j]];
      j := j + 1;
    }
    assert j == |p| ==> p[..j] == p;
  }

  // ---- adding ----

  ghost predicate InnerBefore(t: Tree, k: Key, n: nat)
    requires n <= 64
  {
    forall j {:trigger k[..j]} :: 0 <= j < n ==> At(t, k[..j]).Inner?
  }

  lemma InsertGrafts(t: Tree, item: Item, kind: Kind, i: nat)
    requires WFRoot(t) && CanInsert(t, 0, item.index) && i < 64 && InnerBefore(t, item.index, i + 1)
    ensures Grafted(t, Insert(t, 0, item, kind), item.index, i)
  {
    var k := item.index;
    InsertAlongPath(t, item, kind, i);
    InsertAlongPath(t, item, kind, i + 1);
    KeyStep(k, i);
    AtSnoc(t, k[..i], k[i]);
    PathInvariant(t, k[..i]);
  }

  /** p is one of the first n + 1 positions on the path of k. */
  predicate Follows(k: Key, n: nat, p: Path)
    requires n <= 64
  {
    |p| <= n && p == k[..|p|]
  }

  lemma NothingBelow(t: Tree, p: Path, n: nat)
    requires n < |p| && !At(t, p[..n]).Inner?
    ensures !Live(t, p)
  {
    if Live(t, p) { ProperPrefixIsInner(t, p, n); }
  }

  /** Off the path of the key, adding changes nothing above the point where the path used to end. */
  lemma InsertElsewhere(t: Tree, item: Item, kind: Kind, p: Path, j: nat, n: nat)
    requires WFRoot(t) && CanInsert(t, 0, item.index) && n <= 64 && InnerBefore(t, item.index, n)
    requires j < |p| && j < n && p[..j] == item.index[..j] && p[j] != item.index[j]
    ensures At(Insert(t, 0, item, kind), p) == At(t, p)
  {
    InsertOffPath(t, item, kind, p, j);
  }

  /** Adding below an inner node with an empty branch: one new leaf, and the path above it changes. */
  ghost predicate LeafAdded(v: Views, v': Views, item: Item, kind: Kind, n: nat)
    requires n < 64
  {
    var k := item.index;
    && (forall i {:trigger PathChanged(v, v', k, i)} :: 0 <= i <= n ==> PathChanged(v, v', k, i))
    && k[..n + 1] in v'
    && v'[k[..n + 1]] == LeafView(item, kind)
    && (forall p {:trigger p in v'} :: p in v' && !Follows(k, n + 1, p) ==> p in v && v'[p] == v[p])
    && (forall p {:trigger p in v} :: p in v && !Follows(k, n, p) ==> p in v' && v'[p] == v[p])
  }

  function LeafView(item: Item, kind: Kind): View {
    View(Raw(item.index), LeafRecord(kind, kind == TxLeaf, EmptyMask(), item))
  }

  lemma InsertAtEmptyBranch(t: Tree, item: Item, kind: Kind, n: nat, p: Path)
    requires WFRoot(t) && CanInsert(t, 0, item.index) && n < 64 && InnerBefore(t, item.index, n + 1)
    requires At(t, item.index[..n + 1]) == Nil && |p| <= 64
    ensures At(Insert(t, 0, item, kind), item.index[..n + 1]) == NewLeaf(item, kind)
    ensures !Follows(item.index, n + 1, p) ==> At(Insert(t, 0, item, kind), p) == At(t, p)
  {
    var k := item.index;
    InsertAlongPath(t, item, kind, n + 1);
    var j := LeavesOrFollows(k, p);
    if j < |p| && j <= n {
      InsertElsewhere(t, item, kind, p, j, n + 1);
    } else if !Follows(k, n + 1, p) {
      assert p[..n + 1] == k[..n + 1] by {
        assert p[..j][..n + 1] == p[..n + 1] && k[..j][..n + 1] == k[..n + 1];
      }
      NothingBelow(t, p, n + 1);
      NothingBelow(Insert(t, 0, item, kind), p, n + 1);
    }
  }

  lemma LeafAddedByInsert(v: Views, t: Tree, v': Views, item: Item, kind: Kind, n: nat)
    requires Flattens(v, t) && CanInsert(t, 0, item.index) && kind != InnerNode
    requires Flattens(v', Insert(t, 0, item, kind)) && Coherent(v) && Coherent(v')
    requires n < 64 && InnerAt(v, item.index[..n]) && item.index[..n + 1] !in v
    ensures LeafAdded(v, v', item, kind, n)
  {
    var k := item.index;
    var t' := Insert(t, 0, item, kind);
    PathIsInner(v, t, k, n);
    InsertAtEmptyBranch(t, item, kind, n, []);
    forall i | 0 <= i <= n ensures PathChanged(v, v', k, i) {
      forall j | 0 <= j < n + 1 ensures Grafted(t, t', k, j) {
        InsertGrafts(t, item, kind, j);
      }
      GraftedIsPathChanged(v, t, v', t', k, i, n + 1);
    }
    forall p | p in v' && !Follows(k, n + 1, p) ensures p in v && v'[p] == v[p] {
      assert NodeOk(v', p);
      InsertAtEmptyBranch(t, item, kind, n, p);
    }
    forall p | p in v && !Follows(k, n, p) ensures p in v' && v'[p] == v[p] {
      assert NodeOk(v, p);
      assert p != k[..n + 1];
      InsertAtEmptyBranch(t, item, kind, n, p);
    }
  }

  lemma PathIsInner(v: Views, t: Tree, k: Key, n: nat)
    requires Flattens(v, t) && n < 64 && InnerAt(v, k[..n])
    ensures InnerBefore(t, k, n + 1)
  {
    forall j | 0 <= j < n + 1 ensures At(t, k[..j]).Inner? {
      assert At(t, k[..n]).Inner?;
      if j < n {
        ProperPrefixIsInner(t, k[..n], j);
        assert k[..n][..j] == k[..j];
      }
    }
  }

  // ---- adding where a leaf stands ----

  /** Keys a and b share their first n branches and no more. */
  predicate Fork(a: Key, b: Key, n: nat) {
    n < 64 && a[..n] == b[..n] && a[n] != b[n]
  }

  /** An inner node of the chain that starts at depth n: its one child is the next node on the path.
      Only the first node, the converted leaf, can carry a set flag. */
  ghost predicate ChainAt(v: Views, k: Key, n: nat, flag: bool, j: nat)
    requires j < 64
  {
    var mask, hashes := EmptyMask()[k[j] := true], NoHashes()[k[j] := HashAt(v, k[..j + 1])];
    && k[..j + 1] in v
    && k[..j] in v
    && v[k[..j]] == View(InnerDigest(n == j && flag, mask, hashes), InnerRecord(n == j && flag, mask, hashes))
  }

  /** The inner node where the two keys part. */
  function ForkView(flag: bool, a: Key, b: Key, n: nat): View
    requires n < 64
  {
    var mask, hashes := EmptyMask()[a[n] := true][b[n] := true], NoHashes()[a[n] := Raw(a)][b[n] := Raw(b)];
    View(InnerDigest(flag, mask, hashes), InnerRecord(flag, mask, hashes))
  }

  ghost predicate LeafSplit(v: Views, v': Views, item: Item, other: Item, kind: Kind, n: nat, d: nat) {
    var k, o := item.index, other.index;
    && n <= d && Fork(k, o, d)
    && LeafAt(v, k[..n])
    && (forall i {:trigger PathChanged(v, v', k, i)} :: 0 <= i < n ==> PathChanged(v, v', k, i))
    && (forall j {:trigger ChainAt(v', k, n, v[k[..n]].rec.flag, j)} ::
          n <= j < d ==> ChainAt(v', k, n, v[k[..n]].rec.flag, j))
    && k[..d] in v' && v'[k[..d]] == ForkView(n == d && v[k[..n]].rec.flag, k, o, d)
    && k[..d + 1] in v' && v'[k[..d + 1]] == LeafView(item, kind)
    && o[..d + 1] in v' && v'[o[..d + 1]] == LeafView(other, kind)
    && (forall p {:trigger p in v'} ::
          p in v' && !Follows(k, d + 1, p) && p != o[..d + 1] ==> p in v && v'[p] == v[p])
    && (forall p {:trigger p in v} :: p in v && !Follows(k, n, p) ==> p in v' && v'[p] == v[p])
  }

  /** While the keys agree, a split has one child, which is a split again. */
  lemma SplitGoesOn(flag: bool, kind: Kind, item: Item, other: Item, d: nat)
    requires d < 64 && item.index[..d + 1] == other.index[..d + 1] && item.index != other.index
    ensures item.index[..d] == other.index[..d] && item.index[d] == other.index[d]
    ensures Split(flag, kind, item, other, d) ==
            Inner(flag, NoKids()[item.index[d] := Split(false, kind, item, other, d + 1)])
  {
    assert item.index[..d + 1][d] == other.index[..d + 1][d];
    assert item.index[..d] == item.index[..d + 1][..d] && other.index[..d] == other.index[..d + 1][..d];
  }

  lemma SharedPrefix(a: Key, b: Key, d: nat, j: nat)
    requires Fork(a, b, d) && j <= d
    ensures a[..j] == b[..j]
  {
    assert a[..d][..j] == a[..j] && b[..d][..j] == b[..j];
  }

  lemma {:induction false} ChainOfInsert(t: Tree, item: Item, kind: Kind, n: nat, d: nat, j: nat)
    requires WFRoot(t) && CanInsert(t, 0, item.index) && n <= 64 && InnerBefore(t, item.index, n)
    requires At(t, item.index[..n]).Leaf? && n <= j <= d && Fork(item.index, At(t, item.index[..n]).item.index, d)
    ensures item.index[..j] == At(t, item.index[..n]).item.index[..j]
    ensures At(Insert(t, 0, item, kind), item.index[..j]) ==
              Split(n == j && At(t, item.index[..n]).flag, kind, item, At(t, item.index[..n]).item, j)
    decreases j
  {
    var k := item.index;
    var other := At(t, k[..n]).item;
    SharedPrefix(k, other.index, d, j);
    if j == n {
      InsertAlongPath(t, item, kind, n);
    } else {
      ChainOfInsert(t, item, kind, n, d, j - 1);
      SplitGoesOn(n == j - 1 && At(t, k[..n]).flag, kind, item, other, j - 1);
      KeyStep(k, j - 1);
      AtSnoc(Insert(t, 0, item, kind), k[..j - 1], k[j - 1]);
    }
  }

  lemma BlankViews(b: nat, kid: Tree)
    requires b < 16 && kid != Nil
    ensures MaskOf(NoKids()[b := kid]) == EmptyMask()[b := true]
    ensures Hashes(NoKids()[b := kid]) == NoHashes()[b := Hash(kid)]
  {
    KidsUpdateView(NoKids(), b, kid);
    BlankView();
  }

  lemma ForkOfInsert(t: Tree, item: Item, kind: Kind, n: nat, d: nat)
    requires WFRoot(t) && CanInsert(t, 0, item.index) && n <= 64 && InnerBefore(t, item.index, n)
    requires At(t, item.index[..n]).Leaf? && n <= d && Fork(item.index, At(t, item.index[..n]).item.index, d)
    ensures var t', o := Insert(t, 0, item, kind), At(t, item.index[..n]).item;
      && At(t', item.index[..d]) != Nil
      && ViewOf(At(t', item.index[..d])) == ForkView(n == d && At(t, item.index[..n]).flag, item.index, o.index, d)
      && At(t', item.index[..d + 1]) == NewLeaf(item, kind)
      && At(t', o.index[..d + 1]) == NewLeaf(o, kind)
      && forall c: Nibble :: c != item.index[d] && c != o.index[d] ==> !Live(t', item.index[..d] + [c])
  {
    var k := item.index;
    var other := At(t, k[..n]).item;
    var o := other.index;
    var t' := Insert(t, 0, item, kind);
    ChainOfInsert(t, item, kind, n, d, d);
    BlankViews(k[d], NewLeaf(item, kind));
    KidsUpdateView(NoKids()[k[d] := NewLeaf(item, kind)], o[d], NewLeaf(other, kind));
    KeyStep(k, d);
    KeyStep(o, d);
    forall c: Nibble ensures At(t', k[..d] + [c]) == Kid(At(t', k[..d]), c) {
      AtSnoc(t', k[..d], c);
    }
  }

  lemma SplitView(flag: bool, kind: Kind, item: Item, other: Item, d: nat)
    requires d < 64 && item.index[..d + 1] == other.index[..d + 1] && item.index != other.index
    ensures item.index[..d] == other.index[..d]
    ensures var mask := EmptyMask()[item.index[d] := true];
      var hashes := NoHashes()[item.index[d] := Hash(Split(false, kind, item, other, d + 1))];
      ViewOf(Split(flag, kind, item, other, d)) == View(InnerDigest(flag, mask, hashes), InnerRecord(flag, mask, hashes))
  {
    SplitGoesOn(flag, kind, item, other, d);
    BlankViews(item.index[d], Split(false, kind, item, other, d + 1));
  }

  lemma ChainInView(t: Tree, k: Key, n: nat, flag: bool, j: nat)
    requires j < 64 && At(t, k[..j]) != Nil && At(t, k[..j + 1]) != Nil
    requires var mask, hashes := EmptyMask()[k[j] := true], NoHashes()[k[j] := Hash(At(t, k[..j + 1]))];
      ViewOf(At(t, k[..j])) == View(InnerDigest(n == j && flag, mask, hashes), InnerRecord(n == j && flag, mask, hashes))
    ensures ChainAt(Flatten(t), k, n, flag, j)
  {
    assert Live(t, k[..j]) && Live(t, k[..j + 1]);
  }

  lemma ChainViewOfInsert(v: Views, t: Tree, item: Item, kind: Kind, n: nat, d: nat, j: nat)
    requires Flattens(v, t) && CanInsert(t, 0, item.index) && kind != InnerNode
    requires n <= 64 && InnerBefore(t, item.index, n)
    requires At(t, item.index[..n]).Leaf? && n <= j < d && Fork(item.index, At(t, item.index[..n]).item.index, d)
    ensures ChainAt(Flatten(Insert(t, 0, item, kind)), item.index, n, At(t, item.index[..n]).flag, j)
  {
    var k := item.index;
    var other := At(t, k[..n]).item;
    ChainOfInsert(t, item, kind, n, d, j);
    ChainOfInsert(t, item, kind, n, d, j + 1);
    SplitView(n == j && At(t, k[..n]).flag, kind, item, other, j);
    ChainInView(Insert(t, 0, item, kind), k, n, At(t, k[..n]).flag, j);
  }

  lemma ChainHasOneKid(t: Tree, item: Item, kind: Kind, n: nat, d: nat, j: nat, c: Nibble)
    requires WFRoot(t) && CanInsert(t, 0, item.index) && n <= 64 && InnerBefore(t, item.index, n)
    requires At(t, item.index[..n]).Leaf? && n <= j < d && Fork(item.index, At(t, item.index[..n]).item.index, d)
    requires c != item.index[j]
    ensures At(Insert(t, 0, item, kind), item.index[..j] + [c]) == Nil
  {
    var k, o := item.index, At(t, item.index[..n]).item.index;
    ChainOfInsert(t, item, kind, n, d, j);
    SharedPrefix(k, o, d, j + 1);
    SplitGoesOn(n == j && At(t, k[..n]).flag, kind, item, At(t, k[..n]).item, j);
    AtSnoc(Insert(t, 0, item, kind), k[..j], c);
  }

  /** Below the fork there is nothing but the two leaves. */
  lemma ForkHasNothingElse(t: Tree, item: Item, kind: Kind, n: nat, d: nat, p: Path)
    requires WFRoot(t) && CanInsert(t, 0, item.index) && n <= 64 && InnerBefore(t, item.index, n)
    requires At(t, item.index[..n]).Leaf? && n <= d < |p| <= 64
    requires Fork(item.index, At(t, item.index[..n]).item.index, d)
    requires p[..d + 1] == item.index[..d] + [p[d]] && p[d] != item.index[d]
    requires p != At(t, item.index[..n]).item.index[..d + 1]
    ensures At(Insert(t, 0, item, kind), p) == Nil
  {
    var o := At(t, item.index[..n]).item.index;
    var t' := Insert(t, 0, item, kind);
    assert p[..|p|] == p;
    ForkOfInsert(t, item, kind, n, d);
    if p[d] != o[d] {
      DeadBelow(t', p, d + 1);
    } else {
      KeyStep(o, d);
      NothingBelow(t', p, d + 1);
    }
  }

  /** Below the old leaf, only the two keys have positions. */
  lemma SplitHasNothingElse(t: Tree, item: Item, kind: Kind, n: nat, d: nat, p: Path, j: nat)
    requires WFRoot(t) && CanInsert(t, 0, item.index) && n <= 64 && InnerBefore(t, item.index, n)
    requires At(t, item.index[..n]).Leaf? && n <= j && j < |p| <= 64
    requires Fork(item.index, At(t, item.index[..n]).item.index, d) && j <= d
    requires p[..j] == item.index[..j] && p[j] != item.index[j] && p != At(t, item.index[..n]).item.index[..d + 1]
    ensures At(Insert(t, 0, item, kind), p) == Nil
  {
    assert p[..j + 1] == item.index[..j] + [p[j]];
    if j < d {
      ChainHasOneKid(t, item, kind, n, d, j, p[j]);
      DeadBelow(Insert(t, 0, item, kind), p, j + 1);
    } else {
      ForkHasNothingElse(t, item, kind, n, d, p);
    }
  }

  lemma SplitElsewhere(t: Tree, item: Item, kind: Kind, n: nat, d: nat, p: Path)
    requires WFRoot(t) && CanInsert(t, 0, item.index) && n <= 64 && InnerBefore(t, item.index, n)
    requires At(t, item.index[..n]).Leaf? && n <= d && Fork(item.index, At(t, item.index[..n]).item.index, d)
    requires |p| <= 64 && !Follows(item.index, d + 1, p) && p != At(t, item.index[..n]).item.index[..d + 1]
    ensures At(Insert(t, 0, item, kind), p) == At(t, p)
  {
    var k := item.index;
    var j := LeavesOrFollows(k, p);
    if j < n {
      InsertElsewhere(t, item, kind, p, j, n);
    } else {
      assert p[..j][..n] == p[..n] && k[..j][..n] == k[..n];
      NothingBelow(t, p, n);
      if j <= d {
        SplitHasNothingElse(t, item, kind, n, d, p, j);
      } else {
        NothingBelowNewLeaf(t, item, kind, n, d, p, j);
      }
    }
  }

  lemma NothingBelowNewLeaf(t: Tree, item: Item, kind: Kind, n: nat, d: nat, p: Path, j: nat)
    requires WFRoot(t) && CanInsert(t, 0, item.index) && n <= 64 && InnerBefore(t, item.index, n)
    requires At(t, item.index[..n]).Leaf? && n <= d && Fork(item.index, At(t, item.index[..n]).item.index, d)
    requires d < j <= |p| && j <= 64 && d + 1 < |p| && p[..j] == item.index[..j]
    ensures At(Insert(t, 0, item, kind), p) == Nil
  {
    assert p[..j][..d + 1] == p[..d + 1] && item.index[..j][..d + 1] == item.index[..d + 1];
    ForkOfInsert(t, item, kind, n, d);
    NothingBelow(Insert(t, 0, item, kind), p, d + 1);
  }

  lemma DeadBelow(t: Tree, p: Path, n: nat)
    requires n <= |p| && At(t, p[..n]) == Nil
    ensures At(t, p) == Nil
  {
    if n < |p| { NothingBelow(t, p, n); } else { assert p == p[..n]; }
  }

  lemma SplitPathChanged(v: Views, t: Tree, v': Views, item: Item, kind: Kind, n: nat, d: nat, i: nat)
    requires Flattens(v, t) && CanInsert(t, 0, item.index) && n <= 64 && InnerBefore(t, item.index, n)
    requires Flattens(v', Insert(t, 0, item, kind))
    requires At(t, item.index[..n]).Leaf? && n <= d && Fork(item.index, At(t, item.index[..n]).item.index, d)
    requires i < n
    ensures PathChanged(v, v', item.index, i)
  {
    var t' := Insert(t, 0, item, kind);
    LeafBecomesInner(t, item, kind, n, d);
    forall j | 0 <= j < n ensures Grafted(t, t', item.index, j) {
      InsertGrafts(t, item, kind, j);
    }
    GraftedIsPathChanged(v, t, v', t', item.index, i, n);
  }

  lemma SplitOthers(v: Views, t: Tree, v': Views, item: Item, kind: Kind, n: nat, d: nat)
    requires Flattens(v, t) && CanInsert(t, 0, item.index) && n <= 64 && InnerBefore(t, item.index, n)
    requires Flattens(v', Insert(t, 0, item, kind)) && Coherent(v) && Coherent(v')
    requires At(t, item.index[..n]).Leaf? && n <= d && Fork(item.index, At(t, item.index[..n]).item.index, d)
    ensures forall p {:trigger p in v'} ::
      p in v' && !Follows(item.index, d + 1, p) && p != At(t, item.index[..n]).item.index[..d + 1] ==>
        p in v && v'[p] == v[p]
    ensures forall p {:trigger p in v} :: p in v && !Follows(item.index, n, p) ==> p in v' && v'[p] == v[p]
  {
    var k, o := item.index, At(t, item.index[..n]).item.index;
    forall p | p in v' && !Follows(k, d + 1, p) && p != o[..d + 1] ensures p in v && v'[p] == v[p] {
      assert NodeOk(v', p);
      SplitElsewhere(t, item, kind, n, d, p);
    }
    forall p | p in v && !Follows(k, n, p) ensures p in v' && v'[p] == v[p] {
      assert NodeOk(v, p);
      LiveIsNotBelow(t, k, n, d, p);
      SplitElsewhere(t, item, kind, n, d, p);
    }
  }

  lemma InnerBeforeLeaf(t: Tree, k: Key, n: nat)
    requires n <= 64 && Live(t, k[..n])
    ensures InnerBefore(t, k, n)
  {
    forall j | 0 <= j < n ensures At(t, k[..j]).Inner? {
      ProperPrefixIsInner(t, k[..n], j);
      assert k[..n][..j] == k[..j];
    }
  }

  lemma SplitForkView(v: Views, t: Tree, v': Views, item: Item, kind: Kind, n: nat, d: nat)
    requires Flattens(v, t) && CanInsert(t, 0, item.index) && n <= 64 && InnerBefore(t, item.index, n)
    requires Flattens(v', Insert(t, 0, item, kind))
    requires LeafAt(v, item.index[..n]) && n <= d && Fork(item.index, v[item.index[..n]].rec.item.index, d)
    ensures var k, w := item.index, v[item.index[..n]].rec;
      && k[..d] in v' && v'[k[..d]] == ForkView(n == d && w.flag, k, w.item.index, d)
      && k[..d + 1] in v' && v'[k[..d + 1]] == LeafView(item, kind)
      && w.item.index[..d + 1] in v' && v'[w.item.index[..d + 1]] == LeafView(w.item, kind)
  {
    assert At(t, item.index[..n]).Leaf?;
    ForkOfInsert(t, item, kind, n, d);
  }

  lemma LeafSplitByInsert(v: Views, t: Tree, v': Views, item: Item, kind: Kind, n: nat, d: nat)
    requires Flattens(v, t) && CanInsert(t, 0, item.index) && kind != InnerNode
    requires v' == Flatten(Insert(t, 0, item, kind)) && Flattens(v', Insert(t, 0, item, kind))
    requires Coherent(v) && Coherent(v')
    requires n <= 64 && LeafAt(v, item.index[..n])
    requires n <= d && Fork(item.index, v[item.index[..n]].rec.item.index, d)
    ensures LeafSplit(v, v', item, v[item.index[..n]].rec.item, kind, n, d)
  {
    var k := item.index;
    assert At(t, k[..n]).Leaf?;
    InnerBeforeLeaf(t, k, n);
    SplitForkView(v, t, v', item, kind, n, d);
    forall i | 0 <= i < n ensures PathChanged(v, v', k, i) {
      SplitPathChanged(v, t, v', item, kind, n, d, i);
    }
    var flag := v[k[..n]].rec.flag;
    forall j | n <= j < d ensures ChainAt(v', k, n, flag, j) {
      ChainViewOfInsert(v, t, item, kind, n, d, j);
    }
    SplitOthers(v, t, v', item, kind, n, d);
  }

  lemma LiveIsNotBelow(t: Tree, k: Key, n: nat, d: nat, p: Path)
    requires n <= 64 && At(t, k[..n]).Leaf? && n <= d && Fork(k, At(t, k[..n]).item.index, d)
    requires Live(t, p) && !Follows(k, n, p)
    ensures !Follows(k, d + 1, p) && p != At(t, k[..n]).item.index[..d + 1]
  {
    var o := At(t, k[..n]).item.index;
    if n < |p| && p[..n] == k[..n] { NothingBelow(t, p, n); }
    assert o[..d][..n] == o[..n] && k[..d][..n] == k[..n] && o[..d + 1][..n] == o[..n];
    assert |p| <= 64 && n < |p| ==> k[..|p|][..n] == k[..n];
  }

  lemma LeafBecomesInner(t: Tree, item: Item, kind: Kind, n: nat, d: nat)
    requires WFRoot(t) && CanInsert(t, 0, item.index) && n <= 64 && InnerBefore(t, item.index, n)
    requires At(t, item.index[..n]).Leaf? && n <= d && Fork(item.index, At(t, item.index[..n]).item.index, d)
    ensures ChangedAt(t, Insert(t, 0, item, kind), item.index, n)
  {
    PathInvariant(t, item.index[..n]);
    ChainOfInsert(t, item, kind, n, d, n);
  }

  /** How far the new key and the key of the leaf on its path agree. */
  lemma SplitDepth(v: Views, t: Tree, item: Item, n: nat) returns (d: nat)
    requires Flattens(v, t) && Coherent(v) && n <= 64 && LeafAt(v, item.index[..n])
    requires !HasKey(Items(t), item.index)
    ensures n <= d && Fork(item.index, v[item.index[..n]].rec.item.index, d)
  {
    var k, o := item.index, v[item.index[..n]].rec.item.index;
    assert NodeOk(v, k[..n]);
    PathInvariant(t, k[..n]);
    assert At(t, k[..n]).item in Items(At(t, k[..n]));
    d := LeavesOrFollows(k, o);
    assert k == k[..64] && o == o[..64];
    assert forall j :: 0 <= j < n ==> k[..n][j] == k[j] && o[..n][j] == o[j];
  }

  ghost predicate ItemAdded(v: Views, v': Views, item: Item, kind: Kind, n: nat) {
    && n <= 64
    && if LeafAt(v, item.index[..n]) then
         exists d :: LeafSplit(v, v', item, v[item.index[..n]].rec.item, kind, n, d)
       else
         && n < 64
         && InnerAt(v, item.index[..n])
         && item.index[..n + 1] !in v
         && LeafAdded(v, v', item, kind, n)
  }

  /** Adding to the tree value, seen node by node from where the walk along the key ended. */
  lemma ItemAddedByInsert(v: Views, t: Tree, item: Item, kind: Kind, n: nat) returns (t': Tree, v': Views)
    requires Flattens(v, t) && Coherent(v) && kind != InnerNode && item.index !in Contents(t)
    requires n <= 64 && (LeafAt(v, item.index[..n]) || (n < 64 && InnerAt(v, item.index[..n]) && item.index[..n + 1] !in v))
    ensures CanInsert(t, 0, item.index) && t' == Insert(t, 0, item, kind)
    ensures Contents(t') == Contents(t)[item.index := item.data]
    ensures Flattens(v', t') && Coherent(v') && ItemAdded(v, v', item, kind, n)
  {
    InsertIsMapUpdate(t, item, kind);
    t' := Insert(t, 0, item, kind);
    v' := Flatten(t');
    FlattenFlattens(t');
    FlattenedIsCoherent(v', t');
    if LeafAt(v, item.index[..n]) {
      var d := SplitDepth(v, t, item, n);
      LeafSplitByInsert(v, t, v', item, kind, n, d);
    } else {
      LeafAddedByInsert(v, t, v', item, kind, n);
    }
  }

  // ---- updating ----

  /** Updating a leaf: same positions, the leaf holds the item and its content digest, the path above changes. */
  ghost predicate LeafUpdated(v: Views, v': Views, item: Item, n: nat) {
    var k := item.index;
    && n <= 64
    && LeafAt(v, k[..n])
    && (forall i {:trigger PathChanged(v, v', k, i)} :: 0 <= i < n ==> PathChanged(v, v', k, i))
    && k[..n] in v'
    && v'[k[..n]] == UpdatedView(v[k[..n]].rec.flag, item)
    && (forall p {:trigger p in v'} :: p in v' ==> p in v && (!Follows(k, n, p) ==> v'[p] == v[p]))
    && (forall p {:trigger p in v} :: p in v ==> p in v')
  }

  function UpdatedView(flag: bool, item: Item): View {
    View(AcLeafDigest(flag, EmptyMask(), item.data, item.index), LeafRecord(AcLeaf, flag, EmptyMask(), item))
  }

  lemma UpdateGrafts(t: Tree, item: Item, i: nat)
    requires WFRoot(t) && HasKey(Items(t), item.index) && i < 64 && InnerBefore(t, item.index, i + 1)
    ensures Grafted(t, Update(t, 0, item), item.index, i)
  {
    var k := item.index;
    UpdateAlongPath(t, item, i);
    UpdateAlongPath(t, item, i + 1);
    KeyStep(k, i);
    AtSnoc(t, k[..i], k[i]);
    PathInvariant(t, k[..i]);
  }

  lemma UpdateElsewhere(t: Tree, item: Item, n: nat, p: Path)
    requires WFRoot(t) && HasKey(Items(t), item.index) && n <= 64 && InnerBefore(t, item.index, n)
    requires At(t, item.index[..n]).Leaf? && |p| <= 64 && !Follows(item.index, n, p)
    ensures At(Update(t, 0, item), p) == At(t, p)
  {
    var k := item.index;
    UpdateAlongPath(t, item, n);
    var j := LeavesOrFollows(k, p);
    if j < n {
      UpdateOffPath(t, item, p, j);
    } else {
      assert p[..j][..n] == p[..n] && k[..j][..n] == k[..n];
      NothingBelow(t, p, n);
      NothingBelow(Update(t, 0, item), p, n);
    }
  }

  lemma LeafUpdatedByUpdate(v: Views, t: Tree, v': Views, item: Item, n: nat)
    requires Flattens(v, t) && HasKey(Items(t), item.index) && Flattens(v', Update(t, 0, item))
    requires Coherent(v) && Coherent(v')
    requires n <= 64 && LeafAt(v, item.index[..n])
    requires v[item.index[..n]].hash != UpdatedView(v[item.index[..n]].rec.flag, item).hash
    ensures LeafUpdated(v, v', item, n)
  {
    var k := item.index;
    var t' := Update(t, 0, item);
    assert At(t, k[..n]).Leaf?;
    InnerBeforeLeaf(t, k, n);
    UpdateAlongPath(t, item, n);
    forall i | 0 <= i < n ensures PathChanged(v, v', k, i) {
      forall j | 0 <= j < n ensures Grafted(t, t', k, j) {
        UpdateGrafts(t, item, j);
      }
      GraftedIsPathChanged(v, t, v', t', k, i, n);
    }
    forall p | p in v' || p in v ensures (p in v <==> p in v') && (!Follows(k, n, p) ==> v'[p] == v[p]) {
      assert (p in v ==> NodeOk(v, p)) && (p in v' ==> NodeOk(v', p));
      UpdatedPosition(v, t, v', item, n, p);
    }
  }

  lemma UpdatedPosition(v: Views, t: Tree, v': Views, item: Item, n: nat, p: Path)
    requires Flattens(v, t) && HasKey(Items(t), item.index) && Flattens(v', Update(t, 0, item))
    requires n <= 64 && InnerBefore(t, item.index, n) && At(t, item.index[..n]).Leaf? && |p| <= 64
    ensures p in v <==> p in v'
    ensures p in v && !Follows(item.index, n, p) ==> v'[p] == v[p]
  {
    if Follows(item.index, n, p) {
      UpdateAlongPath(t, item, |p|);
    } else {
      UpdateElsewhere(t, item, n, p);
    }
  }

  /** Updating a leaf with what it already holds, hash included, changes nothing. */
  lemma {:induction false} UpdateUnchanged(t: Tree, d: nat, item: Item)
    requires WF(t, d) && HasKey(Items(t), item.index) && d <= 64
    requires LeafOf(t, d, item.index).Leaf?
    requires LeafOf(t, d, item.index).hash == UpdatedView(LeafOf(t, d, item.index).flag, item).hash
    ensures Update(t, d, item) == t && item in Items(t)
    decreases t
  {
    if t.Inner? {
      var b := item.index[d];
      var it :| it in Items(t) && it.index == item.index;
      assert it in Items(t.kids[b]);
      UpdateUnchanged(t.kids[b], d + 1, item);
      assert t.kids[b := t.kids[b]] == t.kids;
    }
  }

  function LeafOf(t: Tree, d: nat, k: Key): Tree
    decreases t
  {
    if t.Inner? && d < 64 && |t.kids| == 16 then LeafOf(t.kids[k[d]], d + 1, k) else t
  }

  lemma {:induction false} LeafOfPath(t: Tree, k: Key, n: nat)
    requires WFRoot(t) && n <= 64 && InnerBefore(t, k, n)
    ensures LeafOf(t, 0, k) == LeafOf(At(t, k[..n]), n, k)
    ensures Find(t, 0, k) == Find(At(t, k[..n]), n, k)
  {
    if n == 0 {
      assert k[..0] == [];
    } else {
      LeafOfPath(t, k, n - 1);
      KeyStep(k, n - 1);
      AtSnoc(t, k[..n - 1], k[n - 1]);
      PathInvariant(t, k[..n - 1]);
      assert At(t, k[..n - 1]).Inner?;
    }
  }

  /** Lookup, read off where the walk along the key ends. */
  lemma FindFromView(v: Views, t: Tree, k: Key, n: nat)
    requires Flattens(v, t) && n <= 64
    requires LeafAt(v, k[..n]) || (n < 64 && InnerAt(v, k[..n]) && k[..n + 1] !in v)
    ensures Find(t, 0, k) ==
      if LeafAt(v, k[..n]) && v[k[..n]].rec.item.index == k then Some(v[k[..n]].rec.item.data) else None
    ensures LeafAt(v, k[..n]) ==> LeafOf(t, 0, k) == At(t, k[..n]) && At(t, k[..n]).Leaf?
  {
    assert Live(t, k[..n]);
    InnerBeforeLeaf(t, k, n);
    LeafOfPath(t, k, n);
    if InnerAt(v, k[..n]) {
      KeyStep(k, n);
      AtSnoc(t, k[..n], k[n]);
      PathInvariant(t, k[..n]);
      assert At(t, k[..n + 1]) == Nil;
    }
  }

  /** If the hash stays the same, the leaf already held this item and the whole tree stays the same. */
  lemma SameHashSameTree(v: Views, t: Tree, item: Item, n: nat)
    requires Flattens(v, t) && n <= 64 && LeafAt(v, item.index[..n])
    requires HasKey(Items(t), item.index)
    requires v[item.index[..n]].hash == UpdatedView(v[item.index[..n]].rec.flag, item).hash
    ensures v[item.index[..n]].rec == UpdatedView(v[item.index[..n]].rec.flag, item).rec
    ensures Update(t, 0, item) == t
  {
    FindFromView(v, t, item.index, n);
    PathInvariant(t, item.index[..n]);
    UpdateUnchanged(t, 0, item);
  }

  /** Updating the tree value, seen node by node. */
  lemma ItemUpdatedByUpdate(v: Views, t: Tree, item: Item, n: nat) returns (t': Tree, v': Views)
    requires Flattens(v, t) && Coherent(v) && item.index in Contents(t)
    requires n <= 64 && LeafAt(v, item.index[..n])
    ensures HasKey(Items(t), item.index) && t' == Update(t, 0, item)
    ensures Contents(t') == Contents(t)[item.index := item.data]
    ensures Flattens(v', t') && Coherent(v')
    ensures v[item.index[..n]].hash != UpdatedView(v[item.index[..n]].rec.flag, item).hash ==>
      LeafUpdated(v, v', item, n) && t' != t
    ensures v[item.index[..n]].hash == UpdatedView(v[item.index[..n]].rec.flag, item).hash ==>
      v[item.index[..n]].rec == UpdatedView(v[item.index[..n]].rec.flag, item).rec && t' == t
  {
    UpdateIsMapUpdate(t, item);
    t' := Update(t, 0, item);
    v' := Flatten(t');
    FlattenFlattens(t');
    FlattenedIsCoherent(v', t');
    if v[item.index[..n]].hash == UpdatedView(v[item.index[..n]].rec.flag, item).hash {
      SameHashSameTree(v, t, item, n);
    } else {
      LeafUpdatedByUpdate(v, t, v', item, n);
    }
  }
}

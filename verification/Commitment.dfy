/** What the root hash of an account tree commits to, exactly. */
module Commitment {
  import opened Types
  import opened Shape
  import opened ShapeOps
  import opened ShapeHash
  import opened Canonical

  /** An account tree: no flag is set and every leaf is an account leaf. */
  ghost predicate Accounts(t: Tree) {
    match t
    case Nil => true
    case Leaf(kind, flag, _, _) => kind == AcLeaf && !flag
    case Inner(flag, _) => !flag && forall b :: 0 <= b < |t.kids| ==> Accounts(t.kids[b])
  }

  lemma PlainIsAccounts(t: Tree)
    requires Plain(t)
    ensures Accounts(t) && Settled(t) == {}
  {
  }

  lemma {:induction false} InsertKeepsAccounts(t: Tree, d: nat, item: Item)
    requires CanInsert(t, d, item.index) && Accounts(t)
    ensures Accounts(Insert(t, d, item, AcLeaf))
    decreases t
  {
    match t
    case Nil =>
    case Leaf(_, _, other, _) =>
      assert other in Items(t);
      SplitIsPlain(item, other, d);
      PlainIsAccounts(Split(false, AcLeaf, item, other, d));
    case Inner(_, kids) =>
      KidCanInsert(t, d, item.index);
      InsertKeepsAccounts(kids[item.index[d]], d + 1, item);
  }

  lemma {:induction false} SettledIsStored(t: Tree)
    ensures Settled(t) <= Items(t)
  {
    if t.Inner? {
      forall it | it in Settled(t) ensures it in Items(t) {
        var b :| 0 <= b < |t.kids| && it in Settled(t.kids[b]);
        SettledIsStored(t.kids[b]);
      }
    }
  }

  // ---- what each operation does to the committed data ----

  lemma SettledOfKids(t: Tree, b: nat, kid: Tree)
    requires t.Inner? && b < |t.kids|
    ensures forall it :: it in Settled(Inner(t.flag, t.kids[b := kid])) <==>
      it in Settled(kid) || exists c :: 0 <= c < |t.kids| && c != b && it in Settled(t.kids[c])
  {
    var t' := Inner(t.flag, t.kids[b := kid]);
    forall it | it in Settled(kid) ensures it in Settled(t') {
      assert it in Settled(t'.kids[b]);
    }
    forall it, c | 0 <= c < |t.kids| && c != b && it in Settled(t.kids[c]) ensures it in Settled(t') {
      assert it in Settled(t'.kids[c]);
    }
  }

  /** An item of one branch is not committed below another. */
  lemma SettledElsewhere(t: Tree, d: nat, b: nat, c: nat, it: Item)
    requires t.Inner? && WF(t, d) && b < 16 && c < 16 && b != c && it in Settled(t.kids[c])
    ensures it.index[d] == c && it !in Items(t.kids[b])
  {
    SettledIsStored(t.kids[c]);
    assert Routed(t.kids[b], d, b) && Routed(t.kids[c], d, c);
  }

  /** The committed items of a node after one child lost some of them and gained others. */
  lemma SettledAfterKid(t: Tree, d: nat, b: nat, kid: Tree, less: set<Item>, more: set<Item>)
    requires t.Inner? && WF(t, d) && b < 16 && less <= Items(t.kids[b])
    requires Settled(kid) == Settled(t.kids[b]) - less + more
    ensures Settled(Inner(t.flag, t.kids[b := kid])) == Settled(t) - less + more
  {
    var t' := Inner(t.flag, t.kids[b := kid]);
    SettledOfKids(t, b, kid);
    forall it | it in Settled(t) - less + more ensures it in Settled(t') {
      if it in more {
        assert it in Settled(kid);
      } else {
        var c :| 0 <= c < 16 && it in Settled(t.kids[c]);
        assert c == b ==> it in Settled(kid);
        assert t'.kids[c] == if c == b then kid else t.kids[c];
      }
    }
    forall it | it in Settled(t') ensures it in Settled(t) - less + more {
      if it !in Settled(kid) {
        var c :| 0 <= c < 16 && c != b && it in Settled(t.kids[c]);
        SettledElsewhere(t, d, b, c, it);
      }
    }
  }

  /** An update commits the root to its item in place of the one before, and changes nothing else. */
  lemma {:induction false} UpdateSettles(t: Tree, d: nat, was: Item, item: Item)
    requires WF(t, d) && Accounts(t) && was in Items(t) && was.index == item.index
    ensures Accounts(Update(t, d, item))
    ensures Settled(Update(t, d, item)) == Settled(t) - {was} + {item}
    decreases t
  {
    if t.Inner? {
      var b := item.index[d];
      ItemIsBelowItsBranch(t, d, was);
      UpdateSettles(t.kids[b], d + 1, was, item);
      SettledAfterKid(t, d, b, Update(t.kids[b], d + 1, item), {was}, {item});
    }
  }

  /** The leaf at which the walk for a key ends, if it ends at one. */
  ghost function Met(t: Tree, d: nat, k: Key): set<Item>
    requires WF(t, d)
    decreases t
  {
    match t
    case Nil => {}
    case Leaf(_, _, item, _) => {item}
    case Inner(_, kids) => Met(kids[k[d]], d + 1, k)
  }

  lemma {:induction false} MetIsStored(t: Tree, d: nat, k: Key)
    requires WF(t, d)
    ensures Met(t, d, k) <= Items(t)
    decreases t
  {
    if t.Inner? {
      MetIsStored(t.kids[k[d]], d + 1, k);
    }
  }

  /** An addition commits the root to nothing new, and un-commits the leaf it meets, which is split. */
  lemma {:induction false} InsertUnsettles(t: Tree, d: nat, item: Item)
    requires CanInsert(t, d, item.index) && Accounts(t)
    ensures Settled(Insert(t, d, item, AcLeaf)) == Settled(t) - Met(t, d, item.index)
    decreases t
  {
    match t
    case Nil =>
    case Leaf(_, _, other, _) =>
      assert other in Items(t);
      SplitIsPlain(item, other, d);
      PlainIsAccounts(Split(false, AcLeaf, item, other, d));
    case Inner(_, kids) =>
      var b := item.index[d];
      KidCanInsert(t, d, item.index);
      InsertUnsettles(kids[b], d + 1, item);
      MetIsStored(kids[b], d + 1, item.index);
      SettledAfterKid(t, d, b, Insert(kids[b], d + 1, item, AcLeaf), Met(kids[b], d + 1, item.index), {});
  }

  /** o is the only key that agrees with k on its first n branches. */
  ghost predicate OnlyCompanion(keys: set<Key>, k: Key, o: Key, n: nat) {
    n <= 64 && o[..n] == k[..n] && forall q :: q in keys && q[..n] == k[..n] ==> q == o
  }

  /** Told from the keys alone: adding k to a tree with these keys meets the leaf of o. */
  ghost predicate Meets(keys: set<Key>, k: Key, o: Key) {
    o in keys && exists n :: 1 <= n && OnlyCompanion(keys, k, o, n)
  }

  lemma CompanionBelow(t: Tree, d: nat, k: Key, it: Item, n: nat)
    requires t.Inner? && WF(t, d) && d < n
    ensures it in Items(t) && OnlyCompanion(Keys(t), k, it.index, n) <==>
      it in Items(t.kids[k[d]]) && OnlyCompanion(Keys(t.kids[k[d]]), k, it.index, n)
  {
    var kid := t.kids[k[d]];
    KeysOfKid(t, d, k[d]);
    if n <= 64 {
      assert forall q: Key :: q[..n] == k[..n] ==> q[..n][d] == k[..n][d] && q[d] == k[d];
      if it in Items(t) && it.index[..n] == k[..n] {
        ItemIsBelowItsBranch(t, d, it);
      }
      if it in Items(kid) {
        assert it in Items(t);
      }
    }
  }

  /** Below an inner node that is not the root no key is alone. */
  lemma NeverAlone(t: Tree, d: nat, k: Key, o: Key)
    requires t.Inner? && d > 0 && CanInsert(t, d, k)
    ensures !OnlyCompanion(Keys(t), k, o, d)
  {
    var x, y :| x in Items(t) && y in Items(t) && x.index != y.index;
    assert x.index in Keys(t) && y.index in Keys(t);
    assert x.index[..d] == k[..d] && y.index[..d] == k[..d];
  }

  lemma {:induction false} MetByKeys(t: Tree, d: nat, k: Key, it: Item)
    requires CanInsert(t, d, k) && (d > 0 || t.Inner?)
    ensures it in Met(t, d, k) <==>
      it in Items(t) && exists n :: 1 <= n && d <= n && OnlyCompanion(Keys(t), k, it.index, n)
    decreases t
  {
    match t
    case Nil =>
    case Leaf(_, _, item, _) =>
      assert item in Items(t);
      assert OnlyCompanion(Keys(t), k, item.index, d);
    case Inner(_, kids) =>
      var b := k[d];
      KidCanInsert(t, d, k);
      MetByKeys(kids[b], d + 1, k, it);
      KeysOfKid(t, d, b);
      forall n | d < n ensures it in Items(t) && OnlyCompanion(Keys(t), k, it.index, n) <==>
        it in Items(kids[b]) && OnlyCompanion(Keys(kids[b]), k, it.index, n)
      {
        CompanionBelow(t, d, k, it, n);
      }
      if d > 0 {
        NeverAlone(t, d, k, it.index);
      }
  }
  lemma SettledOfKid(t: Tree, u: Tree, d: nat, b: nat)
    requires WF(t, d) && WF(u, d) && t.Inner? && u.Inner? && Settled(t) == Settled(u) && b < 16
    ensures Settled(t.kids[b]) <= Settled(u.kids[b])
  {
    forall it | it in Settled(t.kids[b]) ensures it in Settled(u.kids[b]) {
      assert it in Settled(t);
      SettledIsStored(t.kids[b]);
      var c :| 0 <= c < 16 && it in Settled(u.kids[c]);
      SettledIsStored(u.kids[c]);
      assert Routed(t.kids[b], d, b) && Routed(u.kids[c], d, c);
    }
  }

  lemma SameSettledBelow(t: Tree, u: Tree, d: nat, b: nat)
    requires WF(t, d) && WF(u, d) && t.Inner? && u.Inner? && b < 16
    requires Keys(t) == Keys(u) && Settled(t) == Settled(u)
    ensures Keys(t.kids[b]) == Keys(u.kids[b]) && Settled(t.kids[b]) == Settled(u.kids[b])
    ensures t.kids[b].Nil? == u.kids[b].Nil?
  {
    KeysOfKid(t, d, b);
    KeysOfKid(u, d, b);
    SettledOfKid(t, u, d, b);
    SettledOfKid(u, t, d, b);
    SameKeysSameKind(t.kids[b], u.kids[b], d + 1);
  }

  lemma {:induction false} SameSettledSameHash(t: Tree, u: Tree, d: nat)
    requires WF(t, d) && WF(u, d) && Accounts(t) && Accounts(u) && (d > 0 || (t.Inner? && u.Inner?))
    requires Keys(t) == Keys(u) && Settled(t) == Settled(u)
    ensures Hash(t) == Hash(u)
    decreases t
  {
    SameKeysSameKind(t, u, d);
    if t.Leaf? {
      assert t.item.index in Keys(t) && u.item.index in Keys(u);
      assert t.item in Settled(t) || t.hash == Raw(t.item.index);
    } else if t.Inner? {
      forall b | 0 <= b < 16 ensures Hash(t.kids[b]) == Hash(u.kids[b]) && (t.kids[b].Nil? <==> u.kids[b].Nil?) {
        SameSettledBelow(t, u, d, b);
        SameSettledSameHash(t.kids[b], u.kids[b], d + 1);
      }
      assert MaskOf(t.kids) == MaskOf(u.kids) && Hashes(t.kids) == Hashes(u.kids);
    }
  }

  /** Account trees have the same root hash if and only if they have the same keys and committed data. */
  lemma SameRootIffSameSettled(t: Tree, u: Tree)
    requires WFRoot(t) && WFRoot(u) && Accounts(t) && Accounts(u)
    ensures Hash(t) == Hash(u) <==> Keys(t) == Keys(u) && Settled(t) == Settled(u)
  {
    if Hash(t) == Hash(u) {
      HashCommits(t, 0, u, 0);
    }
    if Keys(t) == Keys(u) && Settled(t) == Settled(u) {
      SameSettledSameHash(t, u, 0);
    }
  }

  // ---- runs ----

  datatype Write = Added(item: Item) | Updated(item: Item)

  /** The keys added so far. */
  ghost function KeysOf(run: seq<Write>): set<Key> {
    set i | 0 <= i < |run| && run[i].Added? :: run[i].item.index
  }

  /** Every addition is of a new key and every update of a present one. */
  ghost predicate LegalRun(run: seq<Write>) {
    forall i {:trigger run[i]} :: 0 <= i < |run| ==> (run[i].Added? <==> run[i].item.index !in KeysOf(run[..i]))
  }

  /** What the root hash commits to, told from the run alone: an update commits its data until the next update of
      that key, or until an addition meets its leaf. */
  ghost function Committed(run: seq<Write>): set<Item> {
    if run == [] then {} else
      var before, item := run[..|run| - 1], run[|run| - 1].item;
      if run[|run| - 1].Added? then set it | it in Committed(before) && !Meets(KeysOf(before), item.index, it.index)
      else (set it | it in Committed(before) && it.index != item.index) + {item}
  }

  lemma LegalPrefix(run: seq<Write>)
    requires LegalRun(run) && run != []
    ensures var n := |run| - 1;
      LegalRun(run[..n]) && (run[n].Added? <==> run[n].item.index !in KeysOf(run[..n]))
      && KeysOf(run) == KeysOf(run[..n]) + {run[n].item.index}
  {
    var n := |run| - 1;
    var before := run[..n];
    forall i | 0 <= i < n ensures before[i].Added? <==> before[i].item.index !in KeysOf(before[..i]) {
      assert before[..i] == run[..i] && before[i] == run[i];
    }
    forall k | k in KeysOf(before) ensures k in KeysOf(run) {
      var i :| 0 <= i < n && before[i].Added? && before[i].item.index == k;
      assert run[i] == before[i];
    }
    forall k | k in KeysOf(run) ensures k in KeysOf(before) + {run[n].item.index} {
      var i :| 0 <= i < |run| && run[i].Added? && run[i].item.index == k;
      assert i < n ==> before[i] == run[i];
    }
  }

  /** The account tree after a run, from an empty one. */
  ghost function Grown(run: seq<Write>): (t: Tree)
    requires LegalRun(run)
    ensures WFRoot(t) && Accounts(t) && Keys(t) == KeysOf(run)
  {
    if run == [] then
      EmptyRootIsWellFormed(false);
      EmptyRoot(false)
    else
      LegalPrefix(run);
      var t, item := Grown(run[..|run| - 1]), run[|run| - 1].item;
      if run[|run| - 1].Added? then GrowsByAdding(t, item); Insert(t, 0, item, AcLeaf)
      else GrowsByUpdating(t, item); Update(t, 0, item)
  }

  lemma GrowsByAdding(t: Tree, item: Item)
    requires WFRoot(t) && Accounts(t) && item.index !in Keys(t)
    ensures CanInsert(t, 0, item.index)
    ensures var t' := Insert(t, 0, item, AcLeaf); WFRoot(t') && Accounts(t') && Keys(t') == Keys(t) + {item.index}
  {
    assert !HasKey(Items(t), item.index);
    InsertAddsItem(t, 0, item, AcLeaf);
    InsertKeepsAccounts(t, 0, item);
  }

  lemma GrowsByUpdating(t: Tree, item: Item)
    requires WFRoot(t) && Accounts(t) && item.index in Keys(t)
    ensures HasKey(Items(t), item.index)
    ensures var t' := Update(t, 0, item); WFRoot(t') && Accounts(t') && Keys(t') == Keys(t)
  {
    var was :| was in Items(t) && was.index == item.index;
    UpdateReplacesItem(t, 0, was, item);
    UpdateSettles(t, 0, was, item);
    var t' := Update(t, 0, item);
    assert item in Items(t');
    forall k | k in Keys(t) ensures k in Keys(t') {
      var it :| it in Items(t) && it.index == k;
      assert it == was || it in Items(t');
    }
  }

  lemma AddingUncommits(t: Tree, item: Item)
    requires WFRoot(t) && Accounts(t) && item.index !in Keys(t) && CanInsert(t, 0, item.index)
    ensures Settled(Insert(t, 0, item, AcLeaf)) == set it | it in Settled(t) && !Meets(Keys(t), item.index, it.index)
  {
    InsertUnsettles(t, 0, item);
    SettledIsStored(t);
    forall it | it in Settled(t) ensures it in Met(t, 0, item.index) <==> Meets(Keys(t), item.index, it.index) {
      MetByKeys(t, 0, item.index, it);
      assert it.index in Keys(t);
    }
  }

  lemma UpdatingCommits(t: Tree, item: Item)
    requires WFRoot(t) && Accounts(t) && HasKey(Items(t), item.index)
    ensures Settled(Update(t, 0, item)) == (set it | it in Settled(t) && it.index != item.index) + {item}
  {
    var was :| was in Items(t) && was.index == item.index;
    UpdateSettles(t, 0, was, item);
    KeysAreUnique(t, 0);
    SettledIsStored(t);
  }

  /** The committed data of a grown tree is that told from the run. */
  lemma {:induction false} CommittedFromRun(run: seq<Write>)
    requires LegalRun(run)
    ensures Settled(Grown(run)) == Committed(run)
    decreases |run|
  {
    if run == [] {
      PlainIsAccounts(EmptyRoot(false));
    } else {
      var before, item := run[..|run| - 1], run[|run| - 1].item;
      LegalPrefix(run);
      CommittedFromRun(before);
      if run[|run| - 1].Added? {
        GrowsByAdding(Grown(before), item);
        AddingUncommits(Grown(before), item);
      } else {
        GrowsByUpdating(Grown(before), item);
        UpdatingCommits(Grown(before), item);
      }
    }
  }

  /** Two runs lead to the same root hash if and only if they added the same keys and commit to the same data. */
  lemma RootCommitsExactly(a: seq<Write>, b: seq<Write>)
    requires LegalRun(a) && LegalRun(b)
    ensures Hash(Grown(a)) == Hash(Grown(b)) <==> KeysOf(a) == KeysOf(b) && Committed(a) == Committed(b)
  {
    CommittedFromRun(a);
    CommittedFromRun(b);
    SameRootIffSameSettled(Grown(a), Grown(b));
  }

  /** So the data of an account that was only added is not part of the root hash. */
  lemma AddedDataIsNotCommitted(a: seq<Item>, b: seq<Item>)
    requires DistinctKeys(a) && DistinctKeys(b)
    requires (set it | it in a :: it.index) == (set it | it in b :: it.index)
    ensures Hash(Build(a, AcLeaf, false)) == Hash(Build(b, AcLeaf, false))
  {
    var t, u := Build(a, AcLeaf, false), Build(b, AcLeaf, false);
    BuildIsPlain(a);
    BuildIsPlain(b);
    PlainIsAccounts(t);
    PlainIsAccounts(u);
    assert Keys(t) == (set it | it in a :: it.index) && Keys(u) == (set it | it in b :: it.index);
    SameRootIffSameSettled(t, u);
  }

  /** And an addition next to an updated account takes that account's data out of the root hash again. */
  lemma NeighbourUncommits(o: Key, k: Key, first: Payload, second: Payload, other: Payload)
    requires o != k && o[0] == k[0]
    ensures var a := [Added(Item(o, first)), Updated(Item(o, first)), Added(Item(k, other))];
      var b := [Added(Item(o, first)), Updated(Item(o, second)), Added(Item(k, other))];
      LegalRun(a) && LegalRun(b) && Hash(Grown(a)) == Hash(Grown(b))
  {
    var a := [Added(Item(o, first)), Updated(Item(o, first)), Added(Item(k, other))];
    var b := [Added(Item(o, first)), Updated(Item(o, second)), Added(Item(k, other))];
    NeighbourRun(o, k, first, first, other);
    NeighbourRun(o, k, first, second, other);
    RootCommitsExactly(a, b);
  }

  lemma NeighbourRun(o: Key, k: Key, first: Payload, second: Payload, other: Payload)
    requires o != k && o[0] == k[0]
    ensures var run := [Added(Item(o, first)), Updated(Item(o, second)), Added(Item(k, other))];
      LegalRun(run) && KeysOf(run) == {o, k} && Committed(run) == {}
  {
    var run := [Added(Item(o, first)), Updated(Item(o, second)), Added(Item(k, other))];
    assert run[..2] == [Added(Item(o, first)), Updated(Item(o, second))] && run[..1] == [Added(Item(o, first))];
    assert run[..0] == [] && KeysOf(run[..0]) == {};
    assert run[..1][0] == run[0] && KeysOf(run[..1]) == {o};
    assert run[..2][0] == run[0] && KeysOf(run[..2]) == {o};
    assert run[2].item.index in KeysOf(run) && run[0].item.index in KeysOf(run);
    assert o[..1] == [o[0]] == k[..1] && OnlyCompanion({o}, k, o, 1);
    assert run[..2][..1] == run[..1];
    assert Committed(run[..1]) == {};
    assert Committed(run[..2]) == {Item(o, second)};
  }
}

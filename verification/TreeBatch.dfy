/** The breadth-first listing of the nodes in memory, and what writing it to the store achieves. */
module TreeBatch {
  import opened Types
  import opened FlatView
  import opened NodeStore
  import opened TreeMemory

  ghost predicate NoDuplicates<T>(s: seq<T>) {
    forall i, j :: 0 <= i < j < |s| ==> s[i] != s[j]
  }

  /** The batch lists the nodes at these positions, each position once. */
  ghost predicate Tracks(batch: seq<Node>, paths: seq<Path>, mem: Memory) {
    && |batch| == |paths|
    && NoDuplicates(paths)
    && 0 < |paths| && paths[0] == []
    && forall i {:trigger paths[i]} :: 0 <= i < |paths| ==> paths[i] in mem && batch[i] == mem[paths[i]]
  }

  ghost predicate ChildListed(paths: seq<Path>, mem: Memory, i: nat, b: Nibble)
    requires i < |paths|
  {
    paths[i] + [b] in mem ==> paths[i] + [b] in paths
  }

  /** The loaded children of the first n listed positions are listed. */
  ghost predicate Closed(paths: seq<Path>, n: nat, mem: Memory) {
    forall i, b: Nibble {:trigger ChildListed(paths, mem, i, b)} ::
      0 <= i < n && i < |paths| ==> ChildListed(paths, mem, i, b)
  }

  /** As `Closed` for the first n, and for the next one on its branches below c. */
  ghost predicate ClosedBut(paths: seq<Path>, n: nat, c: nat, mem: Memory) {
    forall i, b: Nibble {:trigger ChildListed(paths, mem, i, b)} ::
      0 <= i <= n && i < |paths| && (i == n ==> b < c) ==> ChildListed(paths, mem, i, b)
  }

  ghost predicate ParentListed(paths: seq<Path>, n: nat, q: Path) {
    q == [] || exists j :: 0 <= j < n && j < |paths| && paths[j] == q[..|q| - 1]
  }

  /** Every listed position is the root or a child of one of the first n. */
  ghost predicate Parented(paths: seq<Path>, n: nat) {
    forall i {:trigger paths[i]} :: 0 <= i < |paths| ==> ParentListed(paths, n, paths[i])
  }

  lemma {:induction false} DistinctFits<T>(s: seq<T>, all: set<T>)
    requires NoDuplicates(s) && forall i :: 0 <= i < |s| ==> s[i] in all
    ensures |s| <= |all|
  {
    if s != [] {
      DistinctFits(s[1..], all - {s[0]});
    }
  }

  lemma NotYetListed(paths: seq<Path>, done: nat)
    requires NoDuplicates(paths) && Parented(paths, done) && done < |paths|
    ensures forall b: Nibble :: paths[done] + [b] !in paths
  {
    var p := paths[done];
    forall b: Nibble, i | 0 <= i < |paths| ensures paths[i] != p + [b] {
      assert ParentListed(paths, done, paths[i]);
      assert (p + [b])[..|p|] == p;
    }
  }

  lemma ListChild(batch: seq<Node>, paths: seq<Path>, mem: Memory, done: nat, b: Nibble)
    requires Tracks(batch, paths, mem) && done < |paths| && Parented(paths, done + 1)
    requires paths[done] + [b] in mem && paths[done] + [b] !in paths && ClosedBut(paths, done, b, mem)
    ensures var q := paths[done] + [b];
      && Tracks(batch + [mem[q]], paths + [q], mem)
      && Parented(paths + [q], done + 1)
      && ClosedBut(paths + [q], done, b + 1, mem)
  {
    var q := paths[done] + [b];
    var paths' := paths + [q];
    assert q[..|q| - 1] == paths[done];
    forall i | 0 <= i < |paths'| ensures ParentListed(paths', done + 1, paths'[i]) {
      if i < |paths| {
        assert ParentListed(paths, done + 1, paths[i]);
        if paths[i] != [] {
          var j :| 0 <= j < done + 1 && j < |paths| && paths[j] == paths[i][..|paths[i]| - 1];
          assert paths'[j] == paths[j];
        }
      } else {
        assert paths'[done] == paths[done];
      }
    }
    forall i, c: Nibble | 0 <= i <= done && i < |paths'| && (i == done ==> c < b + 1)
      ensures ChildListed(paths', mem, i, c)
    {
      if i == done && c == b {
        assert paths'[|paths|] == q;
      } else {
        assert ChildListed(paths, mem, i, c);
        assert paths'[i] == paths[i];
        if paths[i] + [c] in paths { assert paths[i] + [c] in paths'; }
      }
    }
  }

  lemma SkipChild(paths: seq<Path>, mem: Memory, done: nat, b: Nibble)
    requires done < |paths| && ClosedBut(paths, done, b, mem) && paths[done] + [b] !in mem
    ensures ClosedBut(paths, done, b + 1, mem)
  {
    forall i, c: Nibble | 0 <= i <= done && i < |paths| && (i == done ==> c < b + 1) ensures ChildListed(paths, mem, i, c) {
      if i != done || c < b { assert ChildListed(paths, mem, i, c); }
    }
  }

  lemma LeafIsClosed(paths: seq<Path>, done: nat, mem: Memory, v: Views)
    requires Coherent(v) && done < |paths| && LeafAt(v, paths[done]) && Faithful(mem, v)
    requires Closed(paths, done, mem) && Parented(paths, done)
    ensures Closed(paths, done + 1, mem) && Parented(paths, done + 1)
  {
    FaithfulIsPositioned(mem, v);
    forall i, b: Nibble | 0 <= i < done + 1 && i < |paths| ensures ChildListed(paths, mem, i, b) {
      if i == done {
        assert ParentOk(v, paths[i], b);
      } else {
        assert ChildListed(paths, mem, i, b);
      }
    }
    forall i | 0 <= i < |paths| ensures ParentListed(paths, done + 1, paths[i]) {
      assert ParentListed(paths, done, paths[i]);
    }
  }

  /** Closed under loaded children, the list has every loaded position. */
  lemma {:induction false} AllListed(batch: seq<Node>, paths: seq<Path>, mem: Memory, p: Path)
    requires Tracks(batch, paths, mem) && Closed(paths, |paths|, mem) && Rooted(mem) && p in mem
    ensures p in paths
    decreases |p|
  {
    if p != [] {
      var q, b := p[..|p| - 1], p[|p| - 1];
      assert p == q + [b];
      assert ParentIn(mem, q, b);
      AllListed(batch, paths, mem, q);
      var i :| 0 <= i < |paths| && paths[i] == q;
      assert ChildListed(paths, mem, i, b);
    }
  }

  /** The batch is the memory: every loaded node, once. */
  lemma BatchIsMemory(batch: seq<Node>, paths: seq<Path>, mem: Memory, v: Views)
    requires Tracks(batch, paths, mem) && Closed(paths, |paths|, mem) && Rooted(mem) && Faithful(mem, v)
    ensures NoDuplicates(batch) && (set n | n in batch) == mem.Values
    ensures forall i :: 0 <= i < |batch| ==> batch[i].HasItem() && Held(mem, v, paths[i])
  {
    FaithfulIsPositioned(mem, v);
    forall n | n in mem.Values ensures n in batch {
      var p :| p in mem && mem[p] == n;
      AllListed(batch, paths, mem, p);
    }
    forall i | 0 <= i < |batch| ensures batch[i].HasItem() && batch[i].pos == paths[i] && Held(mem, v, paths[i]) {
      assert paths[i] in mem && Held(mem, v, paths[i]);
    }
  }

  lemma BatchBacksOne(batch: seq<Node>, paths: seq<Path>, mem: Memory, v: Views, data: map<Digest, Record>, p: Path)
    requires Coherent(v) && Backed(mem.Keys, v, data)
    requires Tracks(batch, paths, mem) && Closed(paths, |paths|, mem) && Rooted(mem)
    requires forall i :: 0 <= i < |batch| ==> batch[i].HasItem() && Held(mem, v, paths[i])
    requires p in v
    ensures BackedAt(v, Written(data, batch, |batch|), p)
  {
    forall i | 0 <= i < |batch| && paths[i] != p ensures batch[i].hash != v[p].hash {
      assert Held(mem, v, paths[i]) && HashAt(v, paths[i]) != HashAt(v, p);
    }
    if p in mem {
      AllListed(batch, paths, mem, p);
      var i :| 0 <= i < |paths| && paths[i] == p;
      assert Held(mem, v, paths[i]);
      WrittenHas(data, batch, |batch|, i);
    } else {
      assert BackedAt(v, data, p);
      WrittenKeeps(data, batch, |batch|, v[p].hash);
    }
  }

  /** Once the batch is written, the store has the record of every node. */
  lemma BatchBacks(batch: seq<Node>, paths: seq<Path>, mem: Memory, v: Views, data: map<Digest, Record>)
    requires Coherent(v) && Backed(mem.Keys, v, data)
    requires Tracks(batch, paths, mem) && Closed(paths, |paths|, mem) && Rooted(mem)
    requires forall i :: 0 <= i < |batch| ==> batch[i].HasItem() && Held(mem, v, paths[i])
    ensures Backed({}, v, Written(data, batch, |batch|)) && Backed(mem.Keys, v, Written(data, batch, |batch|))
    ensures forall h :: !(exists p :: p in v && HashAt(v, p) == h) ==>
      (h in Written(data, batch, |batch|) <==> h in data) && (h in data ==> Written(data, batch, |batch|)[h] == data[h])
  {
    var data' := Written(data, batch, |batch|);
    forall p | p in v ensures BackedAt(v, data', p) {
      BatchBacksOne(batch, paths, mem, v, data, p);
    }
    forall h | !(exists p :: p in v && HashAt(v, p) == h)
      ensures (h in data' <==> h in data) && (h in data ==> data'[h] == data[h])
    {
      forall i | 0 <= i < |batch| ensures batch[i].hash != h {
        assert Held(mem, v, paths[i]) && HashAt(v, paths[i]) == batch[i].hash;
      }
      WrittenKeeps(data, batch, |batch|, h);
    }
  }
}

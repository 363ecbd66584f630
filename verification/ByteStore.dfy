/** The key-value store as it is: hexadecimal text to bytes. Its operations do to bytes what those of the store of
    records do to records. */
module ByteStore {
  import opened Types
  import opened BaseUint
  import opened NodeCodec
  import opened NodeBytes
  import opened FlatView
  import opened NodeStore
  import opened RecordBytes

  type Naming = Digest -> Bytes
  type Writing = Payload -> seq<Byte>

  /** The digests at hand are told apart by their bytes. */
  ghost predicate TellsApart(bytesOf: Naming, hs: set<Digest>) {
    forall h, k {:trigger bytesOf(h), bytesOf(k)} :: h in hs && k in hs && bytesOf(h) == bytesOf(k) ==> h == k
  }

  ghost predicate Writable(dataOf: Writing, bytesOf: Naming, r: Record) {
    RecordOk(r) && Storable(StoredOf(r, bytesOf, dataOf))
  }

  ghost predicate EntryOk(e: map<string, seq<Byte>>, data: map<Digest, Record>, bytesOf: Naming, dataOf: Writing, h: Digest)
    requires h in data
  {
    && Writable(dataOf, bytesOf, data[h])
    && ToHex(bytesOf(h)) in e
    && e[ToHex(bytesOf(h))] == Encoded(StoredOf(data[h], bytesOf, dataOf))
  }

  /** Every record has its entry. */
  ghost predicate AllWritten(e: map<string, seq<Byte>>, data: map<Digest, Record>, bytesOf: Naming, dataOf: Writing) {
    forall h {:trigger EntryOk(e, data, bytesOf, dataOf, h)} :: h in data ==> EntryOk(e, data, bytesOf, dataOf, h)
  }

  /** Every entry is named by a record. */
  ghost predicate Named(texts: set<string>, hs: set<Digest>, bytesOf: Naming) {
    forall key {:trigger key in texts} :: key in texts ==> exists h :: h in hs && ToHex(bytesOf(h)) == key
  }

  /** The entries are the records, written out. */
  ghost predicate Represents(e: map<string, seq<Byte>>, data: map<Digest, Record>, bytesOf: Naming, dataOf: Writing) {
    && AllWritten(e, data, bytesOf, dataOf)
    && Named(e.Keys, data.Keys, bytesOf)
  }

  lemma NamedAfterDelete(texts: set<string>, hs: set<Digest>, bytesOf: Naming, h: Digest)
    requires Named(texts, hs, bytesOf)
    ensures Named(texts - {ToHex(bytesOf(h))}, hs - {h}, bytesOf)
  {
    forall key | key in texts - {ToHex(bytesOf(h))} ensures exists k :: k in hs - {h} && ToHex(bytesOf(k)) == key {
      var k :| k in hs && ToHex(bytesOf(k)) == key;
      assert k in hs - {h};
    }
  }

  lemma NamedAfterPut(texts: set<string>, hs: set<Digest>, bytesOf: Naming, h: Digest)
    requires Named(texts, hs, bytesOf)
    ensures Named(texts + {ToHex(bytesOf(h))}, hs + {h}, bytesOf)
  {
    forall key | key in texts + {ToHex(bytesOf(h))} ensures exists k :: k in hs + {h} && ToHex(bytesOf(k)) == key {
      if key in texts {
        var k :| k in hs && ToHex(bytesOf(k)) == key;
        assert k in hs + {h};
      } else {
        assert h in hs + {h};
      }
    }
  }

  lemma TextsApart(bytesOf: Naming, hs: set<Digest>, h: Digest, k: Digest)
    requires TellsApart(bytesOf, hs) && h in hs && k in hs
    ensures ToHex(bytesOf(h)) == ToHex(bytesOf(k)) <==> h == k
  {
    ToHexInjective(bytesOf(h), bytesOf(k));
  }

  /** An entry decodes to its record. */
  lemma ReadSimulates(e: map<string, seq<Byte>>, data: map<Digest, Record>, bytesOf: Naming, dataOf: Writing, h: Digest)
    requires Represents(e, data, bytesOf, dataOf) && h in data
    ensures RecordOk(data[h]) && ToHex(bytesOf(h)) in e
    ensures var s := e[ToHex(bytesOf(h))]; Decodable(s) && Decoded(s) == StoredOf(data[h], bytesOf, dataOf)
  {
    assert EntryOk(e, data, bytesOf, dataOf, h);
    DecodeEncoded(StoredOf(data[h], bytesOf, dataOf));
  }

  lemma OtherEntryStays(e: map<string, seq<Byte>>, data: map<Digest, Record>, bytesOf: Naming, dataOf: Writing,
                        h: Digest, k: Digest)
    requires h in data && k in data && h != k && EntryOk(e, data, bytesOf, dataOf, k) && TellsApart(bytesOf, data.Keys)
    ensures EntryOk(e - {ToHex(bytesOf(h))}, data - {h}, bytesOf, dataOf, k)
  {
    TextsApart(bytesOf, data.Keys, h, k);
  }

  lemma OtherEntryKept(e: map<string, seq<Byte>>, data: map<Digest, Record>, bytesOf: Naming, dataOf: Writing,
                       h: Digest, r: Record, s: seq<Byte>, k: Digest)
    requires k in data && h != k && EntryOk(e, data, bytesOf, dataOf, k) && TellsApart(bytesOf, data.Keys + {h})
    ensures EntryOk(e[ToHex(bytesOf(h)) := s], data[h := r], bytesOf, dataOf, k)
  {
    TextsApart(bytesOf, data.Keys + {h}, h, k);
  }

  /** Deleting an entry is deleting its record. */
  lemma DeleteSimulates(e: map<string, seq<Byte>>, data: map<Digest, Record>, bytesOf: Naming, dataOf: Writing, h: Digest)
    requires Represents(e, data, bytesOf, dataOf) && TellsApart(bytesOf, data.Keys) && h in data
    ensures Represents(e - {ToHex(bytesOf(h))}, data - {h}, bytesOf, dataOf)
  {
    var text := ToHex(bytesOf(h));
    var e', data' := e - {text}, data - {h};
    forall k | k in data' ensures EntryOk(e', data', bytesOf, dataOf, k) {
      assert EntryOk(e, data, bytesOf, dataOf, k);
      OtherEntryStays(e, data, bytesOf, dataOf, h, k);
    }
    NamedAfterDelete(e.Keys, data.Keys, bytesOf, h);
    assert e'.Keys == e.Keys - {text} && data'.Keys == data.Keys - {h};
  }

  lemma WrittenAfterPut(e: map<string, seq<Byte>>, data: map<Digest, Record>, bytesOf: Naming, dataOf: Writing,
                        h: Digest, r: Record, s: seq<Byte>, text: string)
    requires AllWritten(e, data, bytesOf, dataOf) && TellsApart(bytesOf, data.Keys + {h}) && text == ToHex(bytesOf(h))
    requires EntryOk(e[text := s], data[h := r], bytesOf, dataOf, h)
    ensures AllWritten(e[text := s], data[h := r], bytesOf, dataOf)
  {
    var e', data' := e[text := s], data[h := r];
    forall k | k in data' ensures EntryOk(e', data', bytesOf, dataOf, k) {
      if k != h {
        assert EntryOk(e, data, bytesOf, dataOf, k);
        OtherEntryKept(e, data, bytesOf, dataOf, h, r, s, k);
      }
    }
  }

  lemma PutEntry(e: map<string, seq<Byte>>, data: map<Digest, Record>, bytesOf: Naming, dataOf: Writing,
                 h: Digest, r: Record, s: seq<Byte>, text: string)
    requires Represents(e, data, bytesOf, dataOf) && TellsApart(bytesOf, data.Keys + {h}) && text == ToHex(bytesOf(h))
    requires EntryOk(e[text := s], data[h := r], bytesOf, dataOf, h)
    ensures Represents(e[text := s], data[h := r], bytesOf, dataOf)
  {
    WrittenAfterPut(e, data, bytesOf, dataOf, h, r, s, text);
    NamedAfterPut(e.Keys, data.Keys, bytesOf, h);
    assert e[text := s].Keys == e.Keys + {text} && data[h := r].Keys == data.Keys + {h};
  }

  /** Writing an entry is writing its record. */
  lemma PutSimulates(e: map<string, seq<Byte>>, data: map<Digest, Record>, bytesOf: Naming, dataOf: Writing,
                     h: Digest, r: Record)
    requires Represents(e, data, bytesOf, dataOf) && TellsApart(bytesOf, data.Keys + {h}) && Writable(dataOf, bytesOf, r)
    ensures Represents(e[ToHex(bytesOf(h)) := Encoded(StoredOf(r, bytesOf, dataOf))], data[h := r], bytesOf, dataOf)
  {
    PutEntry(e, data, bytesOf, dataOf, h, r, Encoded(StoredOf(r, bytesOf, dataOf)), ToHex(bytesOf(h)));
  }

  /** The records after the first n of a batch. */
  ghost function PutAll(data: map<Digest, Record>, hs: seq<Digest>, rs: seq<Record>, n: nat): map<Digest, Record>
    requires n <= |hs| && |hs| == |rs|
  {
    if n == 0 then data else PutAll(data, hs, rs, n - 1)[hs[n - 1] := rs[n - 1]]
  }

  /** It is what the store of records writes for nodes with these hashes and records. */
  lemma {:induction false} PutAllIsWritten(data: map<Digest, Record>, batch: seq<Node>, hs: seq<Digest>,
                                           rs: seq<Record>, n: nat)
    requires n <= |batch| && |hs| == |rs| == |batch| && forall i :: 0 <= i < |batch| ==> batch[i].HasItem()
    requires forall i :: 0 <= i < |batch| ==> hs[i] == batch[i].hash && rs[i] == batch[i].Encode()
    ensures PutAll(data, hs, rs, n) == Written(data, batch, n)
  {
    if n > 0 { PutAllIsWritten(data, batch, hs, rs, n - 1); }
  }

  lemma {:induction false} PutAllKeys(data: map<Digest, Record>, hs: seq<Digest>, rs: seq<Record>, n: nat)
    requires n <= |hs| && |hs| == |rs|
    ensures PutAll(data, hs, rs, n).Keys == data.Keys + set i | 0 <= i < n :: hs[i]
  {
    if n > 0 { PutAllKeys(data, hs, rs, n - 1); }
  }

  lemma FewerApart(bytesOf: Naming, hs: set<Digest>, fewer: set<Digest>)
    requires TellsApart(bytesOf, hs) && fewer <= hs
    ensures TellsApart(bytesOf, fewer)
  {
  }

  /** A node to be saved, and its hash. */
  datatype Saved = Saved(node: StoredNode, hash: Uint256)

  /** They stand for this record and this digest. */
  ghost predicate StandsFor(x: Saved, h: Digest, r: Record, bytesOf: Naming, dataOf: Writing)
    reads x.node, x.hash, x.hash.data, if x.node.item == null then {} else {x.node.item.payload}
  {
    && x.node.Valid() && x.hash.Valid() && x.hash.Value() == bytesOf(h)
    && Writable(dataOf, bytesOf, r) && x.node.Value() == StoredOf(r, bytesOf, dataOf)
  }

  class Database {
    var entries: map<string, seq<Byte>>
    const bytesOf: Naming
    const dataOf: Writing
    /** The records the entries stand for. */
    ghost var data: map<Digest, Record>

    ghost predicate Valid()
      reads this
    {
      Represents(entries, data, bytesOf, dataOf)
    }

    constructor (naming: Naming, writing: Writing)
      ensures Valid() && data == map[] && bytesOf == naming && dataOf == writing
    {
      entries, bytesOf, dataOf, data := map[], naming, writing, map[];
    }

    /** Reads a node by its hash and deletes its entry. */
    method Fetch(hash: Uint256, ghost h: Digest) returns (node: StoredNode)
      requires Valid() && hash.Valid() && hash.Value() == bytesOf(h) && h in data && TellsApart(bytesOf, data.Keys)
      modifies this
      ensures Valid() && data == old(data) - {h}
      ensures fresh(node) && node.Valid() && RecordOk(old(data)[h])
      ensures node.Value() == StoredOf(old(data)[h], bytesOf, dataOf)
    {
      ReadSimulates(entries, data, bytesOf, dataOf, h);
      DeleteSimulates(entries, data, bytesOf, dataOf, h);
      var key := hash.ToString();
      var value := entries[key];
      entries := entries - {key};
      data := data - {h};
      node := new StoredNode();
      node.Decode(value);
    }

    /** Writes one node. */
    method Put(x: Saved, ghost h: Digest, ghost r: Record)
      requires Valid() && StandsFor(x, h, r, bytesOf, dataOf) && TellsApart(bytesOf, data.Keys + {h})
      modifies this
      ensures Valid() && data == old(data)[h := r]
    {
      PutSimulates(entries, data, bytesOf, dataOf, h, r);
      var key, value := EntryFor(x);
      entries := entries[key := value];
      data := data[h := r];
    }

    static method EntryFor(x: Saved) returns (key: string, value: seq<Byte>)
      requires x.node.Valid() && Storable(x.node.Value()) && x.hash.Valid()
      ensures key == ToHex(x.hash.Value()) && value == Encoded(x.node.Value())
    {
      var entry := new EncodeNode();
      entry.DoEncode(x.node, x.hash);
      assert entry.value == Encoded(x.node.Value());
      key, value := entry.key, entry.value;
    }

    /** Writes a batch of nodes in order. */
    method StoreBatch(batch: seq<Saved>, ghost hs: seq<Digest>, ghost rs: seq<Record>)
      requires Valid() && |hs| == |rs| == |batch|
      requires forall i {:trigger batch[i]} :: 0 <= i < |batch| ==> StandsFor(batch[i], hs[i], rs[i], bytesOf, dataOf)
      requires TellsApart(bytesOf, data.Keys + set i | 0 <= i < |hs| :: hs[i])
      modifies this
      ensures Valid() && data == PutAll(old(data), hs, rs, |batch|)
    {
      for i := 0 to |batch|
        invariant Valid() && data == PutAll(old(data), hs, rs, i)
      {
        PutAllKeys(old(data), hs, rs, i);
        assert hs[i] in (set k | 0 <= k < |hs| :: hs[k]);
        FewerApart(bytesOf, old(data).Keys + set k | 0 <= k < |hs| :: hs[k], data.Keys + {hs[i]});
        Put(batch[i], hs[i], rs[i]);
      }
    }
  }
}

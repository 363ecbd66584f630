/** The records of the tree model as bytes. */
module RecordBytes {
  import opened Types
  import opened BaseUint
  import opened BranchMask
  import opened NodeCodec
  import opened FlatView

  function AllBytes(bytesOf: Digest -> Bytes, hashes: seq<Digest>): seq<Bytes> {
    seq(|hashes|, i requires 0 <= i < |hashes| => bytesOf(hashes[i]))
  }

  /** A record with its digests and payload written out. */
  function StoredOf(r: Record, bytesOf: Digest -> Bytes, dataOf: Payload -> seq<Byte>): Stored
    requires RecordOk(r)
  {
    match r
    case InnerRecord(flag, mask, hashes) => InnerBytes(flag, WordOf(mask, 16), AllBytes(bytesOf, hashes))
    case LeafRecord(kind, flag, mask, item) =>
      LeafBytes(flag, kind == TxLeaf, WordOf(mask, 16), BytesOf(item.index), dataOf(item.data))
  }

  lemma MaskKept(m: Mask, n: Mask)
    requires |m| == |n| == 16
    ensures WordOf(m, 16) == WordOf(n, 16) <==> m == n
  {
    FlagsOfWord(m, 16);
    FlagsOfWord(n, 16);
  }

  /** Where the two records can be compared, their digests and payloads are told apart by their bytes. */
  ghost predicate NoClash(r: Record, q: Record, bytesOf: Digest -> Bytes, dataOf: Payload -> seq<Byte>)
    requires RecordOk(r) && RecordOk(q)
  {
    && (r.InnerRecord? && q.InnerRecord? ==>
          forall i :: 0 <= i < 16 && bytesOf(r.childHash[i]) == bytesOf(q.childHash[i]) ==> r.childHash[i] == q.childHash[i])
    && (r.LeafRecord? && q.LeafRecord? && dataOf(r.item.data) == dataOf(q.item.data) ==> r.item.data == q.item.data)
  }

  /** Then the stored bytes tell the records apart. */
  lemma BytesDetermineRecord(r: Record, q: Record, bytesOf: Digest -> Bytes, dataOf: Payload -> seq<Byte>)
    requires RecordOk(r) && RecordOk(q) && NoClash(r, q, bytesOf, dataOf)
    requires Storable(StoredOf(r, bytesOf, dataOf)) && Storable(StoredOf(q, bytesOf, dataOf))
    ensures Encoded(StoredOf(r, bytesOf, dataOf)) == Encoded(StoredOf(q, bytesOf, dataOf)) <==> r == q
  {
    var s, t := StoredOf(r, bytesOf, dataOf), StoredOf(q, bytesOf, dataOf);
    EncodedInjective(s, t);
    if s == t {
      MaskKept(r.mask, q.mask);
      if r.InnerRecord? {
        forall i | 0 <= i < 16 ensures r.childHash[i] == q.childHash[i] {
          assert s.childHash[i] == bytesOf(r.childHash[i]) && t.childHash[i] == bytesOf(q.childHash[i]);
        }
      } else {
        KeyOfBytes(r.item.index);
        KeyOfBytes(q.item.index);
      }
    }
  }
}

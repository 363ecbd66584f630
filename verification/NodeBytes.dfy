/** The objects that turn nodes into bytes and back. */
module NodeBytes {
  import opened BaseUint
  import opened BranchMask
  import opened NodeCodec

  class Serializer {
    var data: seq<Byte>

    constructor ()
      ensures data == []
    {
      data := [];
    }

    method AddRaw(ch: seq<Byte>)
      modifies this
      ensures data == old(data) + ch
    {
      for i := 0 to |ch|
        invariant data == old(data) + ch[..i]
      {
        data := data + [ch[i]];
      }
    }

    method Add256(hash: Bytes)
      modifies this
      ensures data == old(data) + hash
    {
      data := data + hash;
    }

    method AddSerializer(s: Serializer)
      requires s != this && s.data != []
      modifies this
      ensures data == old(data) + s.data
    {
      AddRaw(s.data);
    }
  }

  /** A leaf's item: its index and its serialized payload. */
  class Leaf {
    const index: Bytes
    const payload: Serializer

    constructor (i: Bytes, s: Serializer)
      ensures index == i && payload == s
    {
      index := i;
      payload := s;
    }
  }

  class StoredNode {
    var childHash: seq<Bytes>
    var item: Leaf?
    var flag: bool
    var kind: nat
    var mask: Word

    ghost predicate Valid()
      reads this
    {
      && |childHash| == 16 && INNER_NODE <= kind <= ACCOUNT_LEAF && (kind != INNER_NODE ==> item != null)
    }

    function Value(): Stored
      requires Valid()
      reads this, if item == null then {} else {item.payload}
    {
      if kind == INNER_NODE then InnerBytes(flag, mask, childHash)
      else LeafBytes(flag, kind == TRANSACTION_LEAF, mask, item.index, item.payload.data)
    }

    constructor ()
      ensures Valid()
    {
      childHash := seq(16, i => seq(32, j => 0));
      item := null;
      flag := false;
      kind := INNER_NODE;
      mask := 0;
    }

    method AddHead(s: Serializer)
      requires Valid()
      modifies s
      ensures s.data == old(s.data) + old(Head(Value()))
    {
      var bit, word, bits := [if flag then 1 else 0], LittleEndian(kind, 4), MaskBytes(mask);
      assert Head(Value()) == bit + word + bits;
      Associate(s.data, bit, word, bits);
      s.AddRaw(bit);
      s.AddRaw(word);
      s.AddRaw(bits);
    }

    static lemma Associate(a: seq<Byte>, b: seq<Byte>, c: seq<Byte>, d: seq<Byte>)
      ensures a + b + c + d == a + (b + c + d)
    {
    }

    method AddChildHashes(s: Serializer)
      requires Valid()
      modifies s
      ensures s.data == old(s.data) + Concat(childHash)
    {
      for i := 0 to 16
        invariant s.data + Concat(childHash[i..]) == old(s.data) + Concat(childHash)
      {
        s.Add256(childHash[i]);
        assert childHash[i..][1..] == childHash[i + 1..];
      }
    }

    method Encode(s: Serializer)
      requires Valid() && Storable(Value()) && (item != null ==> s != item.payload)
      modifies s
      ensures s.data == old(s.data) + Encoded(Value())
    {
      AddHead(s);
      AddBody(s);
    }

    method AddBody(s: Serializer)
      requires Valid() && Storable(Value()) && (item != null ==> s != item.payload)
      modifies s
      ensures s.data == old(s.data) + Body(Value())
    {
      if kind == INNER_NODE {
        AddChildHashes(s);
      } else {
        s.Add256(item.index);
        s.AddSerializer(item.payload);
      }
    }

    /** Reads a stored value into the node. */
    method Decode(value: seq<Byte>)
      requires Valid() && Decodable(value)
      modifies this
      ensures Valid() && Value() == Decoded(value)
    {
      flag := value[0] != 0;
      kind := FromLittleEndian(value[1..5]);
      mask := MaskFrom(value[5..9]);
      if kind == INNER_NODE {
        DecodeChildHashes(value);
      } else {
        var s := new Serializer();
        s.AddRaw(value[41..]);
        item := new Leaf(Slice(value, 9), s);
      }
    }

    method DecodeChildHashes(value: seq<Byte>)
      requires |childHash| == 16 && |value| >= 9 + 16 * 32
      modifies this`childHash
      ensures |childHash| == 16 && forall i :: 0 <= i < 16 ==> childHash[i] == Slice(value, 9 + 32 * i)
    {
      for i := 0 to 16
        invariant |childHash| == 16 && forall j :: 0 <= j < i ==> childHash[j] == Slice(value, 9 + 32 * j)
      {
        childHash := childHash[i := Slice(value, 9 + 32 * i)];
      }
    }
  }

  /** One entry of the store: the node's hash in hexadecimal and its bytes. */
  class EncodeNode {
    var keySize: nat
    var valueSize: nat
    var key: string
    var value: seq<Byte>

    constructor ()
      ensures key == "" && value == []
    {
      keySize, valueSize, key, value := 0, 0, "", [];
    }

    method DoEncode(node: StoredNode, hash: Uint256)
      requires node.Valid() && Storable(node.Value()) && hash.Valid()
      modifies this
      ensures key == ToHex(hash.Value()) && keySize == 64
      ensures value == old(value) + Encoded(node.Value()) && valueSize == |Encoded(node.Value())|
    {
      key := hash.ToString();
      keySize := |key|;
      HexDigitIsBranch(hash.Value(), 0);
      var s := new Serializer();
      node.Encode(s);
      assert s.data == Encoded(node.Value());
      valueSize := |s.data|;
      PushAll(s.data);
    }

    method PushAll(bytes: seq<Byte>)
      modifies this`value
      ensures value == old(value) + bytes
    {
      for i := 0 to |bytes|
        invariant value == old(value) + bytes[..i]
      {
        value := value + [bytes[i]];
      }
    }
  }

  /** Saving a node under its hash and reading the entry back gives the same node. */
  method SaveAndLoad(node: StoredNode, hash: Uint256) returns (loaded: StoredNode, key: string)
    requires node.Valid() && Storable(node.Value()) && hash.Valid()
    ensures fresh(loaded) && loaded.Valid() && loaded.Value() == node.Value() && key == ToHex(hash.Value())
  {
    var entry := new EncodeNode();
    entry.DoEncode(node, hash);
    key := entry.key;
    assert entry.value == Encoded(node.Value());
    DecodeEncoded(node.Value());
    loaded := new StoredNode();
    loaded.Decode(entry.value);
  }
}

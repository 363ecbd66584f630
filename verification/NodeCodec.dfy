/** The bytes of a stored node: what `encode` writes, what `decode` reads, and what the digests are taken of. */
module NodeCodec {
  import opened BaseUint
  import opened BranchMask

  /** A node's stored fields, with digests and payloads as bytes. */
  datatype Stored =
    | InnerBytes(flag: bool, mask: Word, childHash: seq<Bytes>)
    | LeafBytes(flag: bool, isTransaction: bool, mask: Word, index: Bytes, data: seq<Byte>)

  /** Sixteen children; leaf data of any length but empty, whose address the original cannot take. */
  ghost predicate Storable(n: Stored) {
    match n
    case InnerBytes(_, _, hashes) => |hashes| == 16
    case LeafBytes(_, _, _, _, data) => data != []
  }

  // ---- words ----

  /** The n low bytes of x, least significant first. */
  function LittleEndian(x: nat, n: nat): (s: seq<Byte>)
    ensures |s| == n
  {
    if n == 0 then [] else [x % 256] + LittleEndian(x / 256, n - 1)
  }

  function FromLittleEndian(s: seq<Byte>): nat {
    if s == [] then 0 else
      var low: int := s[0];
      low + 256 * FromLittleEndian(s[1..])
  }

  function Power256(n: nat): nat {
    if n == 0 then 1 else 256 * Power256(n - 1)
  }

  lemma {:induction false} LittleEndianRoundTrip(x: nat, n: nat)
    requires x < Power256(n)
    ensures FromLittleEndian(LittleEndian(x, n)) == x
  {
    if n > 0 {
      LittleEndianRoundTrip(x / 256, n - 1);
      assert LittleEndian(x, n)[1..] == LittleEndian(x / 256, n - 1);
    }
  }

  lemma {:induction false} FromLittleEndianBound(s: seq<Byte>)
    ensures FromLittleEndian(s) < Power256(|s|)
  {
    if s != [] { FromLittleEndianBound(s[1..]); }
  }

  function MaskBytes(mask: Word): (s: seq<Byte>)
    ensures |s| == 4
  {
    LittleEndian(mask, 4)
  }

  function MaskFrom(s: seq<Byte>): Word
    requires |s| == 4
  {
    FromLittleEndianBound(s);
    assert Power256(4) == 0x1_0000_0000;
    FromLittleEndian(s)
  }

  lemma MaskRoundTrip(mask: Word)
    ensures MaskFrom(MaskBytes(mask)) == mask
  {
    assert Power256(4) == 0x1_0000_0000;
    LittleEndianRoundTrip(mask, 4);
  }

  // ---- nodes ----

  const INNER_NODE := 1
  const TRANSACTION_LEAF := 2
  const ACCOUNT_LEAF := 3

  function TypeOf(n: Stored): nat {
    if n.InnerBytes? then INNER_NODE else if n.isTransaction then TRANSACTION_LEAF else ACCOUNT_LEAF
  }

  /** The nine bytes every encoding starts with: the flag, the type and the mask. */
  function Head(n: Stored): (s: seq<Byte>)
    ensures |s| == 9
  {
    [if n.flag then 1 else 0] + LittleEndian(TypeOf(n), 4) + MaskBytes(n.mask)
  }

  function Concat(hashes: seq<Bytes>): (s: seq<Byte>)
    ensures |s| == 32 * |hashes|
  {
    if hashes == [] then [] else hashes[0] + Concat(hashes[1..])
  }

  function Body(n: Stored): seq<Byte> {
    match n
    case InnerBytes(_, _, hashes) => Concat(hashes)
    case LeafBytes(_, _, _, index, data) => index + data
  }

  function Encoded(n: Stored): seq<Byte> {
    Head(n) + Body(n)
  }

  function Slice(s: seq<Byte>, at: nat): Bytes
    requires at + 32 <= |s|
  {
    s[at..at + 32]
  }

  function TypeIn(s: seq<Byte>): nat
    requires |s| >= 9
  {
    FromLittleEndian(s[1..5])
  }

  /** What `decode` can read: a known type and enough bytes after the head. */
  predicate Decodable(s: seq<Byte>) {
    && |s| >= 9
    && (TypeIn(s) == INNER_NODE || TypeIn(s) == TRANSACTION_LEAF || TypeIn(s) == ACCOUNT_LEAF)
    && |s| >= if TypeIn(s) == INNER_NODE then 9 + 16 * 32 else 9 + 32
  }

  function Decoded(s: seq<Byte>): Stored
    requires Decodable(s)
  {
    var flag, mask := s[0] != 0, MaskFrom(s[5..9]);
    if TypeIn(s) == INNER_NODE then
      InnerBytes(flag, mask, seq(16, i requires 0 <= i < 16 => Slice(s, 9 + 32 * i)))
    else
      LeafBytes(flag, TypeIn(s) == TRANSACTION_LEAF, mask, Slice(s, 9), s[41..])
  }

  lemma {:induction false} ConcatAt(hashes: seq<Bytes>, i: nat)
    requires i < |hashes|
    ensures Slice(Concat(hashes), 32 * i) == hashes[i]
  {
    if i > 0 {
      ConcatAt(hashes[1..], i - 1);
      assert Slice(Concat(hashes), 32 * i) == Slice(Concat(hashes[1..]), 32 * (i - 1));
    }
  }

  lemma HeadParts(n: Stored)
    ensures Head(n)[0] == (if n.flag then 1 else 0)
    ensures Head(n)[1..5] == LittleEndian(TypeOf(n), 4) && Head(n)[5..9] == MaskBytes(n.mask)
    ensures FromLittleEndian(Head(n)[1..5]) == TypeOf(n) && MaskFrom(Head(n)[5..9]) == n.mask
  {
    assert TypeOf(n) < 256 * 256 * 256 * 256 == Power256(4);
    LittleEndianRoundTrip(TypeOf(n), 4);
    MaskRoundTrip(n.mask);
  }

  lemma EncodedParts(n: Stored)
    ensures var s := Encoded(n);
      |s| >= 9 && s[0] == Head(n)[0] && TypeIn(s) == TypeOf(n) && MaskFrom(s[5..9]) == n.mask && s[9..] == Body(n)
  {
    HeadParts(n);
    assert Encoded(n)[1..5] == Head(n)[1..5] && Encoded(n)[5..9] == Head(n)[5..9];
  }

  /** Where everything is: the flag, the type as 1, 2 or 3, the mask with its low byte first, and then the sixteen
      hashes, or the index and the data. */
  lemma Layout(n: Stored)
    requires Storable(n)
    ensures var s := Encoded(n);
      && |s| == 9 + (if n.InnerBytes? then 512 else 32 + |n.data|)
      && s[0] == (if n.flag then 1 else 0)
      && s[1] == (if n.InnerBytes? then 1 else if n.isTransaction then 2 else 3) && s[2] == s[3] == s[4] == 0
      && s[5] == n.mask % 256 && s[6] == n.mask / 256 % 256
      && s[7] == n.mask / 65536 % 256 && s[8] == n.mask / 16777216
    ensures n.InnerBytes? ==> forall i :: 0 <= i < 16 ==> Slice(Encoded(n), 9 + 32 * i) == n.childHash[i]
    ensures n.LeafBytes? ==> Encoded(n)[9..41] == n.index && Encoded(n)[41..] == n.data
  {
    DecodeEncoded(n);
    HeadLayout(n);
    var s := Encoded(n);
    if n.InnerBytes? {
      forall i | 0 <= i < 16 ensures Slice(s, 9 + 32 * i) == n.childHash[i] {
        assert Decoded(s).childHash[i] == Slice(s, 9 + 32 * i);
      }
    }
  }

  lemma HeadLayout(n: Stored)
    ensures var s := Head(n);
      && s[0] == (if n.flag then 1 else 0)
      && s[1] == (if n.InnerBytes? then 1 else if n.isTransaction then 2 else 3) && s[2] == s[3] == s[4] == 0
      && s[5] == n.mask % 256 && s[6] == n.mask / 256 % 256
      && s[7] == n.mask / 65536 % 256 && s[8] == n.mask / 16777216
  {
    HeadParts(n);
    FourBytes(TypeOf(n));
    FourBytes(n.mask);
    var s := Head(n);
    assert s[1] == s[1..5][0] && s[2] == s[1..5][1] && s[3] == s[1..5][2] && s[4] == s[1..5][3];
    assert s[5] == s[5..9][0] && s[6] == s[5..9][1] && s[7] == s[5..9][2] && s[8] == s[5..9][3];
  }

  lemma FourBytes(x: Word)
    ensures LittleEndian(x, 4) == [x % 256, x / 256 % 256, x / 65536 % 256, x / 16777216]
  {
    var a, b, c := x / 256, x / 256 / 256, x / 256 / 256 / 256;
    assert LittleEndian(c, 1) == [c % 256];
    assert LittleEndian(b, 2) == [b % 256] + LittleEndian(c, 1);
    assert LittleEndian(a, 3) == [a % 256] + LittleEndian(b, 2);
    assert b == x / 65536 && c == x / 16777216 && c < 256;
  }

  /** Decoding the encoded bytes restores every stored field. */
  lemma DecodeEncoded(n: Stored)
    requires Storable(n)
    ensures Decodable(Encoded(n)) && Decoded(Encoded(n)) == n
  {
    EncodedParts(n);
    var s := Encoded(n);
    if n.InnerBytes? {
      forall i | 0 <= i < 16 ensures Slice(s, 9 + 32 * i) == n.childHash[i] {
        ConcatAt(n.childHash, i);
        assert Slice(s, 9 + 32 * i) == Slice(s[9..], 32 * i);
      }
      assert Decoded(s).childHash == n.childHash;
    } else {
      assert Slice(s, 9) == s[9..][..32] && s[41..] == s[9..][32..];
    }
  }

  /** So different nodes never have the same bytes. */
  lemma EncodedInjective(m: Stored, n: Stored)
    requires Storable(m) && Storable(n)
    ensures Encoded(m) == Encoded(n) <==> m == n
  {
    DecodeEncoded(m);
    DecodeEncoded(n);
  }

  // ---- digests ----

  /** "_node_", "txleaf" and "acleaf". */
  function Tag(n: Stored): (s: seq<Byte>)
    ensures |s| == 6
  {
    if n.InnerBytes? then [95, 110, 111, 100, 101, 95]
    else if n.isTransaction then [116, 120, 108, 101, 97, 102]
    else [97, 99, 108, 101, 97, 102]
  }

  /** The bytes a node's digest is taken of: a transaction leaf leaves out its index. */
  function Preimage(n: Stored): seq<Byte> {
    Head(n) + Tag(n) +
    match n
    case InnerBytes(_, _, hashes) => Concat(hashes)
    case LeafBytes(_, isTransaction, _, index, data) => if isTransaction then data else data + index
  }

  lemma PreimageParts(n: Stored)
    ensures var s := Preimage(n);
      |s| >= 15 && s[0] == Head(n)[0] && TypeIn(s) == TypeOf(n) && MaskFrom(s[5..9]) == n.mask
    ensures Preimage(n)[15..] ==
      match n
      case InnerBytes(_, _, hashes) => Concat(hashes)
      case LeafBytes(_, isTransaction, _, index, data) => if isTransaction then data else data + index
  {
    HeadParts(n);
    assert Preimage(n)[1..5] == Head(n)[1..5] && Preimage(n)[5..9] == Head(n)[5..9];
  }

  /** What is digested: the head, a six-letter tag, and then the sixteen hashes; or the data, followed by the index
      in an account leaf only. */
  lemma PreimageLayout(n: Stored)
    requires Storable(n)
    ensures var s, e := Preimage(n), Encoded(n);
      && |s| >= 15 && s[..9] == e[..9]
      && s[9..15] == (if n.InnerBytes? then [95, 110, 111, 100, 101, 95]
                      else if n.isTransaction then [116, 120, 108, 101, 97, 102] else [97, 99, 108, 101, 97, 102])
      && (n.InnerBytes? ==> s[15..] == e[9..])
      && (n.LeafBytes? ==> s[15..] == n.data + if n.isTransaction then [] else n.index)
  {
    PreimageParts(n);
    EncodedParts(n);
    assert Preimage(n)[..9] == Head(n) == Encoded(n)[..9];
  }

  /** Two nodes are digested alike exactly when they are the same node, up to the index of a transaction leaf. */
  lemma PreimageDetermines(m: Stored, n: Stored)
    requires Storable(m) && Storable(n)
    ensures Preimage(m) == Preimage(n) <==>
      m == n || (m.LeafBytes? && n.LeafBytes? && m.isTransaction && m == n.(index := m.index))
  {
    PreimageParts(m);
    PreimageParts(n);
    if Preimage(m) == Preimage(n) {
      var rest := Preimage(m)[15..];
      if m.InnerBytes? {
        forall i | 0 <= i < 16 ensures m.childHash[i] == n.childHash[i] {
          ConcatAt(m.childHash, i);
          ConcatAt(n.childHash, i);
        }
      } else if !m.isTransaction {
        assert m.data == rest[..|rest| - 32] == n.data && m.index == rest[|rest| - 32..] == n.index;
      }
    }
  }
}

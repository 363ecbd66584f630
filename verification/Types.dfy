/** Keys, payloads and symbolic digests shared by the whole model. */
module Types {

  datatype Option<+T> = None | Some(value: T)

  /** One branch number of a 16-way node: four bits of a key. */
  type Nibble = n: int | 0 <= n < 16

  /** A 256-bit value seen as its 64 branch numbers, most significant first.
      Module BaseUint proves that the 32 stored bytes and this view determine each other. */
  type Key = k: seq<Nibble> | |k| == 64 witness seq(64, i => 0)

  /** A position in a tree: the branches taken from the root. */
  type Path = seq<Nibble>

  function ZeroKey(): (k: Key)
    ensures forall i :: 0 <= i < 64 ==> k[i] == 0
  {
    seq(64, i => 0)
  }

  datatype Account = Account(address: Key, balance: real, previousLedgerSeq: nat, previousTxHash: Key)

  datatype Transaction = Transaction(
    source: Key,
    destination: Key,
    amount: real,
    sourcePreviousLedgerSeq: nat,
    sourcePreviousTxHash: Key,
    destinationPreviousLedgerSeq: nat,
    destinationPreviousTxHash: Key)

  /** What a leaf carries; the protobuf text of the original is replaced by the value it encodes. */
  datatype Payload = AccountData(account: Account) | TxData(tx: Transaction)

  datatype Item = Item(index: Key, data: Payload)

  datatype Kind = InnerNode | TxLeaf | AcLeaf

  /** `branch_mask_`, one flag for each of its 16 used bits (module BranchMask relates the two). */
  type Mask = seq<bool>

  function EmptyMask(): (m: Mask)
    ensures |m| == 16 && forall i :: 0 <= i < 16 ==> !m[i]
  {
    seq(16, i => false)
  }

  /** The first half of SHA-512, taken symbolically: each way of forming a preimage is one constructor,
      so digests of different preimages differ. `Raw` is a 256-bit value that is not computed by a node. */
  datatype Digest =
    | Raw(key: Key)
    | InnerDigest(flag: bool, mask: Mask, kids: seq<Digest>)
    | TxLeafDigest(flag: bool, mask: Mask, data: Payload)
    | AcLeafDigest(flag: bool, mask: Mask, data: Payload, index: Key)
    | LedgerDigest(parent: Digest, txRoot: Digest, accountRoot: Digest, coins: nat, sequence: nat, closeTime: nat)

  function Zero(): Digest {
    Raw(ZeroKey())
  }
}

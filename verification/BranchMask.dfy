/** The branch mask as the machine word it is, against the flags the tree model uses. */
module BranchMask {
  import opened Types

  type Word = w: int | 0 <= w < 0x1_0000_0000

  /** Whether `w & (1 << b)` is not zero. */
  predicate HasBit(w: nat, b: nat) {
    if b == 0 then w % 2 == 1 else HasBit(w / 2, b - 1)
  }

  /** `w | (1 << b)`. */
  function SetBit(w: nat, b: nat): nat {
    if b == 0 then w / 2 * 2 + 1 else SetBit(w / 2, b - 1) * 2 + w % 2
  }

  function Power2(n: nat): nat {
    if n == 0 then 1 else 2 * Power2(n - 1)
  }

  lemma Powers()
    ensures Power2(16) == 0x1_0000 && Power2(32) == 0x1_0000_0000
  {
    assert Power2(4) == 16;
    assert Power2(8) == 256;
    assert Power2(12) == 4096;
    assert Power2(16) == 0x1_0000;
    assert Power2(20) == 0x10_0000;
    assert Power2(24) == 0x100_0000;
    assert Power2(28) == 0x1000_0000;
  }

  predicate IsEmptyBranch(mask: Word, branch: Nibble) {
    !HasBit(mask, branch)
  }

  function WithBranch(mask: Word, branch: Nibble): Word {
    Powers();
    SetBitBound(mask, branch, 32);
    SetBit(mask, branch)
  }

  function Flags(mask: Word): (m: Mask)
    ensures |m| == 16 && forall b: Nibble :: m[b] == !IsEmptyBranch(mask, b)
  {
    seq(16, b requires 0 <= b < 16 => !IsEmptyBranch(mask, b))
  }

  /** Only the 16 low bits are ever used. */
  predicate Low(mask: Word) {
    mask < 0x1_0000
  }

  lemma {:induction false} SetBitBound(w: nat, b: nat, n: nat)
    requires b < n && w < Power2(n)
    ensures SetBit(w, b) < Power2(n)
  {
    assert w / 2 < Power2(n - 1);
    if b > 0 {
      SetBitBound(w / 2, b - 1, n - 1);
      assert SetBit(w / 2, b - 1) + 1 <= Power2(n - 1);
    }
  }

  lemma {:induction false} SetBitAt(w: nat, b: nat, c: nat)
    ensures HasBit(SetBit(w, b), c) == (c == b || HasBit(w, c))
  {
    if b > 0 && c > 0 {
      SetBitAt(w / 2, b - 1, c - 1);
      assert SetBit(w, b) / 2 == SetBit(w / 2, b - 1);
    }
  }

  lemma {:induction false} SameBits(w: nat, v: nat, n: nat)
    requires w < Power2(n) && v < Power2(n) && forall b :: 0 <= b < n ==> HasBit(w, b) == HasBit(v, b)
    ensures w == v
  {
    if n > 0 {
      assert HasBit(w, 0) == HasBit(v, 0);
      forall b | 0 <= b < n - 1 ensures HasBit(w / 2, b) == HasBit(v / 2, b) {
        assert HasBit(w, b + 1) == HasBit(v, b + 1);
      }
      SameBits(w / 2, v / 2, n - 1);
    }
  }

  lemma {:induction false} ZeroHasNoBit(b: nat)
    ensures !HasBit(0, b)
  {
    if b > 0 { ZeroHasNoBit(b - 1); }
  }

  lemma FreshMask()
    ensures Low(0) && Flags(0) == EmptyMask()
  {
    forall b: Nibble ensures !HasBit(0, b) { ZeroHasNoBit(b); }
  }

  /** Setting a bit sets that flag and no other, and stays within the 16 low bits. */
  lemma WithBranchSetsFlag(mask: Word, branch: Nibble)
    ensures Flags(WithBranch(mask, branch)) == Flags(mask)[branch := true]
    ensures Low(mask) ==> Low(WithBranch(mask, branch))
  {
    forall b: Nibble ensures HasBit(SetBit(mask, branch), b) == (b == branch || HasBit(mask, b)) {
      SetBitAt(mask, branch, b);
    }
    if Low(mask) {
      Powers();
      SetBitBound(mask, branch, 16);
    }
  }

  /** The b-th flag has the weight 2 to the b: that is what setting it adds. */
  lemma {:induction false} BitWeight(w: nat, b: nat)
    ensures SetBit(w, b) == if HasBit(w, b) then w else w + Power2(b)
  {
    if b > 0 { BitWeight(w / 2, b - 1); }
  }

  /** The flags lose nothing of a mask. */
  lemma FlagsDetermineMask(m: Word, n: Word)
    requires Low(m) && Low(n) && Flags(m) == Flags(n)
    ensures m == n
  {
    forall b | 0 <= b < 16 ensures HasBit(m, b) == HasBit(n, b) {
      assert Flags(m)[b] == Flags(n)[b];
    }
    Powers();
    SameBits(m, n, 16);
  }

  /** The mask with the first n flags of m set. */
  function WordOf(m: Mask, n: nat): Word
    requires n <= 16 <= |m|
  {
    if n == 0 then 0 else if m[n - 1] then WithBranch(WordOf(m, n - 1), n - 1) else WordOf(m, n - 1)
  }

  lemma {:induction false} FlagsOfWord(m: Mask, n: nat)
    requires n <= 16 == |m|
    ensures Low(WordOf(m, n)) && forall b: Nibble :: Flags(WordOf(m, n))[b] == (b < n && m[b])
  {
    if n == 0 {
      FreshMask();
    } else {
      FlagsOfWord(m, n - 1);
      WithBranchSetsFlag(WordOf(m, n - 1), n - 1);
    }
  }
}

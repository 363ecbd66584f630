/** Texts in a byte buffer. */
module Buffers {
  import opened BaseUint

  /** The buffer holds s from a position on. */
  ghost predicate Shows(a: array<Byte>, at: nat, s: seq<Byte>)
    reads a
  {
    at + |s| <= a.Length && forall k {:trigger s[k]} :: 0 <= k < |s| ==> a[at + k] == s[k]
  }

  /** It holds s and then NUL. */
  ghost predicate CStringAt(a: array<Byte>, at: nat, s: seq<Byte>)
    reads a
  {
    Shows(a, at, s) && at + |s| < a.Length && a[at + |s|] == 0
  }

  /** And s is a text. */
  ghost predicate LineAt(a: array<Byte>, at: nat, s: seq<Byte>)
    reads a
  {
    CStringAt(a, at, s) && forall k {:trigger s[k]} :: 0 <= k < |s| ==> s[k] != 0
  }

  lemma LineRest(a: array<Byte>, at: nat, s: seq<Byte>, n: nat)
    requires LineAt(a, at, s) && n <= |s|
    ensures LineAt(a, at + n, s[n..])
    ensures a[at + n] == if n < |s| then s[n] else 0
  {
  }
}

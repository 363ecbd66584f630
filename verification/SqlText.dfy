/** SQL quoting: literals written with every quote doubled, in a file or in a growing buffer. */
module SqlText {
  import opened Types
  import opened BaseUint
  import opened Csv
  import opened CsvExport
  import opened CText
  import opened Buffers

  function Quoted(z: Field, quote: Byte): seq<Byte> {
    [quote] + Doubled(z, quote) + [quote]
  }

  // ---- reading literals ----

  /** Reads a literal after its opening quote: its text and what follows, or None if it does not end. */
  function ReadLiteral(s: seq<Byte>, quote: Byte): Option<(Field, seq<Byte>)>
    decreases |s|
  {
    if s == [] then None
    else if s[0] != quote then Prepend(s[0], ReadLiteral(s[1..], quote))
    else if |s| > 1 && s[1] == quote then Prepend(quote, ReadLiteral(s[2..], quote))
    else Some(([], s[1..]))
  }

  function Prepend(c: Byte, r: Option<(Field, seq<Byte>)>): Option<(Field, seq<Byte>)> {
    if r.None? then None else Some(([c] + r.value.0, r.value.1))
  }

  /** A quoted text is one literal, whose text it is, wherever no further quote follows it. */
  lemma {:induction false} LiteralReadsBack(z: Field, quote: Byte, tail: seq<Byte>)
    requires tail == [] || tail[0] != quote
    ensures ReadLiteral(Doubled(z, quote) + [quote] + tail, quote) == Some((z, tail))
  {
    var after := [quote] + tail;
    assert Doubled(z, quote) + [quote] + tail == Doubled(z, quote) + after;
    if z == [] {
      assert Doubled(z, quote) + after == after && after[1..] == tail;
    } else {
      var more := Doubled(z[1..], quote) + [quote] + tail;
      LiteralReadsBack(z[1..], quote, tail);
      assert [z[0]] + z[1..] == z;
      if z[0] == quote {
        assert Doubled(z, quote) + after == [quote, quote] + more && ([quote, quote] + more)[2..] == more;
      } else {
        assert Doubled(z, quote) + after == [z[0]] + more && ([z[0]] + more)[1..] == more;
      }
    }
  }

  // ---- writing them to a file ----

  lemma {:induction false} NothingToDouble(z: Field, i: nat, quote: Byte)
    requires i <= |z| && forall k :: 0 <= k < i ==> z[k] != quote
    ensures Doubled(z, quote) == z[..i] + Doubled(z[i..], quote)
  {
    if i == 0 {
      assert z[0..] == z;
    } else {
      NothingToDouble(z[1..], i - 1, quote);
      assert z[1..][i - 1..] == z[i..] && z[..i] == [z[0]] + z[1..][..i - 1];
    }
  }

  /** The distance to the next apostrophe, or to the end. */
  method FindApostrophe(z: Field, p: nat) returns (i: nat)
    requires p <= |z|
    ensures p + i <= |z| && (p + i == |z| || z[p + i] == APOSTROPHE)
    ensures forall k :: p <= k < p + i ==> z[k] != APOSTROPHE
  {
    i := 0;
    while p + i < |z| && z[p + i] != APOSTROPHE
      invariant p + i <= |z| && forall k :: p <= k < p + i ==> z[k] != APOSTROPHE
    {
      i := i + 1;
    }
  }

  /** Writes a literal piece by piece, from one apostrophe to the next. */
  method OutputQuotedString(out: TextFile, z: Field)
    requires NulFree(z)
    modifies out
    ensures out.bytes == old(out.bytes) + Quoted(z, APOSTROPHE)
    ensures out.bytes == old(out.bytes) + ([39] + Doubled(z, 39) + [39])
  {
    var singles := 0;
    for i := 0 to |z|
      invariant singles == 0 <==> forall k :: 0 <= k < i ==> z[k] != APOSTROPHE
      invariant singles >= 0
    {
      if z[i] == APOSTROPHE {
        singles := singles + 1;
      }
    }
    if singles == 0 {
      NothingToDouble(z, |z|, APOSTROPHE);
      out.Put([APOSTROPHE] + z + [APOSTROPHE]);
    } else {
      out.Put([APOSTROPHE]);
      OutputPieces(out, z);
      out.Put([APOSTROPHE]);
    }
  }

  lemma NextPiece(z: Field, p: nat, i: nat)
    requires p + i <= |z| && forall k :: p <= k < p + i ==> z[k] != APOSTROPHE
    ensures p + i == |z| ==> Doubled(z[p..], APOSTROPHE) == z[p..]
    ensures p + i < |z| && z[p + i] == APOSTROPHE ==>
      Doubled(z[p..], APOSTROPHE) == z[p..p + i] + [APOSTROPHE, APOSTROPHE] + Doubled(z[p + i + 1..], APOSTROPHE)
  {
    NothingToDouble(z[p..], i, APOSTROPHE);
    assert z[p..][i..] == z[p + i..] && z[p..][..i] == z[p..p + i];
    if p + i < |z| {
      assert z[p + i..][1..] == z[p + i + 1..];
    }
  }

  method OutputPieces(out: TextFile, z: Field)
    modifies out
    ensures out.bytes == old(out.bytes) + Doubled(z, APOSTROPHE)
  {
    var p := 0;
    ghost var rest := Doubled(z, APOSTROPHE);
    while p < |z|
      invariant p <= |z| && rest == Doubled(z[p..], APOSTROPHE)
      invariant out.bytes + rest == old(out.bytes) + Doubled(z, APOSTROPHE)
      decreases |z| - p
    {
      var i := FindApostrophe(z, p);
      NextPiece(z, p, i);
      if i == 0 {
        assert z[p..p] == [];
        out.Put([APOSTROPHE, APOSTROPHE]);
        p := p + 1;
      } else if p + i < |z| {
        out.Put(z[p..p + i] + [APOSTROPHE, APOSTROPHE]);
        p := p + i + 1;
      } else {
        out.Put(z[p..]);
        return;
      }
      rest := Doubled(z[p..], APOSTROPHE);
    }
  }

  // ---- appending them to a buffer ----

  /** The text appended: as it is, or quoted if a quote is given. */
  function Appended(z: Field, quote: Byte): seq<Byte> {
    if quote == 0 then z else Quoted(z, quote)
  }

  function Count(z: Field, quote: Byte): nat {
    if z == [] then 0 else (if z[|z| - 1] == quote then 1 else 0) + Count(z[..|z| - 1], quote)
  }

  lemma {:induction false} DoubledSnoc(z: Field, c: Byte, quote: Byte)
    ensures Doubled(z + [c], quote) == Doubled(z, quote) + if c == quote then [quote, quote] else [c]
  {
    if z == [] {
      assert z + [c] == [c] && [c][1..] == [];
    } else {
      assert (z + [c])[1..] == z[1..] + [c];
      DoubledSnoc(z[1..], c, quote);
    }
  }

  lemma DoubledTake(z: Field, i: nat, quote: Byte)
    requires i < |z|
    ensures Doubled(z[..i + 1], quote) == Doubled(z[..i], quote) + if z[i] == quote then [quote, quote] else [z[i]]
    ensures Count(z[..i + 1], quote) == Count(z[..i], quote) + if z[i] == quote then 1 else 0
  {
    assert z[..i + 1] == z[..i] + [z[i]] && z[..i + 1][..i] == z[..i];
    DoubledSnoc(z[..i], z[i], quote);
  }

  lemma {:induction false} DoubledLength(z: Field, i: nat, quote: Byte)
    requires i <= |z|
    ensures |Doubled(z[..i], quote)| == i + Count(z[..i], quote)
  {
    if i > 0 {
      DoubledLength(z, i - 1, quote);
      DoubledTake(z, i - 1, quote);
    }
  }

  /** The space a text takes when quoted, with the terminating NUL. */
  method SpaceFor(z: Field, used: nat, quote: Byte) returns (len: nat)
    ensures len == used + |Appended(z, quote)| + 1
  {
    len := |z| + used + 1;
    if quote != 0 {
      len := len + 2;
      for i := 0 to |z|
        invariant len == |z| + used + 3 + Count(z[..i], quote)
      {
        DoubledTake(z, i, quote);
        if z[i] == quote {
          len := len + 1;
        }
      }
      assert z[..|z|] == z;
      DoubledLength(z, |z|, quote);
    }
  }

  /** Writes a character at a position of the buffer, twice if it is the quote. */
  method PutDoubled(a: array<Byte>, at: nat, c: Byte, quote: Byte, ghost start: nat, ghost done: seq<Byte>)
    returns (csr: nat)
    requires Shows(a, start, done) && at == start + |done| && at + (if c == quote then 2 else 1) <= a.Length
    modifies a
    ensures csr == at + (if c == quote then 2 else 1)
    ensures Shows(a, start, done + if c == quote then [quote, quote] else [c])
    ensures forall k :: 0 <= k < start ==> a[k] == old(a[k])
  {
    a[at] := c;
    csr := at + 1;
    if c == quote {
      a[csr] := quote;
      csr := csr + 1;
    }
  }

  /** What is written of a quoted text after i of its characters. */
  ghost function QuotedSoFar(z: Field, i: nat, quote: Byte): seq<Byte>
    requires i <= |z|
  {
    [quote] + Doubled(z[..i], quote)
  }

  lemma QuotedGoesOn(z: Field, i: nat, quote: Byte)
    requires i < |z|
    ensures QuotedSoFar(z, i + 1, quote) == QuotedSoFar(z, i, quote) + if z[i] == quote then [quote, quote] else [z[i]]
    ensures |QuotedSoFar(z, i + 1, quote)| < |Quoted(z, quote)|
  {
    DoubledTake(z, i, quote);
    DoubledGrows(z, i + 1, quote);
    assert [quote] + (Doubled(z[..i], quote) + if z[i] == quote then [quote, quote] else [z[i]])
        == QuotedSoFar(z, i, quote) + if z[i] == quote then [quote, quote] else [z[i]];
  }

  /** Writes a quoted text at a position of the buffer, and returns the position after it. */
  method PutQuotedAt(a: array<Byte>, start: nat, z: Field, quote: Byte) returns (csr: nat)
    requires start + |Quoted(z, quote)| <= a.Length
    modifies a
    ensures csr == start + |Quoted(z, quote)| && Shows(a, start, Quoted(z, quote))
    ensures forall k :: 0 <= k < start ==> a[k] == old(a[k])
  {
    a[start] := quote;
    csr := start + 1;
    ghost var done := [quote];
    assert done == QuotedSoFar(z, 0, quote);
    for i := 0 to |z|
      invariant done == QuotedSoFar(z, i, quote) && csr == start + |done| && Shows(a, start, done)
      invariant forall k :: 0 <= k < start ==> a[k] == old(a[k])
    {
      QuotedGoesOn(z, i, quote);
      csr := PutDoubled(a, csr, z[i], quote, start, done);
      done := QuotedSoFar(z, i + 1, quote);
    }
    assert z[..|z|] == z && Quoted(z, quote) == done + [quote];
    a[csr] := quote;
    csr := csr + 1;
  }

  lemma DoubledGrows(z: Field, i: nat, quote: Byte)
    requires i <= |z|
    ensures |Doubled(z[..i], quote)| <= |Doubled(z, quote)|
    decreases |z| - i
  {
    if i < |z| {
      DoubledTake(z, i, quote);
      DoubledGrows(z, i + 1, quote);
    } else {
      assert z[..i] == z;
    }
  }

  method CopyAt(a: array<Byte>, start: nat, z: Field)
    requires start + |z| <= a.Length
    modifies a
    ensures Shows(a, start, z) && forall k :: 0 <= k < start ==> a[k] == old(a[k])
  {
    forall i | 0 <= i < |z| {
      a[start + i] := z[i];
    }
  }

  method PutAt(a: array<Byte>, start: nat, z: Field, quote: Byte) returns (csr: nat)
    requires start + |Appended(z, quote)| <= a.Length
    modifies a
    ensures csr == start + |Appended(z, quote)| && Shows(a, start, Appended(z, quote))
    ensures forall k :: 0 <= k < start ==> a[k] == old(a[k])
  {
    if quote != 0 {
      csr := PutQuotedAt(a, start, z, quote);
    } else {
      CopyAt(a, start, z);
      csr := start + |z|;
    }
  }

  /** Appends a text to a C string in a buffer that is made exactly large enough. */
  method AppendText(zIn: seq<Byte>, zAppend: Field, quote: Byte) returns (a: array<Byte>)
    requires NulFree(zIn) && NulFree(zAppend)
    ensures fresh(a) && a.Length == |zIn| + |Appended(zAppend, quote)| + 1
    ensures CStringAt(a, 0, zIn + Appended(zAppend, quote))
    ensures CStringAt(a, 0, zIn + if quote == 0 then zAppend else [quote] + Doubled(zAppend, quote) + [quote])
  {
    var len := SpaceFor(zAppend, |zIn|, quote);
    a := new Byte[len](i => 0);
    CopyAt(a, 0, zIn);
    var csr := PutAt(a, |zIn|, zAppend, quote);
    assert csr == len - 1;
    a[csr] := 0;
  }
}

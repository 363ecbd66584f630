/** 256-bit values: 32 bytes, their hexadecimal text, and their 64 branch numbers. */
module BaseUint {
  import opened Types

  type Byte = b: int | 0 <= b < 256

  const WIDTH: nat := 32

  /** The bytes of a 256-bit value. */
  type Bytes = s: seq<Byte> | |s| == 32 witness seq(32, i => 0)

  predicate IsHex(a: char) {
    '0' <= a <= '9' || 'a' <= a <= 'f' || 'A' <= a <= 'F'
  }

  function HexToDecimal(a: char): (d: Nibble)
    requires IsHex(a)
  {
    if a <= '9' && a >= '0' then a as int - '0' as int
    else if a <= 'f' && a >= 'a' then a as int - 'a' as int + 10
    else a as int - 'A' as int + 10
  }

  /** The digit that `%x` prints. */
  function HexDigit(n: Nibble): (a: char)
    ensures IsHex(a) && HexToDecimal(a) == n && a != '\0'
  {
    if n < 10 then (n + '0' as int) as char else (n - 10 + 'a' as int) as char
  }

  /** Digits are printed in lower case, and read in either. */
  lemma HexLetters(n: Nibble)
    ensures HexDigit(n) == "0123456789abcdef"[n]
    ensures var a := "0123456789ABCDEF"[n]; IsHex(a) && HexToDecimal(a) == n
  {
  }

  /** `%02x`. */
  function Hex(b: Byte): string {
    [HexDigit(b / 16), HexDigit(b % 16)]
  }

  function ToHex(s: seq<Byte>): string {
    if s == [] then "" else Hex(s[0]) + ToHex(s[1..])
  }

  ghost predicate AllHex(s: string) {
    forall i :: 0 <= i < |s| ==> IsHex(s[i])
  }

  /** The byte that digits 2i and 2i+1 spell. */
  function HexByte(s: string, i: nat): (b: Byte)
    requires 2 * i + 1 < |s| && IsHex(s[2 * i]) && IsHex(s[2 * i + 1])
  {
    Pair(HexToDecimal(s[2 * i]), HexToDecimal(s[2 * i + 1]))
  }

  /** The branch a key takes at a depth: the high half of a byte at even depths, the low half at odd ones. */
  function SelectBranch(s: Bytes, depth: nat): (n: Nibble)
    requires depth < 64
  {
    var byte := s[depth / 2];
    if depth % 2 == 1 then byte % 16 else byte / 16
  }

  /** A 256-bit value as its branches. */
  function KeyOf(s: Bytes): (k: Key)
    ensures forall d :: 0 <= d < 64 ==> k[d] == SelectBranch(s, d)
  {
    seq(64, d requires 0 <= d < 64 => SelectBranch(s, d))
  }

  function Pair(high: Nibble, low: Nibble): (b: Byte)
    ensures b / 16 == high && b % 16 == low
  {
    var h: int := high;
    16 * h + low
  }

  function BytesOf(k: Key): (s: Bytes)
    ensures forall i :: 0 <= i < 32 ==> s[i] == Pair(k[2 * i], k[2 * i + 1])
  {
    seq(32, i requires 0 <= i < 32 => Pair(k[2 * i], k[2 * i + 1]))
  }

  /** Bytes and branches determine each other. */
  lemma BytesOfKey(s: Bytes)
    ensures BytesOf(KeyOf(s)) == s
  {
    forall i | 0 <= i < 32 ensures BytesOf(KeyOf(s))[i] == s[i] {
      BranchesOfByte(s, i);
    }
  }

  lemma BranchesOfByte(s: Bytes, i: nat)
    requires i < 32
    ensures Pair(SelectBranch(s, 2 * i), SelectBranch(s, 2 * i + 1)) == s[i]
  {
    assert 2 * i / 2 == i && (2 * i + 1) / 2 == i;
  }

  lemma KeyOfBytes(k: Key)
    ensures KeyOf(BytesOf(k)) == k
  {
    forall d | 0 <= d < 64 ensures KeyOf(BytesOf(k))[d] == k[d] {
      assert BytesOf(k)[d / 2] == Pair(k[2 * (d / 2)], k[2 * (d / 2) + 1]);
    }
  }

  lemma SameBytesSameKey(s: Bytes, t: Bytes)
    ensures s == t <==> KeyOf(s) == KeyOf(t)
  {
    BytesOfKey(s);
    BytesOfKey(t);
  }

  lemma {:induction false} ToHexAt(s: seq<Byte>, i: nat)
    requires i < |s|
    ensures |ToHex(s)| == 2 * |s|
    ensures ToHex(s)[2 * i] == HexDigit(s[i] / 16) && ToHex(s)[2 * i + 1] == HexDigit(s[i] % 16)
  {
    if |s| == 1 {
      assert ToHex(s) == Hex(s[0]) + "";
    } else {
      ToHexAt(s[1..], if i == 0 then 0 else i - 1);
    }
  }

  /** Path agreement: the d-th hexadecimal digit of a key names the branch taken at depth d. */
  lemma HexDigitIsBranch(s: Bytes, d: nat)
    requires d < 64
    ensures |ToHex(s)| == 64
    ensures IsHex(ToHex(s)[d]) && HexToDecimal(ToHex(s)[d]) == SelectBranch(s, d) == KeyOf(s)[d]
  {
    ToHexAt(s, d / 2);
    assert d == 2 * (d / 2) || d == 2 * (d / 2) + 1;
  }

  /** Reading back the printed digits gives the bytes. */
  lemma HexByteOfHex(s: Bytes, i: nat)
    requires i < 32
    ensures |ToHex(s)| == 64 && AllHex(ToHex(s)) && HexByte(ToHex(s), i) == s[i]
  {
    ToHexAt(s, i);
    forall d | 0 <= d < 64 ensures IsHex(ToHex(s)[d]) { HexDigitIsBranch(s, d); }
  }

  /** Different values have different texts, so the store's text keys do not merge digests. */
  lemma ToHexInjective(s: Bytes, t: Bytes)
    ensures ToHex(s) == ToHex(t) <==> s == t
  {
    if ToHex(s) == ToHex(t) {
      forall i | 0 <= i < 32 ensures s[i] == t[i] {
        HexByteOfHex(s, i);
        HexByteOfHex(t, i);
      }
    }
  }

  /** The characters before the first NUL, as when a C buffer becomes a string. */
  function CString(s: seq<char>): string {
    if s == [] || s[0] == '\0' then "" else [s[0]] + CString(s[1..])
  }

  lemma {:induction false} CStringStops(s: string, rest: seq<char>)
    requires (forall i :: 0 <= i < |s| ==> s[i] != '\0') && |rest| > 0 && rest[0] == '\0'
    ensures CString(s + rest) == s
  {
    if s == [] {
      assert s + rest == rest;
    } else {
      assert (s + rest)[1..] == s[1..] + rest;
      CStringStops(s[1..], rest);
    }
  }

  class Uint256 {
    const data: array<Byte>

    ghost predicate Valid()
      reads this
    {
      data.Length == WIDTH
    }

    function Value(): Bytes
      requires Valid()
      reads this, data
    {
      data[..]
    }

    constructor ()
      ensures Valid() && fresh(data) && Value() == seq(32, i => 0)
    {
      data := new Byte[WIDTH](i => 0);
    }

    method Zero()
      requires Valid()
      modifies data
      ensures KeyOf(Value()) == ZeroKey()
    {
      for i := 0 to WIDTH
        invariant forall j :: 0 <= j < i ==> data[j] == 0
      {
        data[i] := 0;
      }
    }

    /** Copies 32 bytes. */
    method Init(ch: seq<Byte>)
      requires Valid() && |ch| >= WIDTH
      modifies data
      ensures Value() == ch[..32]
    {
      for i := 0 to WIDTH
        invariant data[..i] == ch[..i]
      {
        data[i] := ch[i];
      }
    }

    /** Reads 64 hexadecimal digits. */
    method BinaryInit(ch: string)
      requires Valid() && |ch| >= 64 && forall i :: 0 <= i < 64 ==> IsHex(ch[i])
      modifies data
      ensures forall i :: 0 <= i < 32 ==> Value()[i] == HexByte(ch, i)
    {
      for i := 0 to WIDTH
        invariant forall j :: 0 <= j < i ==> data[j] == HexByte(ch, j)
      {
        var a, b := 2 * i, 2 * i + 1;
        var high: int := HexToDecimal(ch[a]);
        data[i] := high * 16 + HexToDecimal(ch[b]);
      }
    }

    /** Prints 64 hexadecimal digits into a buffer, each pair with its terminating NUL. */
    method ToString() returns (s: string)
      requires Valid()
      ensures s == ToHex(Value())
    {
      var res := new char[1000];
      for i := 0 to WIDTH
        invariant forall j {:trigger data[j]} ::
          0 <= j < i ==> res[2 * j] == HexDigit(data[j] / 16) && res[2 * j + 1] == HexDigit(data[j] % 16)
      {
        res[2 * i], res[2 * i + 1], res[2 * i + 2] := HexDigit(data[i] / 16), HexDigit(data[i] % 16), '\0';
      }
      res[2 * WIDTH] := '\0';
      forall d | 0 <= d < 64 ensures |ToHex(data[..])| == 64 && res[d] == ToHex(data[..])[d] && res[d] != '\0' {
        assert data[d / 2] == data[..][d / 2];
        ToHexAt(data[..], d / 2);
        assert d == 2 * (d / 2) || d == 2 * (d / 2) + 1;
      }
      assert res[0] == ToHex(data[..])[0];
      assert res[..] == ToHex(data[..]) + res[64..];
      CStringStops(ToHex(data[..]), res[64..]);
      s := CString(res[..]);
    }

    /** Printing and reading back restores every value. */
    method RoundTrip(other: Uint256)
      requires Valid() && other.Valid() && data != other.data
      modifies other.data
      ensures other.Value() == Value()
    {
      var s := ToString();
      forall i | 0 <= i < 32
        ensures |ToHex(Value())| == 64 && AllHex(ToHex(Value())) && HexByte(ToHex(Value()), i) == Value()[i]
      {
        HexByteOfHex(Value(), i);
      }
      assert Value()[0] == data[0];
      other.BinaryInit(s);
    }

    /** Compares byte by byte: equal exactly when the two keys take the same branches. */
    method Equals(other: Uint256) returns (r: bool)
      requires Valid() && other.Valid()
      ensures r <==> KeyOf(Value()) == KeyOf(other.Value())
    {
      SameBytesSameKey(Value(), other.Value());
      for i := 0 to WIDTH
        invariant data[..i] == other.data[..i]
      {
        if data[i] != other.data[i] {
          assert Value()[i] != other.Value()[i];
          return false;
        }
      }
      r := true;
    }
  }
}

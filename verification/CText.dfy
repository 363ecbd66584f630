/** C-style quoting: the printer, the unescaper and the tokenizer of command lines, as functions on texts. */
module CText {
  import opened BaseUint
  import opened Csv

  const BACKSLASH: Byte := 92
  const APOSTROPHE: Byte := 39

  // ---- printing ----

  predicate IsPrint(b: Byte) {
    32 <= b <= 126
  }

  function OctalDigit(n: int): Byte
    requires 0 <= n < 8
  {
    48 + n
  }

  /** What is printed for one character. */
  function Escape(b: Byte): seq<Byte> {
    if b == BACKSLASH || b == QUOTE then [BACKSLASH, b]
    else if b == 9 then [BACKSLASH, 116]
    else if b == 10 then [BACKSLASH, 110]
    else if b == 13 then [BACKSLASH, 114]
    else if !IsPrint(b) then [BACKSLASH, OctalDigit(b / 64), OctalDigit(b / 8 % 8), OctalDigit(b % 8)]
    else [b]
  }

  function Escaped(z: Field): seq<Byte> {
    if z == [] then [] else Escape(z[0]) + Escaped(z[1..])
  }

  function CQuoted(z: Field): seq<Byte> {
    [QUOTE] + Escaped(z) + [QUOTE]
  }

  // ---- unescaping ----

  predicate IsOctal(b: Byte) {
    48 <= b <= 55
  }

  /** One to three octal digits: their value in a byte, and how many there are. */
  function Octal(s: seq<Byte>): (r: (Byte, nat))
    requires s != [] && IsOctal(s[0])
    ensures 1 <= r.1 <= |s|
  {
    var a: int := s[0] - 48;
    if |s| > 1 && IsOctal(s[1]) then
      var b: int := 8 * a + (s[1] - 48);
      if |s| > 2 && IsOctal(s[2]) then ((8 * b + (s[2] - 48)) % 256, 3) else (b, 2)
    else (a, 1)
  }

  /** The character a letter after a backslash stands for. */
  function Meaning(b: Byte): Byte {
    if b == 97 then 7 else if b == 98 then 8 else if b == 116 then 9 else if b == 110 then 10
    else if b == 118 then 11 else if b == 102 then 12 else if b == 114 then 13 else b
  }

  /** The next character of a text, and how much of the text it takes. */
  function NextChar(s: seq<Byte>): (r: (Byte, nat))
    requires s != []
    ensures 1 <= r.1 <= |s|
  {
    if s[0] == BACKSLASH && |s| > 1 then
      if IsOctal(s[1]) then
        var (c, k) := Octal(s[1..]);
        (c, k + 1)
      else (Meaning(s[1]), 2)
    else (s[0], 1)
  }

  function Unescape(s: seq<Byte>): (r: seq<Byte>)
    ensures |r| <= |s|
    decreases |s|
  {
    if s == [] then [] else
      var (c, k) := NextChar(s);
      [c] + Unescape(s[k..])
  }

  // ---- tokens ----

  predicate IsSpace(b: Byte) {
    9 <= b <= 13 || b == 32
  }

  function SkipSpaces(s: seq<Byte>): (r: seq<Byte>)
    ensures r != [] ==> !IsSpace(r[0])
  {
    if s != [] && IsSpace(s[0]) then SkipSpaces(s[1..]) else s
  }

  /** How far a quoted token reaches: up to its delimiter, or to the end of the text. */
  function QuotedLength(s: seq<Byte>, delim: Byte): (n: nat)
    ensures n <= |s|
    decreases |s|
  {
    if s == [] || s[0] == delim then 0
    else if s[0] == BACKSLASH && delim == QUOTE && |s| > 1 then 2 + QuotedLength(s[2..], delim)
    else 1 + QuotedLength(s[1..], delim)
  }

  function WordLength(s: seq<Byte>): (n: nat)
    ensures n <= |s|
  {
    if s == [] || IsSpace(s[0]) then 0 else 1 + WordLength(s[1..])
  }

  function After(s: seq<Byte>, n: nat): seq<Byte>
    requires n <= |s|
  {
    if n == |s| then [] else s[n + 1..]
  }

  /** The token at the start of a text, as the C string it ends up as, and what follows it. */
  function FirstToken(s: seq<Byte>): (r: (Field, seq<Byte>))
    requires s != []
  {
    if s[0] == APOSTROPHE then
      var n := QuotedLength(s[1..], APOSTROPHE);
      (s[1..][..n], After(s[1..], n))
    else if s[0] == QUOTE then
      var n := QuotedLength(s[1..], QUOTE);
      (UpToNul(Unescape(s[1..][..n])), After(s[1..], n))
    else
      var n := WordLength(s);
      (UpToNul(Unescape(s[..n])), After(s, n))
  }

  /** The tokens of a line, at most k of them. */
  function Tokens(line: seq<Byte>, k: nat): seq<Field>
    decreases k
  {
    var s := SkipSpaces(line);
    if s == [] || k == 0 then [] else [FirstToken(s).0] + Tokens(FirstToken(s).1, k - 1)
  }

  // ---- the round trip ----

  lemma OctalReadsBack(b: Byte, s: seq<Byte>)
    ensures Octal([OctalDigit(b / 64), OctalDigit(b / 8 % 8), OctalDigit(b % 8)] + s) == (b, 3)
  {
    assert 64 * (b / 64) + 8 * (b / 8 % 8) + b % 8 == b;
  }

  lemma UnescapeOne(b: Byte, s: seq<Byte>)
    ensures NextChar(Escape(b) + s) == (b, |Escape(b)|)
    ensures Unescape(Escape(b) + s) == [b] + Unescape(s)
  {
    var e := Escape(b);
    assert (e + s)[|e|..] == s;
    if |e| == 4 {
      assert (e + s)[1..] == [OctalDigit(b / 64), OctalDigit(b / 8 % 8), OctalDigit(b % 8)] + s;
      OctalReadsBack(b, s);
    }
  }

  lemma {:induction false} UnescapeEscaped(z: Field)
    ensures Unescape(Escaped(z)) == z
  {
    if z != [] {
      UnescapeOne(z[0], Escaped(z[1..]));
      UnescapeEscaped(z[1..]);
    }
  }

  lemma ScanOne(b: Byte, s: seq<Byte>)
    ensures QuotedLength(Escape(b) + s, QUOTE) == |Escape(b)| + QuotedLength(s, QUOTE)
  {
    var e := Escape(b);
    if |e| == 1 {
      assert (e + s)[1..] == s;
    } else {
      assert (e + s)[2..] == e[2..] + s;
      if |e| == 4 {
        assert (e[2..] + s)[1..] == e[3..] + s && (e[3..] + s)[1..] == s;
        assert QuotedLength(e[3..] + s, QUOTE) == 1 + QuotedLength(s, QUOTE);
        assert QuotedLength(e[2..] + s, QUOTE) == 2 + QuotedLength(s, QUOTE);
      } else {
        assert e[2..] + s == s;
      }
    }
  }

  lemma {:induction false} ScanEscaped(z: Field, tail: seq<Byte>)
    ensures QuotedLength(Escaped(z) + [QUOTE] + tail, QUOTE) == |Escaped(z)|
  {
    if z == [] {
      assert Escaped(z) + [QUOTE] + tail == [QUOTE] + tail;
    } else {
      var s := Escaped(z[1..]) + [QUOTE] + tail;
      assert Escaped(z) + [QUOTE] + tail == Escape(z[0]) + s;
      ScanOne(z[0], s);
      ScanEscaped(z[1..], tail);
    }
  }

  /** A printed string is read as one token, which is the string. */
  lemma QuotedTokenReadsBack(z: Field, tail: seq<Byte>)
    requires NulFree(z)
    ensures FirstToken(CQuoted(z) + tail) == (z, tail)
  {
    var line := CQuoted(z) + tail;
    assert line[1..] == Escaped(z) + [QUOTE] + tail;
    ScanEscaped(z, tail);
    assert line[1..][..|Escaped(z)|] == Escaped(z);
    assert After(line[1..], |Escaped(z)|) == tail;
    UnescapeEscaped(z);
    UpToNulStops(z);
  }

  lemma NextToken(line: seq<Byte>, z: Field, tail: seq<Byte>, k: nat)
    requires NulFree(z) && k > 0 && line == [32] + (CQuoted(z) + tail)
    ensures Tokens(line, k) == [z] + Tokens(tail, k - 1)
  {
    var s := CQuoted(z) + tail;
    assert line[1..] == s && SkipSpaces(s) == s && SkipSpaces(line) == s;
    QuotedTokenReadsBack(z, tail);
  }

  /** The printed strings, each after a space. */
  function Printed(zs: seq<Field>): seq<Byte> {
    if zs == [] then [] else [32] + (CQuoted(zs[0]) + Printed(zs[1..]))
  }

  /** Printing strings and tokenizing the line gives the strings back. */
  lemma {:induction false} TokensReadBack(zs: seq<Field>, k: nat)
    requires |zs| <= k && AllNulFree(zs)
    ensures Tokens(Printed(zs), k) == zs
  {
    if zs != [] {
      AllNulFreeRest(zs);
      NextToken(Printed(zs), zs[0], Printed(zs[1..]), k);
      TokensReadBack(zs[1..], k - 1);
    }
  }
}

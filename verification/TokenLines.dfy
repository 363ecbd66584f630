/** What the shell makes of a command line: blanks, bare words, and tokens in apostrophes or quotes; what escapes
    stand for; and which characters are printed as escapes. */
module TokenLines {
  import opened BaseUint
  import opened Csv
  import opened CText

  // ---- escapes ----

  /** A text is unescaped one character after the other. */
  lemma OneByOne(e: seq<Byte>, s: seq<Byte>)
    requires e != [] && NextChar(e + s).1 == |e|
    ensures Unescape(e + s) == [NextChar(e + s).0] + Unescape(s)
  {
    assert (e + s)[|e|..] == s;
  }

  /** A character without a backslash stands for itself, and so does a backslash at the end. */
  lemma PlainMeans(c: Byte, s: seq<Byte>)
    requires c != 92 || s == []
    ensures NextChar([c] + s) == (c, 1)
  {
  }

  lemma {:induction false} NothingToUnescape(x: seq<Byte>)
    requires 92 !in x
    ensures Unescape(x) == x
  {
    if x != [] {
      assert [x[0]] + x[1..] == x;
      PlainMeans(x[0], x[1..]);
      OneByOne([x[0]], x[1..]);
      NothingToUnescape(x[1..]);
    }
  }

  /** After a backslash, the letters a, b, t, n, v, f and r stand for the controls 7 to 13, and every other
      character that is not an octal digit for itself. */
  lemma LetterMeans(c: Byte, s: seq<Byte>)
    requires !(48 <= c <= 55)
    ensures NextChar([92, c] + s).1 == 2
    ensures c in [97, 98, 116, 110, 118, 102, 114] ==>
      exists i :: 0 <= i < 7 && [97, 98, 116, 110, 118, 102, 114][i] == c && NextChar([92, c] + s).0 == 7 + i
    ensures c !in [97, 98, 116, 110, 118, 102, 114] ==> NextChar([92, c] + s).0 == c
  {
    var letters := [97, 98, 116, 110, 118, 102, 114];
    assert letters[0] == 97 && letters[1] == 98 && letters[2] == 116 && letters[3] == 110;
    assert letters[4] == 118 && letters[5] == 102 && letters[6] == 114;
  }

  function DigitOf(b: Byte): int {
    b - 48
  }

  predicate OctalAt(t: seq<Byte>, i: nat) {
    i < |t| && 48 <= t[i] <= 55
  }

  /** One to three octal digits after a backslash, as many as there are, stand for their value, in one byte. */
  lemma DigitsMean(t: seq<Byte>)
    requires OctalAt(t, 0)
    ensures var (c, k) := NextChar([92] + t);
      if !OctalAt(t, 1) then k == 2 && c == DigitOf(t[0])
      else if !OctalAt(t, 2) then k == 3 && c == 8 * DigitOf(t[0]) + DigitOf(t[1])
      else k == 4 && c == (64 * DigitOf(t[0]) + 8 * DigitOf(t[1]) + DigitOf(t[2])) % 256
  {
    assert ([92] + t)[1..] == t;
  }

  // ---- printing ----

  ghost predicate Visible(z: seq<Byte>) {
    forall i :: 0 <= i < |z| ==> 32 <= z[i] <= 126
  }

  lemma PrintedChar(b: Byte)
    ensures Visible(Escape(b))
    ensures |Escape(b)| == 1 <==> 32 <= b <= 126 && b != 34 && b != 92
    ensures |Escape(b)| == 2 <==> b == 9 || b == 10 || b == 13 || b == 34 || b == 92
    ensures |Escape(b)| == 1 ==> Escape(b) == [b]
    ensures |Escape(b)| != 1 ==> Escape(b)[0] == 92
  {
    assert 0 <= b / 64 < 8 && 0 <= b / 8 % 8 < 8 && 0 <= b % 8 < 8;
  }

  /** What is printed is visible ASCII, and it is the text itself exactly if that is, without quotes and
      backslashes. */
  lemma {:induction false} PrintedAsIs(z: Field)
    ensures Visible(Escaped(z)) && |Escaped(z)| >= |z|
    ensures Escaped(z) == z <==> Visible(z) && 34 !in z && 92 !in z
  {
    if z != [] {
      PrintedChar(z[0]);
      PrintedAsIs(z[1..]);
      assert z == [z[0]] + z[1..];
      if Escaped(z) == z {
        assert |Escape(z[0])| == 1;
        assert Escaped(z)[1..] == Escaped(z[1..]);
      }
    }
  }

  // ---- tokens ----

  predicate IsBlank(b: Byte) {
    b == 9 || b == 10 || b == 11 || b == 12 || b == 13 || b == 32
  }

  ghost predicate Blanks(s: seq<Byte>) {
    forall i :: 0 <= i < |s| ==> IsBlank(s[i])
  }

  ghost predicate NoBlanks(s: seq<Byte>) {
    forall i :: 0 <= i < |s| ==> !IsBlank(s[i])
  }

  /** A character of a token in quotes, or an escape. */
  datatype Piece = Char(c: Byte) | Slashed(c: Byte)

  ghost predicate PieceOk(p: Piece) {
    p.Char? ==> p.c != 34 && p.c != 92
  }

  ghost predicate PiecesOk(ps: seq<Piece>) {
    forall i {:trigger ps[i]} :: 0 <= i < |ps| ==> PieceOk(ps[i])
  }

  function PieceText(p: Piece): seq<Byte> {
    if p.Char? then [p.c] else [92, p.c]
  }

  function Spelled(ps: seq<Piece>): seq<Byte> {
    if ps == [] then [] else PieceText(ps[0]) + Spelled(ps[1..])
  }

  /** An argument as it is written. */
  datatype Arg =
    | Word(w: seq<Byte>)
    | InApostrophes(x: seq<Byte>)
    | InQuotes(ps: seq<Piece>)

  ghost predicate ArgOk(a: Arg) {
    match a
    case Word(w) => w != [] && NoBlanks(w) && w[0] != 34 && w[0] != 39
    case InApostrophes(x) => 39 !in x
    case InQuotes(ps) => PiecesOk(ps)
  }

  function ArgText(a: Arg): seq<Byte> {
    match a
    case Word(w) => w
    case InApostrophes(x) => [39] + x + [39]
    case InQuotes(ps) => [34] + Spelled(ps) + [34]
  }

  /** What it stands for: escapes count in words and in quotes, not between apostrophes. */
  function ArgValue(a: Arg): Field {
    match a
    case Word(w) => UpToNul(Unescape(w))
    case InApostrophes(x) => x
    case InQuotes(ps) => UpToNul(Unescape(Spelled(ps)))
  }

  lemma {:induction false} SkipsBlanks(blanks: seq<Byte>, s: seq<Byte>)
    requires Blanks(blanks)
    ensures SkipSpaces(blanks + s) == SkipSpaces(s)
  {
    if blanks == [] {
      assert blanks + s == s;
    } else {
      assert IsBlank(blanks[0]) && (blanks + s)[1..] == blanks[1..] + s;
      SkipsBlanks(blanks[1..], s);
    }
  }

  lemma {:induction false} WordReaches(w: seq<Byte>, rest: seq<Byte>)
    requires NoBlanks(w) && (rest == [] || IsBlank(rest[0]))
    ensures WordLength(w + rest) == |w|
  {
    if w == [] {
      assert w + rest == rest;
    } else {
      assert !IsBlank(w[0]) && (w + rest)[1..] == w[1..] + rest;
      WordReaches(w[1..], rest);
    }
  }

  lemma {:induction false} ApostropheReaches(x: seq<Byte>, rest: seq<Byte>)
    requires 39 !in x && (rest == [] || rest[0] == 39)
    ensures QuotedLength(x + rest, 39) == |x|
    decreases |x|
  {
    if x == [] {
      assert x + rest == rest;
    } else {
      assert (x + rest)[1..] == x[1..] + rest;
      ApostropheReaches(x[1..], rest);
    }
  }

  lemma Assoc(a: seq<Byte>, b: seq<Byte>, c: seq<Byte>)
    ensures a + b + c == a + (b + c)
  {
  }

  lemma {:induction false} QuoteReaches(ps: seq<Piece>, rest: seq<Byte>)
    requires PiecesOk(ps) && (rest == [] || rest[0] == 34)
    ensures QuotedLength(Spelled(ps) + rest, 34) == |Spelled(ps)|
    decreases |ps|
  {
    if ps == [] {
      assert Spelled(ps) + rest == rest;
    } else {
      assert PieceOk(ps[0]);
      QuoteReaches(ps[1..], rest);
      PieceReaches(ps[0], Spelled(ps[1..]) + rest);
      Assoc(PieceText(ps[0]), Spelled(ps[1..]), rest);
    }
  }

  lemma PieceReaches(p: Piece, more: seq<Byte>)
    requires PieceOk(p)
    ensures QuotedLength(PieceText(p) + more, 34) == |PieceText(p)| + QuotedLength(more, 34)
  {
    assert (PieceText(p) + more)[|PieceText(p)|..] == more;
  }

  /** What follows an argument on a line: a word needs a blank or the end of the line. */
  ghost predicate Ends(a: Arg, rest: seq<Byte>) {
    a.Word? ==> rest == [] || IsBlank(rest[0])
  }

  lemma FirstWord(w: seq<Byte>, rest: seq<Byte>)
    requires ArgOk(Word(w)) && Ends(Word(w), rest)
    ensures FirstToken(w + rest) == (UpToNul(Unescape(w)), if rest != [] then rest[1..] else rest)
  {
    WordReaches(w, rest);
    assert (w + rest)[..|w|] == w && (rest != [] ==> (w + rest)[|w| + 1..] == rest[1..]);
  }

  /** An argument is the first token of a line that starts with it. A word also takes the blank after it. */
  lemma FirstIs(a: Arg, rest: seq<Byte>)
    requires ArgOk(a) && Ends(a, rest)
    ensures FirstToken(ArgText(a) + rest) == (ArgValue(a), if a.Word? && rest != [] then rest[1..] else rest)
  {
    match a
    case Word(w) =>
      FirstWord(w, rest);
    case InApostrophes(x) =>
      ApostropheReaches(x, [39] + rest);
      FirstBetween(39, x, [39] + rest, rest);
      Assoc([39] + x, [39], rest);
      Assoc([39], x, [39] + rest);
    case InQuotes(ps) =>
      QuoteReaches(ps, [34] + rest);
      FirstBetween(34, Spelled(ps), [34] + rest, rest);
      Assoc([34] + Spelled(ps), [34], rest);
      Assoc([34], Spelled(ps), [34] + rest);
  }

  lemma FirstBetween(delim: Byte, x: seq<Byte>, end: seq<Byte>, rest: seq<Byte>)
    requires (delim == 34 || delim == 39) && QuotedLength(x + end, delim) == |x| && end == [delim] + rest
    ensures FirstToken([delim] + (x + end)) == (if delim == 39 then x else UpToNul(Unescape(x)), rest)
  {
    var s := x + end;
    assert ([delim] + s)[1..] == s && s[..|x|] == x && s[|x| + 1..] == rest;
  }

  lemma FirstUnclosed(delim: Byte, x: seq<Byte>)
    requires (delim == 34 || delim == 39) && QuotedLength(x, delim) == |x|
    ensures FirstToken([delim] + x) == (if delim == 39 then x else UpToNul(Unescape(x)), [])
  {
    assert ([delim] + x)[1..] == x && x[..|x|] == x;
  }

  /** A line of blanks has no tokens. */
  lemma NoTokens(blanks: seq<Byte>, k: nat)
    requires Blanks(blanks)
    ensures Tokens(blanks, k) == []
  {
    assert blanks + [] == blanks;
    SkipsBlanks(blanks, []);
  }

  /** Blanks before a token do not matter. */
  lemma BlanksDoNotMatter(blanks: seq<Byte>, s: seq<Byte>, k: nat)
    requires Blanks(blanks)
    ensures Tokens(blanks + s, k) == Tokens(s, k)
  {
    SkipsBlanks(blanks, s);
  }

  lemma TokenThenRest(blanks: seq<Byte>, s: seq<Byte>, t: Field, rest: seq<Byte>, k: nat)
    requires Blanks(blanks) && s != [] && !IsBlank(s[0]) && FirstToken(s) == (t, rest) && k > 0
    ensures Tokens(blanks + s, k) == [t] + Tokens(rest, k - 1)
  {
    SkipsBlanks(blanks, s);
    assert SkipSpaces(s) == s;
  }

  lemma ArgStarts(a: Arg, rest: seq<Byte>)
    requires ArgOk(a)
    ensures var s := ArgText(a) + rest; s != [] && !IsBlank(s[0])
  {
  }

  /** The first token of a line, and the tokens that follow. */
  lemma ArgThenRest(blanks: seq<Byte>, a: Arg, rest: seq<Byte>, k: nat)
    requires Blanks(blanks) && ArgOk(a) && Ends(a, rest) && k > 0
    ensures Tokens(blanks + (ArgText(a) + rest), k) == [ArgValue(a)] + Tokens(rest, k - 1)
  {
    var s := ArgText(a) + rest;
    FirstIs(a, rest);
    ArgStarts(a, rest);
    if a.Word? && rest != [] {
      TokenThenRest(blanks, s, ArgValue(a), rest[1..], k);
      assert rest == [rest[0]] + rest[1..];
      BlanksDoNotMatter([rest[0]], rest[1..], k - 1);
    } else {
      TokenThenRest(blanks, s, ArgValue(a), rest, k);
    }
  }

  lemma UnclosedToken(delim: Byte, blanks: seq<Byte>, x: seq<Byte>, t: Field, k: nat)
    requires Blanks(blanks) && (delim == 34 || delim == 39) && QuotedLength(x, delim) == |x| && k > 0
    requires t == if delim == 39 then x else UpToNul(Unescape(x))
    ensures Tokens(blanks + ([delim] + x), k) == [t]
  {
    FirstUnclosed(delim, x);
    TokenThenRest(blanks, [delim] + x, t, [], k);
    NoTokens([], k - 1);
  }

  /** A token whose apostrophe is never closed reaches to the end of the line. */
  lemma UnclosedApostrophe(blanks: seq<Byte>, x: seq<Byte>, k: nat)
    requires Blanks(blanks) && 39 !in x && k > 0
    ensures Tokens(blanks + ([39] + x), k) == [x]
  {
    ApostropheReaches(x, []);
    assert x + [] == x;
    UnclosedToken(39, blanks, x, x, k);
  }

  /** So does one whose quote is never closed. */
  lemma UnclosedQuote(blanks: seq<Byte>, ps: seq<Piece>, k: nat)
    requires Blanks(blanks) && PiecesOk(ps) && k > 0
    ensures Tokens(blanks + ([34] + Spelled(ps)), k) == [UpToNul(Unescape(Spelled(ps)))]
  {
    QuoteReaches(ps, []);
    assert Spelled(ps) + [] == Spelled(ps);
    UnclosedToken(34, blanks, Spelled(ps), UpToNul(Unescape(Spelled(ps))), k);
  }

  // ---- whole lines ----

  /** An argument and the blanks before it. */
  datatype Part = Part(blanks: seq<Byte>, arg: Arg)

  /** There are blanks between a word and what follows it. */
  ghost predicate PartOk(parts: seq<Part>, i: nat)
    requires i < |parts|
  {
    && Blanks(parts[i].blanks) && ArgOk(parts[i].arg)
    && (i > 0 && parts[i - 1].arg.Word? ==> parts[i].blanks != [])
  }

  ghost predicate LineOk(parts: seq<Part>, end: seq<Byte>) {
    Blanks(end) && forall i {:trigger PartOk(parts, i)} :: 0 <= i < |parts| ==> PartOk(parts, i)
  }

  function LineOf(parts: seq<Part>, end: seq<Byte>): seq<Byte> {
    if parts == [] then end else parts[0].blanks + (ArgText(parts[0].arg) + LineOf(parts[1..], end))
  }

  function ArgValues(parts: seq<Part>): (r: seq<Field>)
    ensures |r| == |parts| && forall i :: 0 <= i < |r| ==> r[i] == ArgValue(parts[i].arg)
  {
    seq(|parts|, i requires 0 <= i < |parts| => ArgValue(parts[i].arg))
  }

  lemma RestOk(parts: seq<Part>, end: seq<Byte>)
    requires LineOk(parts, end) && parts != []
    ensures LineOk(parts[1..], end) && Ends(parts[0].arg, LineOf(parts[1..], end))
    ensures Blanks(parts[0].blanks) && ArgOk(parts[0].arg)
  {
    var rest := parts[1..];
    assert PartOk(parts, 0);
    forall i | 0 <= i < |rest| ensures PartOk(rest, i) {
      assert PartOk(parts, i + 1);
    }
    if parts[0].arg.Word? {
      if rest == [] {
        assert LineOf(rest, end) == end;
      } else {
        assert PartOk(parts, 1) && LineOf(rest, end)[0] == parts[1].blanks[0];
      }
    }
  }

  /** Up to k of these texts. */
  function UpTo(vs: seq<Field>, k: nat): seq<Field> {
    if |vs| <= k then vs else vs[..k]
  }

  lemma OneOfThem(v: Field, vs: seq<Field>, k: nat)
    requires k > 0
    ensures UpTo([v] + vs, k) == [v] + UpTo(vs, k - 1)
  {
  }

  /** A line of arguments, with blanks around them, is split into what the arguments stand for; beyond the first k
      they are dropped. */
  lemma {:induction false} LineSplits(parts: seq<Part>, end: seq<Byte>, line: seq<Byte>, k: nat, tokens: seq<Field>)
    requires LineOk(parts, end) && line == LineOf(parts, end) && tokens == Tokens(line, k)
    ensures tokens == UpTo(ArgValues(parts), k)
    decreases |parts|
  {
    if parts == [] {
      NoTokens(line, k);
    } else if k == 0 {
      assert UpTo(ArgValues(parts), k) == [];
    } else {
      var rest, more := LineStep(parts, end, line, k, tokens);
      LineSplits(parts[1..], end, rest, k - 1, more);
      OneOfThem(ArgValue(parts[0].arg), ArgValues(parts[1..]), k);
    }
  }

  lemma LineStep(parts: seq<Part>, end: seq<Byte>, line: seq<Byte>, k: nat, tokens: seq<Field>)
    returns (rest: seq<Byte>, more: seq<Field>)
    requires LineOk(parts, end) && parts != [] && k > 0 && line == LineOf(parts, end) && tokens == Tokens(line, k)
    ensures rest == LineOf(parts[1..], end) && more == Tokens(rest, k - 1) && tokens == [ArgValue(parts[0].arg)] + more
    ensures LineOk(parts[1..], end) && ArgValues(parts) == [ArgValue(parts[0].arg)] + ArgValues(parts[1..])
  {
    RestOk(parts, end);
    rest := LineOf(parts[1..], end);
    ArgThenRest(parts[0].blanks, parts[0].arg, rest, k);
    LaterArgs(parts);
    more := Tokens(rest, k - 1);
  }

  /** The arguments of a C string are C strings. */
  lemma {:induction false} ArgsAreTexts(parts: seq<Part>, end: seq<Byte>)
    requires 0 !in LineOf(parts, end)
    ensures AllNulFree(ArgValues(parts))
    decreases |parts|
  {
    if parts != [] {
      var text, more := ArgText(parts[0].arg), LineOf(parts[1..], end);
      forall c | c in text ensures c in LineOf(parts, end) {
        assert c in text + more;
      }
      forall c | c in more ensures c in LineOf(parts, end) {
        assert c in text + more;
      }
      ArgIsText(parts[0].arg);
      ArgsAreTexts(parts[1..], end);
      LaterArgs(parts);
      OneMoreText(ArgValue(parts[0].arg), ArgValues(parts[1..]));
    }
  }

  lemma ArgIsText(a: Arg)
    requires 0 !in ArgText(a)
    ensures NulFree(ArgValue(a))
  {
    match a
    case Word(w) => UpToNulStops(Unescape(w));
    case InApostrophes(x) =>
      forall i | 0 <= i < |x| ensures x[i] != 0 {
        assert ArgText(a)[i + 1] == x[i];
      }
    case InQuotes(ps) => UpToNulStops(Unescape(Spelled(ps)));
  }

  lemma OneMoreText(v: Field, vs: seq<Field>)
    requires NulFree(v) && AllNulFree(vs)
    ensures AllNulFree([v] + vs)
  {
    forall i | 0 <= i < |vs| + 1 ensures NulFree(([v] + vs)[i]) {
      assert i > 0 ==> NulFree(vs[i - 1]);
    }
  }

  lemma LaterArgs(parts: seq<Part>)
    requires parts != []
    ensures ArgValues(parts) == [ArgValue(parts[0].arg)] + ArgValues(parts[1..])
  {
  }
}

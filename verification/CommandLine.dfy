/** Printing quoted strings, and splitting a command line into tokens in place. */
module CommandLine {
  import opened BaseUint
  import opened Csv
  import opened CsvExport
  import opened CText
  import opened TokenLines
  import opened Buffers

  method OutputCString(out: TextFile, z: Field)
    requires NulFree(z)
    modifies out
    ensures out.bytes == old(out.bytes) + CQuoted(z)
    ensures Visible(z) && 34 !in z && 92 !in z ==> out.bytes == old(out.bytes) + ([34] + z + [34])
  {
    PrintedAsIs(z);
    out.Put([QUOTE]);
    OutputEscaped(out, z);
    out.Put([QUOTE]);
  }

  method OutputEscaped(out: TextFile, z: Field)
    modifies out
    ensures out.bytes == old(out.bytes) + Escaped(z)
  {
    ghost var done: seq<Byte> := [];
    for i := 0 to |z|
      invariant done == Escaped(z[..i]) && out.bytes == old(out.bytes) + done
    {
      EscapedTake(z, i);
      OutputChar(out, z[i]);
      done := Escaped(z[..i + 1]);
    }
    assert z[..|z|] == z;
  }

  lemma EscapedTake(z: Field, i: nat)
    requires i < |z|
    ensures Escaped(z[..i + 1]) == Escaped(z[..i]) + Escape(z[i])
  {
    assert z[..i + 1] == z[..i] + [z[i]];
    EscapedSnoc(z[..i], z[i]);
  }

  lemma {:induction false} EscapedSnoc(z: Field, c: Byte)
    ensures Escaped(z + [c]) == Escaped(z) + Escape(c)
  {
    if z == [] {
      assert Escaped([]) == [] && [c][1..] == [];
    } else {
      assert (z + [c])[1..] == z[1..] + [c];
      EscapedSnoc(z[1..], c);
    }
  }

  method OutputChar(out: TextFile, c: Byte)
    modifies out
    ensures out.bytes == old(out.bytes) + Escape(c)
  {
    if c == BACKSLASH {
      out.Put([c]);
      out.Put([c]);
    } else if c == QUOTE {
      out.Put([BACKSLASH]);
      out.Put([QUOTE]);
    } else if c == 9 {
      out.Put([BACKSLASH]);
      out.Put([116]);
    } else if c == 10 {
      out.Put([BACKSLASH]);
      out.Put([110]);
    } else if c == 13 {
      out.Put([BACKSLASH]);
      out.Put([114]);
    } else if !IsPrint(c) {
      out.Put([BACKSLASH, OctalDigit(c / 64), OctalDigit(c / 8 % 8), OctalDigit(c % 8)]);
    } else {
      out.Put([c]);
    }
  }

  // ---- unescaping in place ----

  /** What has been written and what the rest of the text stands for. */
  ghost predicate Resolving(done: seq<Byte>, rest: seq<Byte>, r: seq<Byte>) {
    done + Unescape(rest) == r
  }

  lemma ResolvesOn(done: seq<Byte>, rest: seq<Byte>, r: seq<Byte>)
    requires rest != [] && Resolving(done, rest, r)
    ensures var (c, k) := NextChar(rest); Resolving(done + [c], rest[k..], r)
  {
    var (c, k) := NextChar(rest);
    assert done + ([c] + Unescape(rest[k..])) == done + [c] + Unescape(rest[k..]);
  }

  lemma ResolvedAll(done: seq<Byte>, rest: seq<Byte>, r: seq<Byte>)
    requires rest == [] && Resolving(done, rest, r)
    ensures done == r
  {
  }

  /** Reads the character at i, which may be escaped. */
  method ResolveOne(a: array<Byte>, i: nat, ghost s: seq<Byte>) returns (c: Byte, next: nat)
    requires s != [] && LineAt(a, i, s)
    ensures i < next <= i + |s| && (c, next - i) == NextChar(s)
  {
    c, next := a[i], i + 1;
    assert s[0] == c;
    LineRest(a, i, s, 1);
    if c == BACKSLASH && a[next] != 0 {
      c, next := a[next], next + 1;
      LineRest(a, i, s, 2);
      if c == 97 {
        c := 7;
      } else if c == 98 {
        c := 8;
      } else if c == 116 {
        c := 9;
      } else if c == 110 {
        c := 10;
      } else if c == 118 {
        c := 11;
      } else if c == 102 {
        c := 12;
      } else if c == 114 {
        c := 13;
      } else if IsOctal(c) {
        c, next := ResolveOctal(a, i + 1, s[1..]);
      }
    }
  }

  method ResolveOctal(a: array<Byte>, i: nat, ghost s: seq<Byte>) returns (c: Byte, next: nat)
    requires s != [] && LineAt(a, i, s) && IsOctal(s[0])
    ensures i < next <= i + |s| && (c, next - i) == Octal(s)
  {
    assert a[i] == s[0];
    LineRest(a, i, s, 1);
    var v: int := a[i] - 48;
    next := i + 1;
    if IsOctal(a[next]) {
      v, next := 8 * v + (a[next] - 48), next + 1;
      LineRest(a, i, s, 2);
      if IsOctal(a[next]) {
        v, next := 8 * v + (a[next] - 48), next + 1;
      }
    }
    c := v % 256;
  }

  /** One turn: reads a character at i and writes it at j, which i has reached or passed. */
  method ResolveTurn(a: array<Byte>, i: nat, j: nat, ghost start: nat, ghost done: seq<Byte>, ghost rest: seq<Byte>)
    returns (next: nat, ghost c: Byte)
    requires rest != [] && LineAt(a, i, rest) && Shows(a, start, done) && j == start + |done| <= i
    modifies a
    ensures (c, next - i) == NextChar(rest) && i < next <= i + |rest|
    ensures LineAt(a, next, rest[next - i..]) && Shows(a, start, done + [c])
    ensures forall k :: 0 <= k < a.Length && k != j ==> a[k] == old(a[k])
  {
    var d;
    d, next := ResolveOne(a, i, rest);
    LineRest(a, i, rest, next - i);
    a[j] := d;
    c := d;
  }

  /** Ends the text at j, before the end of the original at i. */
  method EndText(a: array<Byte>, i: nat, j: nat, ghost start: nat, ghost done: seq<Byte>)
    requires Shows(a, start, done) && j == start + |done| <= i < a.Length && a[i] == 0
    modifies a
    ensures CStringAt(a, start, done)
    ensures forall k :: 0 <= k < start || i <= k < a.Length ==> a[k] == old(a[k])
  {
    if j < i {
      a[j] := 0;
    }
  }

  /** Replaces the escapes of a text by what they stand for. The write index never passes the read index, so
      what has not been read is as it was, and nothing outside the text changes. */
  method ResolveBackslashes(a: array<Byte>, start: nat, ghost text: seq<Byte>)
    requires LineAt(a, start, text)
    modifies a
    ensures forall k :: 0 <= k < start || start + |text| <= k < a.Length ==> a[k] == old(a[k])
    ensures CStringAt(a, start, Unescape(text))
  {
    ghost var r := Unescape(text);
    ghost var done, rest;
    var z;
    z, done, rest := SkipPlain(a, start, text);
    var i, j := z, z;
    ghost var ok := Resolving(done, rest, r);
    while a[i] != 0
      invariant j == start + |done| <= i && i + |rest| == start + |text|
      invariant Shows(a, start, done) && LineAt(a, i, rest)
      invariant ok && ok == Resolving(done, rest, r)
      invariant forall k :: 0 <= k < start || start + |text| <= k < a.Length ==> a[k] == old(a[k])
      decreases |rest|
    {
      LineRest(a, i, rest, 0);
      ResolvesOn(done, rest, r);
      ghost var c;
      var next;
      next, c := ResolveTurn(a, i, j, start, done, rest);
      done, rest := done + [c], rest[next - i..];
      i, j := next, j + 1;
      ok := Resolving(done, rest, r);
    }
    LineRest(a, i, rest, 0);
    ResolvedAll(done, rest, r);
    EndText(a, i, j, start, done);
  }

  /** Finds the first backslash of a text, or its end. */
  method SkipPlain(a: array<Byte>, start: nat, ghost text: seq<Byte>)
    returns (z: nat, ghost done: seq<Byte>, ghost rest: seq<Byte>)
    requires LineAt(a, start, text)
    ensures z == start + |done| && |done| + |rest| == |text|
    ensures Shows(a, start, done) && LineAt(a, z, rest) && Resolving(done, rest, Unescape(text))
  {
    z := start;
    while a[z] != 0 && a[z] != BACKSLASH
      invariant start <= z <= start + |text|
      invariant forall k :: 0 <= k < z - start ==> text[k] != BACKSLASH
      decreases start + |text| - z
    {
      LineRest(a, start, text, z - start);
      z := z + 1;
    }
    done, rest := text[..z - start], text[z - start..];
    LineRest(a, start, text, z - start);
    PlainRun(text, z - start);
  }

  lemma {:induction false} PlainRun(text: seq<Byte>, n: nat)
    requires n <= |text| && forall k :: 0 <= k < n ==> text[k] != BACKSLASH
    ensures Resolving(text[..n], text[n..], Unescape(text))
  {
    if n == 0 {
      assert text[0..] == text;
    } else {
      PlainRun(text, n - 1);
      ResolvesOn(text[..n - 1], text[n - 1..], Unescape(text));
      assert text[n - 1..][1..] == text[n..] && text[..n - 1] + [text[n - 1]] == text[..n];
    }
  }

  // ---- tokens ----

  /** Finds where a quoted token ends, stepping over what a backslash protects. */
  method FindDelimiter(a: array<Byte>, at: nat, delim: Byte, ghost s: seq<Byte>) returns (e: nat)
    requires LineAt(a, at, s) && delim != 0
    ensures e == at + QuotedLength(s, delim)
  {
    e := at;
    ghost var rest := s;
    LineRest(a, e, rest, 0);
    while a[e] != 0 && a[e] != delim
      invariant LineAt(a, e, rest) && a[e] == (if rest == [] then 0 else rest[0])
      invariant e + QuotedLength(rest, delim) == at + QuotedLength(s, delim)
      decreases |rest|
    {
      LineRest(a, e, rest, 1);
      if a[e] == BACKSLASH && delim == QUOTE && a[e + 1] != 0 {
        LineRest(a, e, rest, 2);
        assert rest[1..][1..] == rest[2..];
        rest := rest[1..];
        e := e + 1;
      }
      rest := rest[1..];
      e := e + 1;
    }
  }

  method FindSpace(a: array<Byte>, at: nat, ghost s: seq<Byte>) returns (e: nat)
    requires LineAt(a, at, s)
    ensures e == at + WordLength(s)
  {
    e := at;
    ghost var rest := s;
    LineRest(a, e, rest, 0);
    while a[e] != 0 && !IsSpace(a[e])
      invariant LineAt(a, e, rest) && a[e] == (if rest == [] then 0 else rest[0])
      invariant e + WordLength(rest) == at + WordLength(s)
      decreases |rest|
    {
      LineRest(a, e, rest, 1);
      rest := rest[1..];
      e := e + 1;
    }
  }

  method SkipBlanks(a: array<Byte>, from: nat, ghost s: seq<Byte>) returns (h: nat, ghost rest: seq<Byte>)
    requires LineAt(a, from, s)
    ensures rest == SkipSpaces(s) && from <= h && h + |rest| == from + |s| && LineAt(a, h, rest)
  {
    h, rest := from, s;
    LineRest(a, h, rest, 0);
    while IsSpace(a[h])
      invariant from <= h && h + |rest| == from + |s| && LineAt(a, h, rest) && a[h] == (if rest == [] then 0 else rest[0])
      invariant SkipSpaces(rest) == SkipSpaces(s)
      decreases |rest|
    {
      LineRest(a, h, rest, 1);
      rest := rest[1..];
      h := h + 1;
    }
  }

  /** Ends the token before e with a NUL, and returns where the line goes on. */
  method EndToken(a: array<Byte>, at: nat, e: nat, ghost s: seq<Byte>, ghost n: nat) returns (h: nat)
    requires LineAt(a, at, s) && n <= |s| && e == at + n
    modifies a
    ensures h == (if n < |s| then e + 1 else e)
    ensures LineAt(a, at, s[..n]) && LineAt(a, h, After(s, n))
    ensures forall k :: 0 <= k < at || h <= k < a.Length ==> a[k] == old(a[k])
  {
    h := e;
    LineRest(a, at, s, n);
    if a[e] != 0 {
      LineRest(a, at, s, n + 1);
      a[e] := 0;
      h := e + 1;
    }
  }

  /** Ends the token before e and replaces its escapes if asked to. */
  method FinishToken(a: array<Byte>, at: nat, e: nat, resolve: bool, ghost s: seq<Byte>, ghost n: nat) returns (h: nat)
    requires LineAt(a, at, s) && n <= |s| && e == at + n
    modifies a
    ensures h == (if n < |s| then e + 1 else e) && LineAt(a, h, After(s, n))
    ensures forall k :: 0 <= k < at || h <= k < a.Length ==> a[k] == old(a[k])
    ensures var text := if resolve then UpToNul(Unescape(s[..n])) else s[..n];
      |text| <= n && CStringAt(a, at, text)
  {
    ghost var token := s[..n];
    h := EndToken(a, at, e, s, n);
    if resolve {
      ResolveBackslashes(a, at, token);
      CutAtNul(a, at, Unescape(token));
    }
  }

  lemma CutAtNul(a: array<Byte>, at: nat, r: seq<Byte>)
    requires CStringAt(a, at, r)
    ensures CStringAt(a, at, UpToNul(r)) && |UpToNul(r)| <= |r|
  {
    UpToNulStops(r);
  }

  /** The C string at a position of the buffer is this text, and ends before h unless the line is used up. */
  ghost predicate Placed(a: array<Byte>, at: nat, text: Field, h: nat, m: nat)
    reads a
  {
    CStringAt(a, at, text) && (at + |text| < h || h == m)
  }

  /** Taking the token t at h leaves its text in the buffer at a position and the line to go on from h'. */
  ghost predicate Taken(a: array<Byte>, h: nat, t: (Field, seq<Byte>), at: nat, h': nat, m: nat)
    reads a
  {
    h < h' && h' + |t.1| == m && LineAt(a, h', t.1) && Placed(a, at, t.0, h', m)
  }

  /** After an opening quote at h, followed by u, of which the token takes n characters. */
  method ReadQuoted(a: array<Byte>, h: nat, ghost u: seq<Byte>, ghost n: nat, ghost m: nat) returns (at: nat, h': nat)
    requires h + 1 + |u| == m < a.Length && LineAt(a, h + 1, u) && (a[h] == APOSTROPHE || a[h] == QUOTE)
    requires n == QuotedLength(u, a[h])
    modifies a
    ensures at == h + 1 && h' == at + n + (if n < |u| then 1 else 0) && LineAt(a, h', After(u, n))
    ensures forall k :: 0 <= k < at || h' <= k < a.Length ==> a[k] == old(a[k])
    ensures var text := if old(a[h]) == QUOTE then UpToNul(Unescape(u[..n])) else u[..n];
      |text| <= n && CStringAt(a, at, text)
  {
    var delim := a[h];
    at := h + 1;
    var e := FindDelimiter(a, at, delim, u);
    h' := FinishToken(a, at, e, delim == QUOTE, u, n);
  }

  method ReadWord(a: array<Byte>, h: nat, ghost s: seq<Byte>, ghost m: nat, ghost t: (Field, seq<Byte>)) returns (h': nat)
    requires LineAt(a, h, s) && s != [] && !IsSpace(s[0]) && m == h + |s|
    requires t.0 == UpToNul(Unescape(s[..WordLength(s)])) && t.1 == After(s, WordLength(s))
    modifies a
    ensures Taken(a, h, t, h, h', m)
    ensures forall k :: 0 <= k < h || h' <= k < a.Length ==> a[k] == old(a[k])
  {
    var e := FindSpace(a, h, s);
    assert WordLength(s) > 0;
    h' := FinishToken(a, h, e, true, s, WordLength(s));
  }

  /** Takes the token that starts at h; its text is then a C string in the buffer. */
  method ReadToken(a: array<Byte>, h: nat, ghost s: seq<Byte>, ghost m: nat) returns (at: nat, h': nat)
    requires LineAt(a, h, s) && s != [] && !IsSpace(s[0]) && m == h + |s|
    modifies a
    ensures Taken(a, h, FirstToken(s), at, h', m)
    ensures forall k :: 0 <= k < h || h' <= k < a.Length ==> a[k] == old(a[k])
  {
    LineRest(a, h, s, 0);
    ghost var t := FirstToken(s);
    if a[h] == APOSTROPHE || a[h] == QUOTE {
      LineRest(a, h, s, 1);
      at, h' := ReadQuoted(a, h, s[1..], QuotedLength(s[1..], s[0]), m);
    } else {
      at := h;
      h' := ReadWord(a, h, s, m, t);
    }
  }

  /** How many arguments a command line can have. */
  const MAX_ARGS: nat := 50

  /** `Placed`, of the buffer's contents. */
  ghost predicate PlacedIn(buf: seq<Byte>, at: nat, text: Field, h: nat, m: nat) {
    && at + |text| < |buf| && buf[at + |text|] == 0 && (at + |text| < h || h == m)
    && forall k {:trigger text[k]} :: 0 <= k < |text| ==> buf[at + k] == text[k]
  }

  /** The tokens found so far are C strings in the buffer. */
  ghost predicate AllPlaced(buf: seq<Byte>, args: seq<nat>, texts: seq<Field>, h: nat, m: nat)
    decreases |args|
  {
    && |args| == |texts|
    && (args == [] ||
        var n := |args| - 1; AllPlaced(buf, args[..n], texts[..n], h, m) && PlacedIn(buf, args[n], texts[n], h, m))
  }

  /** Nothing before b or from h' on has changed. */
  ghost predicate ChangedBetween(buf: seq<Byte>, buf': seq<Byte>, b: nat, h': nat) {
    |buf| == |buf'| && forall k {:trigger buf'[k]} :: 0 <= k < |buf| && (k < b || h' <= k) ==> buf'[k] == buf[k]
  }

  lemma PlacedStays(buf: seq<Byte>, buf': seq<Byte>, at: nat, text: Field, h: nat, b: nat, h': nat, m: nat)
    requires PlacedIn(buf, at, text, h, m) && h < m && h <= b < h' <= m && ChangedBetween(buf, buf', b, h')
    ensures PlacedIn(buf', at, text, h', m)
  {
  }

  /** The tokens found so far and those of the rest of the line. */
  ghost predicate Splitting(texts: seq<Field>, line: seq<Byte>, all: seq<Field>, slots: nat) {
    |texts| <= slots && all == texts + Tokens(line, slots - |texts|)
  }

  lemma SplitsOn(texts: seq<Field>, line: seq<Byte>, all: seq<Field>, slots: nat)
    requires Splitting(texts, line, all, slots)
    ensures SkipSpaces(line) == [] || |texts| == slots ==> all == texts
    ensures SkipSpaces(line) != [] && |texts| < slots ==>
      var t := FirstToken(SkipSpaces(line)); Splitting(texts + [t.0], t.1, all, slots)
  {
    var k := slots - |texts|;
    if SkipSpaces(line) == [] || k == 0 {
      assert Tokens(line, k) == [];
    } else {
      var t := FirstToken(SkipSpaces(line));
      assert Tokens(line, k) == [t.0] + Tokens(t.1, k - 1);
      assert texts + ([t.0] + Tokens(t.1, k - 1)) == texts + [t.0] + Tokens(t.1, k - 1);
    }
  }

  lemma {:induction false} AllPlacedStays(buf: seq<Byte>, buf': seq<Byte>, args: seq<nat>, texts: seq<Field>,
                                          h: nat, b: nat, h': nat, m: nat)
    requires AllPlaced(buf, args, texts, h, m) && h < m && h <= b < h' <= m && ChangedBetween(buf, buf', b, h')
    ensures AllPlaced(buf', args, texts, h', m)
    decreases |args|
  {
    if args != [] {
      var n := |args| - 1;
      PlacedStays(buf, buf', args[n], texts[n], h, b, h', m);
      AllPlacedStays(buf, buf', args[..n], texts[..n], h, b, h', m);
    }
  }

  lemma AllPlacedAnd(buf: seq<Byte>, args: seq<nat>, texts: seq<Field>, at: nat, text: Field, h: nat, m: nat)
    requires AllPlaced(buf, args, texts, h, m) && PlacedIn(buf, at, text, h, m)
    ensures AllPlaced(buf, args + [at], texts + [text], h, m)
  {
    assert (args + [at])[..|args|] == args && (texts + [text])[..|texts|] == texts;
  }

  lemma {:induction false} AllPlacedAtEnd(buf: seq<Byte>, args: seq<nat>, texts: seq<Field>, h: nat, m: nat)
    requires AllPlaced(buf, args, texts, h, m)
    ensures AllPlaced(buf, args, texts, m, m)
    decreases |args|
  {
    if args != [] {
      AllPlacedAtEnd(buf, args[..|args| - 1], texts[..|args| - 1], h, m);
    }
  }

  lemma {:induction false} ArgIsPlaced(buf: seq<Byte>, args: seq<nat>, texts: seq<Field>, h: nat, m: nat, k: nat)
    requires AllPlaced(buf, args, texts, h, m) && k < |args|
    ensures PlacedIn(buf, args[k], texts[k], h, m)
    decreases |args|
  {
    if k < |args| - 1 {
      ArgIsPlaced(buf, args[..|args| - 1], texts[..|args| - 1], h, m, k);
    }
  }

  /** Where splitting a line stands: what is left of it is at h. */
  ghost predicate Progress(a: array<Byte>, h: nat, line: seq<Byte>, args: seq<nat>, texts: seq<Field>, all: seq<Field>,
                           slots: nat, m: nat)
    reads a
  {
    && h + |line| == m && LineAt(a, h, line) && |args| == |texts|
    && Splitting(texts, line, all, slots) && AllPlaced(a[..], args, texts, h, m)
  }

  /** Takes one more argument, if there is one. */
  method NextArg(a: array<Byte>, h: nat, args: seq<nat>, slots: nat,
                 ghost line: seq<Byte>, ghost texts: seq<Field>, ghost all: seq<Field>, ghost m: nat)
    returns (more: bool, h': nat, args': seq<nat>, ghost line': seq<Byte>, ghost texts': seq<Field>)
    requires Progress(a, h, line, args, texts, all, slots, m) && line != [] && |args| < slots
    modifies a
    ensures more ==> h < h' && Progress(a, h', line', args', texts', all, slots, m)
    ensures !more ==> args' == args && AllPlaced(a[..], args', all, m, m)
  {
    SplitsOn(texts, line, all, slots);
    ghost var s;
    var b;
    b, s := SkipBlanks(a, h, line);
    LineRest(a, b, s, 0);
    if a[b] == 0 {
      AllPlacedAtEnd(a[..], args, texts, h, m);
      return false, b, args, s, texts;
    }
    ghost var buf := a[..];
    var at, next := ReadToken(a, b, s, m);
    AllPlacedStays(buf, a[..], args, texts, h, b, next, m);
    AllPlacedAnd(a[..], args, texts, at, FirstToken(s).0, next, m);
    more, h', args', line', texts' := true, next, args + [at], FirstToken(s).1, texts + [FirstToken(s).0];
  }

  /** Splits the line after its first character: the arguments point into the line, which is cut up with NULs. */
  method Tokenize(a: array<Byte>, slots: nat, ghost text: seq<Byte>) returns (args: seq<nat>)
    requires LineAt(a, 1, text)
    modifies a
    ensures AllPlaced(a[..], args, Tokens(text, slots), |text| + 1, |text| + 1)
  {
    ghost var m, line := |text| + 1, text;
    ghost var texts: seq<Field> := [];
    ghost var all := Tokens(text, slots);
    var h := 1;
    args := [];
    ghost var ok := Progress(a, h, line, args, texts, all, slots, m);
    while a[h] != 0 && |args| < slots
      invariant 1 <= h && h + |line| == m < a.Length
      invariant ok && ok == Progress(a, h, line, args, texts, all, slots, m)
      decreases m - h
    {
      LineRest(a, h, line, 0);
      var more;
      more, h, args, line, texts := NextArg(a, h, args, slots, line, texts, all, m);
      if !more {
        return;
      }
      ok := Progress(a, h, line, args, texts, all, slots, m);
    }
    LineRest(a, h, line, 0);
    SplitsOn(texts, line, all, slots);
    AllPlacedAtEnd(a[..], args, texts, h, m);
  }

  // ---- printing and reading back ----

  lemma {:induction false} EscapedIsText(z: Field)
    ensures 0 !in Escaped(z)
  {
    if z != [] { EscapedIsText(z[1..]); }
  }

  lemma {:induction false} PrintedIsText(zs: seq<Field>)
    ensures 0 !in Printed(zs)
  {
    if zs != [] {
      EscapedIsText(zs[0]);
      PrintedIsText(zs[1..]);
    }
  }

  lemma {:induction false} UpToNulOf(text: Field, rest: seq<Byte>)
    requires NulFree(text) && rest != [] && rest[0] == 0
    ensures UpToNul(text + rest) == text
  {
    if text == [] {
      assert text + rest == rest;
    } else {
      assert (text + rest)[1..] == text[1..] + rest;
      UpToNulOf(text[1..], rest);
    }
  }

  lemma CStringIs(buf: seq<Byte>, at: nat, text: Field, m: nat)
    requires PlacedIn(buf, at, text, m, m) && NulFree(text)
    ensures UpToNul(buf[at..]) == text
  {
    var rest := buf[at + |text|..];
    assert buf[at..] == text + rest;
    UpToNulOf(text, rest);
  }

  method PrintOne(out: TextFile, z: Field)
    requires NulFree(z)
    modifies out
    ensures out.bytes == old(out.bytes) + ([32] + CQuoted(z))
  {
    out.Put([32]);
    OutputCString(out, z);
  }

  /** What is printed and what is left to print. */
  ghost predicate Printing(bytes: seq<Byte>, before: seq<Byte>, zs: seq<Field>, i: nat)
    requires i <= |zs|
  {
    bytes + Printed(zs[i..]) == before + Printed(zs)
  }

  lemma PrintsOn(bytes: seq<Byte>, before: seq<Byte>, zs: seq<Field>, i: nat)
    requires i < |zs| && Printing(bytes, before, zs, i)
    ensures Printing(bytes + ([32] + CQuoted(zs[i])), before, zs, i + 1)
  {
    var one, rest := [32] + CQuoted(zs[i]), Printed(zs[i + 1..]);
    assert zs[i..][1..] == zs[i + 1..];
    assert Printed(zs[i..]) == one + rest;
    assert bytes + (one + rest) == bytes + one + rest;
  }

  method PrintAll(out: TextFile, zs: seq<Field>)
    requires AllNulFree(zs)
    modifies out
    ensures out.bytes == old(out.bytes) + Printed(zs)
  {
    assert zs[0..] == zs;
    ghost var ok := Printing(out.bytes, out.bytes, zs, 0);
    for i := 0 to |zs|
      invariant ok && ok == Printing(out.bytes, old(out.bytes), zs, i)
    {
      PrintsOn(out.bytes, old(out.bytes), zs, i);
      assert NulFree(zs[i]);
      PrintOne(out, zs[i]);
      ok := Printing(out.bytes, old(out.bytes), zs, i + 1);
    }
    assert zs[|zs|..] == [];
  }

  /** A command line in a buffer of its own. */
  method LoadLine(text: seq<Byte>) returns (a: array<Byte>)
    requires text != [] && 0 !in text
    ensures fresh(a) && LineAt(a, 1, text[1..])
  {
    var all := text + [0];
    a := new Byte[|all|](i requires 0 <= i < |all| => all[i]);
  }

  lemma ArgsAre(buf: seq<Byte>, args: seq<nat>, texts: seq<Field>, m: nat)
    requires AllPlaced(buf, args, texts, m, m) && AllNulFree(texts)
    ensures |args| == |texts| && forall k :: 0 <= k < |texts| ==> args[k] <= |buf| && UpToNul(buf[args[k]..]) == texts[k]
  {
    forall k | 0 <= k < |texts| ensures args[k] <= |buf| && UpToNul(buf[args[k]..]) == texts[k] {
      ArgIsPlaced(buf, args, texts, m, m, k);
      assert NulFree(texts[k]);
      CStringIs(buf, args[k], texts[k], m);
    }
  }

  lemma SplitTexts(parts: seq<Part>, end: seq<Byte>, text: seq<Byte>, slots: nat, tokens: seq<Field>)
    requires LineOk(parts, end) && text == LineOf(parts, end) && 0 !in text && tokens == Tokens(text, slots)
    ensures AllNulFree(tokens) && |tokens| == if |parts| <= slots then |parts| else slots
    ensures forall k :: 0 <= k < |tokens| ==> tokens[k] == ArgValue(parts[k].arg)
  {
    LineSplits(parts, end, text, slots, tokens);
    ArgsAreTexts(parts, end);
    forall k | 0 <= k < |tokens| ensures NulFree(tokens[k]) {
      assert NulFree(ArgValues(parts)[k]);
    }
  }

  method Split(text: seq<Byte>, slots: nat, ghost parts: seq<Part>, ghost end: seq<Byte>)
    returns (line: array<Byte>, args: seq<nat>)
    requires text != [] && 0 !in text && LineOk(parts, end) && text[1..] == LineOf(parts, end)
    ensures |args| == if |parts| <= slots then |parts| else slots
    ensures forall k :: 0 <= k < |args| ==>
      args[k] <= line.Length && UpToNul(line[..][args[k]..]) == ArgValue(parts[k].arg)
  {
    line := LoadLine(text);
    ghost var rest := text[1..];
    ghost var tokens := Tokens(rest, slots);
    SplitTexts(parts, end, rest, slots, tokens);
    args := Tokenize(line, slots, rest);
    ArgsAre(line[..], args, tokens, |rest| + 1);
  }

  /** The arguments of a command line: what each argument on it stands for, up to fifty of them. */
  method SplitCommand(text: seq<Byte>, ghost parts: seq<Part>, ghost end: seq<Byte>)
    returns (line: array<Byte>, args: seq<nat>)
    requires text != [] && 0 !in text && LineOk(parts, end) && text[1..] == LineOf(parts, end)
    ensures |args| == if |parts| <= 50 then |parts| else 50
    ensures forall k :: 0 <= k < |args| ==>
      args[k] <= line.Length && UpToNul(line[..][args[k]..]) == ArgValue(parts[k].arg)
  {
    line, args := Split(text, MAX_ARGS, parts, end);
  }

  /** Strings printed on a command line come back, in order, as its arguments. */
  method PrintAndTokenize(zs: seq<Field>) returns (line: array<Byte>, args: seq<nat>)
    requires |zs| <= 50 && AllNulFree(zs)
    ensures |args| == |zs|
    ensures forall k :: 0 <= k < |zs| ==> args[k] <= line.Length && UpToNul(line[..][args[k]..]) == zs[k]
  {
    var out := new TextFile();
    out.Put([46]);
    PrintAll(out, zs);
    PrintedIsText(zs);
    assert out.bytes[1..] == Printed(zs);
    line := LoadLine(out.bytes);
    TokensReadBack(zs, MAX_ARGS);
    args := Tokenize(line, MAX_ARGS, Printed(zs));
    ArgsAre(line[..], args, zs, |Printed(zs)| + 1);
  }
}

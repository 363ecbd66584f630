/** Comma-separated text: what the exporter writes and what the importer makes of any text. */
module Csv {
  import opened Types
  import opened BaseUint

  type Field = seq<Byte>

  const QUOTE: Byte := 34
  const CR: Byte := 13
  const LF: Byte := 10
  /** What reading past the end gives. */
  const EOF: int := -1

  /** The text of a C string. */
  predicate NulFree(z: Field) {
    forall i :: 0 <= i < |z| ==> z[i] != 0
  }

  ghost predicate AllNulFree(zs: seq<Field>) {
    forall i {:trigger NulFree(zs[i])} :: 0 <= i < |zs| ==> NulFree(zs[i])
  }

  lemma AllNulFreeRest(zs: seq<Field>)
    requires AllNulFree(zs) && zs != []
    ensures NulFree(zs[0]) && AllNulFree(zs[1..])
  {
  }

  function UpToNul(z: Field): Field {
    if z == [] || z[0] == 0 then [] else [z[0]] + UpToNul(z[1..])
  }

  lemma {:induction false} UpToNulStops(z: Field)
    ensures var t := UpToNul(z); NulFree(t) && |t| <= |z| && t == z[..|t|] && (|t| < |z| ==> z[|t|] == 0)
    ensures NulFree(z) <==> UpToNul(z) == z
  {
    if z != [] && z[0] != 0 {
      UpToNulStops(z[1..]);
      var t := UpToNul(z[1..]);
      assert z[..|t| + 1] == [z[0]] + z[1..][..|t|];
      assert NulFree(z[1..]) ==> NulFree(z);
    }
  }

  /** What is bound for a field: its text as a C string, or NULL. */
  function Text(z: Option<Field>): Option<Field> {
    if z.None? then None else Some(UpToNul(z.value))
  }

  // ---- writing ----

  /** The table of characters that force quotes: controls, space, both quotes, and everything from 127 on. */
  predicate NeedsQuote(b: Byte) {
    b <= 32 || b == 34 || b == 39 || b >= 127
  }

  /** The column separator starts here; a longer separator is compared with the start of the field. */
  predicate SeparatorAt(z: Field, i: nat, separator: seq<Byte>)
    requires i < |z|
  {
    separator != [] && z[i] == separator[0] && (|separator| == 1 || separator <= z)
  }

  predicate MustQuote(z: Field, separator: seq<Byte>) {
    z == [] || exists i :: 0 <= i < |z| && (NeedsQuote(z[i]) || SeparatorAt(z, i, separator))
  }

  /** A text with each quote written twice. */
  function Doubled(z: Field, quote: Byte): seq<Byte> {
    if z == [] then [] else (if z[0] == quote then [quote, quote] else [z[0]]) + Doubled(z[1..], quote)
  }

  function CsvField(z: Field, separator: seq<Byte>): seq<Byte> {
    if MustQuote(z, separator) then [QUOTE] + Doubled(z, QUOTE) + [QUOTE] else z
  }

  /** A text written as it is: not empty, visible ASCII without quotes and apostrophes, and without the separator;
      of a longer separator, only one at the start of the text is seen. */
  ghost predicate NeedsNoQuotes(z: Field, separator: seq<Byte>) {
    && z != []
    && (forall i :: 0 <= i < |z| ==> 33 <= z[i] <= 126 && z[i] != 34 && z[i] != 39)
    && (|separator| == 1 ==> separator[0] !in z)
    && (|separator| > 1 ==> !(separator <= z))
  }

  /** Quotes are written exactly around the texts that need them. */
  lemma QuotedExactlyWhen(z: Field, separator: seq<Byte>)
    ensures CsvField(z, separator) == z <==> NeedsNoQuotes(z, separator)
    ensures !NeedsNoQuotes(z, separator) ==> CsvField(z, separator) == [34] + Doubled(z, 34) + [34]
  {
    LongerWhenDoubled(z, 34);
    if NeedsNoQuotes(z, separator) {
      forall i | 0 <= i < |z| ensures !NeedsQuote(z[i]) && !SeparatorAt(z, i, separator) {
      }
    } else if z != [] {
      if i :| 0 <= i < |z| && !(33 <= z[i] <= 126 && z[i] != 34 && z[i] != 39) {
        assert NeedsQuote(z[i]);
      } else if |separator| == 1 {
        var i :| 0 <= i < |z| && z[i] == separator[0];
        assert SeparatorAt(z, i, separator);
      } else {
        assert SeparatorAt(z, 0, separator);
      }
    }
  }

  lemma {:induction false} LongerWhenDoubled(z: Field, quote: Byte)
    ensures |Doubled(z, quote)| >= |z|
  {
    if z != [] { LongerWhenDoubled(z[1..], quote); }
  }

  /** What doubling does: nothing to a text without the quote, and two for each quote after it. */
  lemma {:induction false} DoubledPieces(x: Field, y: Field, quote: Byte)
    requires quote !in x
    ensures Doubled(x + y, quote) == x + Doubled(y, quote)
    ensures Doubled([quote] + y, quote) == [quote, quote] + Doubled(y, quote)
  {
    assert ([quote] + y)[1..] == y;
    if x == [] {
      assert x + y == y && x + Doubled(y, quote) == Doubled(y, quote);
    } else {
      DoubledPieces(x[1..], y, quote);
      assert (x + y)[1..] == x[1..] + y;
      assert [x[0]] + (x[1..] + Doubled(y, quote)) == x + Doubled(y, quote);
    }
  }

  /** The fields of a row, with separators between them and the row separator after the last. */
  function CsvRow(fields: seq<Field>, separator: seq<Byte>, rowSeparator: seq<Byte>): seq<Byte> {
    if fields == [] then rowSeparator
    else
      CsvField(fields[0], separator) + (if |fields| > 1 then separator else [])
      + CsvRow(fields[1..], separator, rowSeparator)
  }

  function CsvTable(rows: seq<seq<Field>>, separator: seq<Byte>, rowSeparator: seq<Byte>): seq<Byte> {
    if rows == [] then [] else CsvRow(rows[0], separator, rowSeparator) + CsvTable(rows[1..], separator, rowSeparator)
  }

  // ---- reading one field ----

  /** What reading a field yields: its text, or None at the end of the input; the character that ended it; and
      the text that is left. */
  datatype FieldRead = FieldRead(field: Option<Field>, term: int, rest: seq<Byte>)

  predicate Closes(c: int, pc: int, ppc: int, col: Byte, row: Byte) {
    || (c == col && pc == QUOTE)
    || (c == row && pc == QUOTE)
    || (c == row && pc == CR && ppc == QUOTE)
    || (c == EOF && pc == QUOTE)
  }

  /** The text before the last quote. */
  function UpToLastQuote(z: Field): Field {
    if z == [] then [] else if z[|z| - 1] == QUOTE then z[..|z| - 1] else UpToLastQuote(z[..|z| - 1])
  }

  function First(s: seq<Byte>): int {
    if s == [] then EOF else s[0]
  }

  function Rest(s: seq<Byte>): seq<Byte> {
    if s == [] then [] else s[1..]
  }

  /** Inside quotes: z is the text so far, pc and ppc the last character and the one before it. */
  function ReadQuoted(s: seq<Byte>, z: Field, pc: int, ppc: int, col: Byte, row: Byte): (r: FieldRead)
    ensures r.field.Some? && |r.rest| <= |s| && (r.term == EOF || |r.rest| < |s|)
    decreases |s|
  {
    var c := First(s);
    if c == QUOTE && pc == QUOTE then ReadQuoted(s[1..], z, 0, ppc, col, row)
    else if Closes(c, pc, ppc, col, row) then FieldRead(Some(UpToLastQuote(z)), c, Rest(s))
    else if c == EOF then FieldRead(Some(z), c, [])
    else ReadQuoted(s[1..], z + [s[0]], c, pc, col, row)
  }

  function WithoutCr(z: Field): Field {
    if z != [] && z[|z| - 1] == CR then z[..|z| - 1] else z
  }

  function ReadPlain(s: seq<Byte>, z: Field, col: Byte, row: Byte): (r: FieldRead)
    ensures r.field.Some? && |r.rest| <= |s| && (r.term == EOF || |r.rest| < |s|)
    decreases |s|
  {
    var c := First(s);
    if c == row then FieldRead(Some(WithoutCr(z)), c, Rest(s))
    else if c == EOF || c == col then FieldRead(Some(z), c, Rest(s))
    else ReadPlain(s[1..], z + [s[0]], col, row)
  }

  function ReadField(s: seq<Byte>, col: Byte, row: Byte): (r: FieldRead)
    ensures r.field.Some? <==> s != []
    ensures |r.rest| <= |s| && (r.term == EOF || |r.rest| < |s|)
  {
    if s == [] then FieldRead(None, EOF, [])
    else if s[0] == QUOTE then ReadQuoted(s[1..], [], 0, 0, col, row)
    else ReadPlain(s, [], col, row)
  }

  // ---- reading rows ----

  datatype RowRead = RowRead(fields: seq<Option<Field>>, term: int, rest: seq<Byte>)

  /** The texts of all fields up to one that does not end with a column separator. */
  function ReadRow(s: seq<Byte>, col: Byte, row: Byte): (r: RowRead)
    ensures |r.fields| >= 1 && r.term != col && |r.rest| <= |s| && (r.term == EOF || |r.rest| < |s|)
    decreases |s|
  {
    var f := ReadField(s, col, row);
    if f.term == col then
      var r := ReadRow(f.rest, col, row);
      RowRead([Text(f.field)] + r.fields, r.term, r.rest)
    else RowRead([Text(f.field)], f.term, f.rest)
  }

  /** A row cut or filled with NULLs to n columns. */
  function Fit(fields: seq<Option<Field>>, n: nat): (r: seq<Option<Field>>)
    ensures |r| == n
  {
    seq(n, i requires 0 <= i < n => if i < |fields| then fields[i] else None)
  }

  /** The rows an import inserts. */
  function Imported(s: seq<Byte>, n: nat, col: Byte, row: Byte): seq<seq<Option<Field>>>
    decreases |s|
  {
    if s == [] then [] else
      var r := ReadRow(s, col, row);
      [Fit(r.fields, n)] + if r.term == EOF then [] else Imported(r.rest, n, col, row)
  }

  // ---- the round trip ----

  /** A separator the importer takes: one ASCII character that has no other meaning. */
  predicate Plain(col: Byte) {
    0 < col < 128 && col != QUOTE && col != CR && col != LF
  }

  /** Separators that have no other meaning in quotes. */
  predicate Separators(col: Byte, row: Byte) {
    col != QUOTE && row != QUOTE && col != CR && row != CR && col != row
  }

  /** Inside quotes, and not after one that may still close the field. */
  predicate Inside(pc: int, ppc: int) {
    pc != QUOTE && (pc == CR ==> ppc != QUOTE)
  }

  lemma QuoteEnds(z: Field, pc: int, ppc: int, tail: seq<Byte>, col: Byte, row: Byte)
    requires Separators(col, row) && Inside(pc, ppc)
    ensures ReadQuoted([QUOTE] + [col] + tail, z, pc, ppc, col, row) == FieldRead(Some(z), col, tail)
    ensures ReadQuoted([QUOTE] + [row] + tail, z, pc, ppc, col, row) == FieldRead(Some(z), row, tail)
    ensures ReadQuoted([QUOTE], z, pc, ppc, col, row) == FieldRead(Some(z), EOF, [])
  {
    assert UpToLastQuote(z + [QUOTE]) == z;
    EndsAfterQuote(z, pc, col, tail, col, row);
    EndsAfterQuote(z, pc, row, tail, col, row);
    StepsOver(QUOTE, [col] + tail, z, pc, ppc, col, row);
    StepsOver(QUOTE, [row] + tail, z, pc, ppc, col, row);
    StepsOver(QUOTE, [], z, pc, ppc, col, row);
    assert [QUOTE] + [col] + tail == [QUOTE] + ([col] + tail) && [QUOTE] + [row] + tail == [QUOTE] + ([row] + tail);
    assert [QUOTE] + [] == [QUOTE];
  }

  lemma EndsAfterQuote(z: Field, ppc: int, c: Byte, tail: seq<Byte>, col: Byte, row: Byte)
    requires Separators(col, row) && (c == col || c == row)
    ensures ReadQuoted([c] + tail, z + [QUOTE], QUOTE, ppc, col, row) == FieldRead(Some(z), c, tail)
  {
    assert ([c] + tail)[1..] == tail && UpToLastQuote(z + [QUOTE]) == z;
  }

  /** A character that closes nothing is taken as it is. */
  lemma StepsOver(c: Byte, more: seq<Byte>, z: Field, pc: int, ppc: int, col: Byte, row: Byte)
    requires Inside(pc, ppc) || (pc == QUOTE && c != QUOTE && c != col && c != row)
    ensures ReadQuoted([c] + more, z, pc, ppc, col, row) == ReadQuoted(more, z + [c], c, pc, col, row)
  {
    assert ([c] + more)[1..] == more;
  }

  lemma QuoteEndsBeforeCr(z: Field, pc: int, ppc: int, tail: seq<Byte>, col: Byte, row: Byte)
    requires Separators(col, row) && Inside(pc, ppc)
    ensures ReadQuoted([QUOTE] + [CR, row] + tail, z, pc, ppc, col, row) == FieldRead(Some(z), row, tail)
  {
    var w := z + [QUOTE] + [CR];
    assert w[..|w| - 1] == z + [QUOTE];
    assert UpToLastQuote(z + [QUOTE]) == z && UpToLastQuote(w) == z;
    assert ([row] + tail)[1..] == tail;
    assert [QUOTE] + [CR, row] + tail == [QUOTE] + ([CR] + ([row] + tail));
    StepsOver(QUOTE, [CR] + ([row] + tail), z, pc, ppc, col, row);
    StepsOver(CR, [row] + tail, z + [QUOTE], QUOTE, pc, col, row);
    assert ReadQuoted([row] + tail, w, CR, QUOTE, col, row) == FieldRead(Some(z), row, tail);
  }

  lemma DoubledQuoteReads(more: seq<Byte>, z: Field, pc: int, ppc: int, col: Byte, row: Byte)
    requires Inside(pc, ppc)
    ensures ReadQuoted([QUOTE, QUOTE] + more, z, pc, ppc, col, row) == ReadQuoted(more, z + [QUOTE], 0, pc, col, row)
  {
    assert [QUOTE, QUOTE] + more == [QUOTE] + ([QUOTE] + more) && ([QUOTE] + more)[1..] == more;
    StepsOver(QUOTE, [QUOTE] + more, z, pc, ppc, col, row);
  }

  /** Reading a text with its quotes doubled gathers the text. */
  lemma {:induction false} QuotedRun(x: Field, more: seq<Byte>, z: Field, pc: int, ppc: int, col: Byte, row: Byte)
    returns (pc': int, ppc': int)
    requires Separators(col, row) && Inside(pc, ppc)
    ensures Inside(pc', ppc')
    ensures ReadQuoted(Doubled(x, QUOTE) + more, z, pc, ppc, col, row) == ReadQuoted(more, z + x, pc', ppc', col, row)
    decreases |x|
  {
    var s := Doubled(x, QUOTE) + more;
    if x == [] {
      assert z + x == z && s == more;
      return pc, ppc;
    }
    var rest := Doubled(x[1..], QUOTE) + more;
    assert z + x == z + [x[0]] + x[1..];
    if x[0] == QUOTE {
      assert s == [QUOTE, QUOTE] + rest;
      DoubledQuoteReads(rest, z, pc, ppc, col, row);
      pc', ppc' := QuotedRun(x[1..], more, z + [QUOTE], 0, pc, col, row);
    } else {
      assert s == [x[0]] + rest;
      StepsOver(x[0], rest, z, pc, ppc, col, row);
      pc', ppc' := QuotedRun(x[1..], more, z + [x[0]], x[0], pc, col, row);
    }
  }

  /** The ways a field ends before more text: a column separator, a row separator, or CR and a row separator. */
  predicate Ending(end: seq<Byte>, col: Byte, row: Byte) {
    end == [col] || end == [row] || end == [CR, row]
  }

  lemma QuotedReadsBack(x: Field, end: seq<Byte>, tail: seq<Byte>, col: Byte, row: Byte)
    requires Separators(col, row) && Ending(end, col, row)
    ensures ReadQuoted(Doubled(x, QUOTE) + [QUOTE] + end + tail, [], 0, 0, col, row) ==
            FieldRead(Some(x), end[|end| - 1], tail)
  {
    var more := [QUOTE] + end + tail;
    assert Doubled(x, QUOTE) + [QUOTE] + end + tail == Doubled(x, QUOTE) + more && [] + x == x;
    var pc, ppc := QuotedRun(x, more, [], 0, 0, col, row);
    QuoteEnds(x, pc, ppc, tail, col, row);
    QuoteEndsBeforeCr(x, pc, ppc, tail, col, row);
  }

  /** A text that is read as it stands: it does not start with a quote and has neither separator. */
  predicate Bare(x: Field, col: Byte, row: Byte) {
    (x == [] || x[0] != 34) && col !in x && row !in x
  }

  lemma {:induction false} PlainRun(x: Field, more: seq<Byte>, z: Field, col: Byte, row: Byte)
    requires col !in x && row !in x
    ensures ReadPlain(x + more, z, col, row) == ReadPlain(more, z + x, col, row)
    decreases |x|
  {
    if x == [] {
      assert z + x == z && x + more == more;
    } else {
      assert (x + more)[1..] == x[1..] + more && z + x == z + [x[0]] + x[1..];
      PlainRun(x[1..], more, z + [x[0]], col, row);
    }
  }

  /** A bare field before a row separator loses its last character exactly if that is a CR. */
  lemma BareFieldEndsRow(x: Field, tail: seq<Byte>, col: Byte, row: Byte)
    requires Bare(x, col, row) && row != 34
    ensures ReadField(x + [row] + tail, col, row) ==
            FieldRead(Some(if x != [] && x[|x| - 1] == 13 then x[..|x| - 1] else x), row, tail)
  {
    assert x + [row] + tail == x + ([row] + tail) && ([row] + tail)[1..] == tail && [] + x == x;
    PlainRun(x, [row] + tail, [], col, row);
  }

  /** Before a column separator, and at the end of the input, it is the text. */
  lemma BareFieldEnds(x: Field, tail: seq<Byte>, col: Byte, row: Byte)
    requires Bare(x, col, row) && col != 34 && col != row
    ensures ReadField(x + [col] + tail, col, row) == FieldRead(Some(x), col, tail)
    ensures ReadField(x, col, row) == FieldRead(if x == [] then None else Some(x), -1, [])
  {
    assert x + [col] + tail == x + ([col] + tail) && ([col] + tail)[1..] == tail && [] + x == x && x + [] == x;
    PlainRun(x, [col] + tail, [], col, row);
    PlainRun(x, [], [], col, row);
  }

  /** A field in quotes is its text with the doubled quotes undone, whatever characters it has, and however it
      ends: before a separator, before CR and a row separator, or with the input. */
  lemma QuotedField(x: Field, tail: seq<Byte>, col: Byte, row: Byte)
    requires Separators(col, row)
    ensures var s := [34] + Doubled(x, 34) + [34];
      && ReadField(s + [col] + tail, col, row) == FieldRead(Some(x), col, tail)
      && ReadField(s + [row] + tail, col, row) == FieldRead(Some(x), row, tail)
      && ReadField(s + [13, row] + tail, col, row) == FieldRead(Some(x), row, tail)
      && ReadField(s, col, row) == FieldRead(Some(x), -1, [])
  {
    QuotedFieldBefore(x, [col], tail, col, row);
    QuotedFieldBefore(x, [row], tail, col, row);
    QuotedFieldBefore(x, [CR, row], tail, col, row);
    assert ([34] + Doubled(x, 34) + [34])[1..] == Doubled(x, 34) + [34] && [] + x == x;
    var pc, ppc := QuotedRun(x, [34], [], 0, 0, col, row);
    QuoteEnds(x, pc, ppc, [], col, row);
  }

  lemma QuotedFieldBefore(x: Field, end: seq<Byte>, tail: seq<Byte>, col: Byte, row: Byte)
    requires Separators(col, row) && Ending(end, col, row)
    ensures ReadField([34] + Doubled(x, 34) + [34] + end + tail, col, row) == FieldRead(Some(x), end[|end| - 1], tail)
  {
    assert ([34] + Doubled(x, 34) + [34] + end + tail)[1..] == Doubled(x, 34) + [34] + end + tail;
    QuotedReadsBack(x, end, tail, col, row);
  }

  /** A quoted field that is never closed is everything to the end of the input. */
  lemma UnclosedField(x: Field, col: Byte, row: Byte)
    requires Separators(col, row)
    ensures ReadField([34] + Doubled(x, 34), col, row) == FieldRead(Some(x), -1, [])
  {
    assert ([34] + Doubled(x, 34))[1..] == Doubled(x, 34) + [] && [] + x == x;
    var pc, ppc := QuotedRun(x, [], [], 0, 0, col, row);
  }

  /** A single quote inside, followed by another character, stays, and does not end the field. */
  lemma StrayQuoteStays(x: Field, c: Byte, y: Field, tail: seq<Byte>, col: Byte, row: Byte)
    requires Separators(col, row) && c != 34 && c != 13 && c != col && c != row
    ensures ReadField([34] + (Doubled(x, 34) + ([34] + ([c] + (Doubled(y, 34) + ([34] + [col] + tail))))), col, row) ==
            FieldRead(Some(x + [34] + [c] + y), col, tail)
  {
    var end := [34] + [col] + tail;
    var more := Doubled(y, 34) + end;
    var inside := Doubled(x, 34) + ([34] + ([c] + more));
    assert ([34] + inside)[1..] == inside && [] + x == x;
    var pc, ppc := QuotedRun(x, [34] + ([c] + more), [], 0, 0, col, row);
    StepsOver(34, [c] + more, x, pc, ppc, col, row);
    StepsOver(c, more, x + [34], 34, pc, col, row);
    var pc', ppc' := QuotedRun(y, end, x + [34] + [c], c, 34, col, row);
    QuoteEnds(x + [34] + [c] + y, pc', ppc', tail, col, row);
  }

  /** Reading a written field, in front of a separator or of CR LF, gives the field back and leaves what follows. */
  lemma FieldReadsBack(x: Field, end: seq<Byte>, tail: seq<Byte>, col: Byte)
    requires Plain(col) && Ending(end, col, LF)
    ensures ReadField(CsvField(x, [col]) + end + tail, col, LF) == FieldRead(Some(x), end[|end| - 1], tail)
  {
    if MustQuote(x, [col]) {
      QuotedFieldBefore(x, end, tail, col, LF);
    } else {
      forall i | 0 <= i < |x| ensures x[i] != 34 && x[i] != CR && x[i] != LF && x[i] != col {
        assert !NeedsQuote(x[i]) && !SeparatorAt(x, i, [col]);
      }
      BareFieldEnds(x, tail, col, LF);
      BareFieldEndsRow(x, tail, col, LF);
      BareFieldEndsRow(x + [CR], tail, col, LF);
      assert (x + [CR])[..|x|] == x && x + [CR] + [LF] + tail == x + [CR, LF] + tail;
    }
  }

  function AllSome(fields: seq<Field>): (r: seq<Option<Field>>)
    ensures |r| == |fields| && forall i :: 0 <= i < |r| ==> r[i] == Some(fields[i])
  {
    seq(|fields|, i requires 0 <= i < |fields| => Some(fields[i]))
  }

  lemma LastFieldReads(x: Field, tail: seq<Byte>, col: Byte)
    requires Plain(col) && NulFree(x)
    ensures ReadRow(CsvField(x, [col]) + [CR, LF] + tail, col, LF) == RowRead([Some(x)], LF, tail)
  {
    UpToNulStops(x);
    FieldReadsBack(x, [CR, LF], tail, col);
  }

  lemma FirstFieldReads(x: Field, more: seq<Byte>, col: Byte)
    requires Plain(col) && NulFree(x)
    ensures var r := ReadRow(more, col, LF);
      ReadRow(CsvField(x, [col]) + [col] + more, col, LF) == RowRead([Some(x)] + r.fields, r.term, r.rest)
  {
    UpToNulStops(x);
    FieldReadsBack(x, [col], more, col);
  }

  lemma Regrouped(a: seq<Byte>, c: seq<Byte>, b: seq<Byte>, tail: seq<Byte>)
    ensures a + c + b + tail == a + c + (b + tail)
  {
  }

  lemma {:induction false} RowReadsBack(fields: seq<Field>, tail: seq<Byte>, col: Byte)
    requires Plain(col) && fields != [] && AllNulFree(fields)
    ensures ReadRow(CsvRow(fields, [col], [CR, LF]) + tail, col, LF) == RowRead(AllSome(fields), LF, tail)
  {
    var s := CsvRow(fields, [col], [CR, LF]) + tail;
    AllNulFreeRest(fields);
    if |fields| == 1 {
      assert CsvRow(fields[1..], [col], [CR, LF]) == [CR, LF];
      assert s == CsvField(fields[0], [col]) + [CR, LF] + tail;
      LastFieldReads(fields[0], tail, col);
      assert AllSome(fields) == [Some(fields[0])];
    } else {
      var more := CsvRow(fields[1..], [col], [CR, LF]) + tail;
      Regrouped(CsvField(fields[0], [col]), [col], CsvRow(fields[1..], [col], [CR, LF]), tail);
      assert s == CsvField(fields[0], [col]) + [col] + more;
      FirstFieldReads(fields[0], more, col);
      RowReadsBack(fields[1..], tail, col);
      assert AllSome(fields) == [Some(fields[0])] + AllSome(fields[1..]);
    }
  }

  function AllRows(rows: seq<seq<Field>>): seq<seq<Option<Field>>> {
    if rows == [] then [] else [AllSome(rows[0])] + AllRows(rows[1..])
  }

  /** A table of n columns, none of its fields NULL. */
  ghost predicate Regular(rows: seq<seq<Field>>, n: nat) {
    forall i {:trigger rows[i]} :: 0 <= i < |rows| ==> |rows[i]| == n && AllNulFree(rows[i])
  }

  /** Importing an exported table gives back its rows. */
  lemma {:induction false} TableReadsBack(rows: seq<seq<Field>>, n: nat, col: Byte)
    requires Plain(col) && n > 0 && Regular(rows, n)
    ensures Imported(CsvTable(rows, [col], [CR, LF]), n, col, LF) == AllRows(rows)
  {
    if rows != [] {
      var more := CsvTable(rows[1..], [col], [CR, LF]);
      RowReadsBack(rows[0], more, col);
      TableReadsBack(rows[1..], n, col);
      assert Fit(AllSome(rows[0]), n) == AllSome(rows[0]);
      assert CsvTable(rows, [col], [CR, LF]) != [] by { RowIsNotEmpty(rows[0], [col]); }
    }
  }

  lemma {:induction false} RowIsNotEmpty(fields: seq<Field>, separator: seq<Byte>)
    ensures CsvRow(fields, separator, [CR, LF]) != []
  {
    if fields != [] { RowIsNotEmpty(fields[1..], separator); }
  }
}

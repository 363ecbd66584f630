/** What the importer makes of a text in the form of RFC 4180: fields bare or in quotes, lines of any length. */
module CsvLines {
  import opened Types
  import opened BaseUint
  import opened Csv

  /** A field as it is spelled. */
  datatype Cell = Plainly(x: Field) | InQuotes(x: Field)

  function CellText(c: Cell): seq<Byte> {
    match c
    case Plainly(x) => x
    case InQuotes(x) => [34] + Doubled(x, 34) + [34]
  }

  ghost predicate CellOk(c: Cell, col: Byte, row: Byte) {
    c.Plainly? ==> Bare(c.x, col, row)
  }

  /** How a line ends: with a row separator, with CR before it, or with the input. */
  datatype End = RowEnd | CrRowEnd | InputEnd

  function EndText(end: End, row: Byte): seq<Byte> {
    match end
    case RowEnd => [row]
    case CrRowEnd => [13, row]
    case InputEnd => []
  }

  /** The last field of a line. A bare one loses a CR before the row separator; an empty one that the input ends
      with is no text at all. */
  function LastValue(c: Cell, end: End): Option<Field> {
    if c.InQuotes? || end.CrRowEnd? then Some(c.x)
    else if c.x == [] then (if end.InputEnd? then None else Some([]))
    else if end.RowEnd? && c.x[|c.x| - 1] == 13 then Some(c.x[..|c.x| - 1])
    else Some(c.x)
  }

  datatype Line = Line(cells: seq<Cell>, end: End)

  ghost predicate LineOk(l: Line, col: Byte, row: Byte) {
    l.cells != [] && forall i {:trigger l.cells[i]} :: 0 <= i < |l.cells| ==> CellOk(l.cells[i], col, row)
  }

  function LineText(l: Line, col: Byte, row: Byte): seq<Byte>
    requires l.cells != []
    decreases |l.cells|
  {
    if |l.cells| == 1 then CellText(l.cells[0]) + EndText(l.end, row)
    else CellText(l.cells[0]) + [col] + LineText(Line(l.cells[1..], l.end), col, row)
  }

  /** The i-th field of a line, as it is bound: a C string, or NULL. */
  function Value(l: Line, i: nat): Option<Field>
    requires i < |l.cells|
  {
    if i < |l.cells| - 1 then Some(UpToNul(l.cells[i].x)) else Text(LastValue(l.cells[i], l.end))
  }

  function Values(l: Line): (r: seq<Option<Field>>)
    ensures |r| == |l.cells| && forall i :: 0 <= i < |r| ==> r[i] == Value(l, i)
  {
    seq(|l.cells|, i requires 0 <= i < |l.cells| => Value(l, i))
  }

  function Term(end: End, row: Byte): int {
    if end.InputEnd? then -1 else row
  }

  lemma LastCellReads(c: Cell, end: End, tail: seq<Byte>, col: Byte, row: Byte)
    requires Separators(col, row) && CellOk(c, col, row) && (end.InputEnd? ==> tail == [])
    ensures ReadField(CellText(c) + EndText(end, row) + tail, col, row) == FieldRead(LastValue(c, end), Term(end, row), tail)
  {
    match c
    case InQuotes(x) =>
      QuotedField(x, tail, col, row);
      assert end.InputEnd? ==> CellText(c) + EndText(end, row) + tail == CellText(c);
    case Plainly(x) =>
      LastBareReads(x, end, tail, col, row);
  }

  lemma LastBareReads(x: Field, end: End, tail: seq<Byte>, col: Byte, row: Byte)
    requires Separators(col, row) && Bare(x, col, row) && (end.InputEnd? ==> tail == [])
    ensures ReadField(x + EndText(end, row) + tail, col, row) == FieldRead(LastValue(Plainly(x), end), Term(end, row), tail)
  {
    match end
    case RowEnd =>
      BareFieldEndsRow(x, tail, col, row);
    case CrRowEnd =>
      BareFieldEndsRow(x + [13], tail, col, row);
      assert (x + [13])[..|x|] == x && x + [13] + [row] + tail == x + [13, row] + tail;
    case InputEnd =>
      BareFieldEnds(x, tail, col, row);
      assert x + [] + [] == x;
  }

  lemma FirstCellReads(c: Cell, more: seq<Byte>, col: Byte, row: Byte)
    requires Separators(col, row) && CellOk(c, col, row)
    ensures ReadField(CellText(c) + [col] + more, col, row) == FieldRead(Some(c.x), col, more)
  {
    match c
    case InQuotes(x) => QuotedField(x, more, col, row);
    case Plainly(x) => BareFieldEnds(x, more, col, row);
  }

  lemma OneCellReads(l: Line, tail: seq<Byte>, col: Byte, row: Byte)
    requires Separators(col, row) && |l.cells| == 1 && CellOk(l.cells[0], col, row) && (l.end.InputEnd? ==> tail == [])
    ensures ReadRow(LineText(l, col, row) + tail, col, row) == RowRead(Values(l), Term(l.end, row), tail)
  {
    LastCellReads(l.cells[0], l.end, tail, col, row);
    assert Values(l) == [Text(LastValue(l.cells[0], l.end))];
  }

  lemma RowGoesOn(c: Cell, more: seq<Byte>, col: Byte, row: Byte)
    requires Separators(col, row) && CellOk(c, col, row)
    ensures var r := ReadRow(more, col, row);
      ReadRow(CellText(c) + [col] + more, col, row) == RowRead([Some(UpToNul(c.x))] + r.fields, r.term, r.rest)
  {
    FirstCellReads(c, more, col, row);
  }

  lemma LaterValues(l: Line)
    requires |l.cells| > 1
    ensures Values(l) == [Some(UpToNul(l.cells[0].x))] + Values(Line(l.cells[1..], l.end))
  {
  }

  /** A line reads as its fields, and what follows it is left. */
  lemma {:induction false} LineReads(l: Line, tail: seq<Byte>, col: Byte, row: Byte)
    requires Separators(col, row) && LineOk(l, col, row) && (l.end.InputEnd? ==> tail == [])
    ensures ReadRow(LineText(l, col, row) + tail, col, row) == RowRead(Values(l), Term(l.end, row), tail)
    decreases |l.cells|
  {
    assert CellOk(l.cells[0], col, row);
    if |l.cells| == 1 {
      OneCellReads(l, tail, col, row);
    } else {
      var rest := Line(l.cells[1..], l.end);
      Regrouped(CellText(l.cells[0]), [col], LineText(rest, col, row), tail);
      LaterValues(l);
      RowGoesOn(l.cells[0], LineText(rest, col, row) + tail, col, row);
      LineReads(rest, tail, col, row);
    }
  }

  /** The columns a line fills: its fields, those beyond the last column dropped, and NULL where it has none. */
  function Columns(l: Line, n: nat): (w: seq<Option<Field>>)
    ensures |w| == n
    ensures forall j :: 0 <= j < n ==> w[j] == if j < |l.cells| then Value(l, j) else None
  {
    seq(n, j requires 0 <= j < n => if j < |l.cells| then Value(l, j) else None)
  }

  /** Nothing but the end of the input: no line. */
  predicate Nothing(l: Line) {
    l == Line([Plainly([])], InputEnd)
  }

  lemma LineHasText(l: Line, col: Byte, row: Byte)
    requires l.cells != []
    ensures LineText(l, col, row) == [] <==> Nothing(l)
  {
    if |l.cells| == 1 {
      assert l.cells == [l.cells[0]];
    }
  }

  lemma LineImports(l: Line, tail: seq<Byte>, n: nat, col: Byte, row: Byte)
    requires Separators(col, row) && LineOk(l, col, row) && !Nothing(l) && (l.end.InputEnd? ==> tail == [])
    ensures Imported(LineText(l, col, row) + tail, n, col, row) == [Columns(l, n)] + Imported(tail, n, col, row)
  {
    LineReads(l, tail, col, row);
    LineHasText(l, col, row);
    assert Fit(Values(l), n) == Columns(l, n);
  }

  /** Only the last line of a file may lack its end, and then it has some text. */
  ghost predicate FileOk(lines: seq<Line>, col: Byte, row: Byte) {
    forall i {:trigger lines[i]} :: 0 <= i < |lines| ==>
      LineOk(lines[i], col, row) && !Nothing(lines[i]) && (lines[i].end.InputEnd? ==> i == |lines| - 1)
  }

  function FileText(lines: seq<Line>, col: Byte, row: Byte): seq<Byte>
    requires forall i {:trigger lines[i]} :: 0 <= i < |lines| ==> lines[i].cells != []
  {
    if lines == [] then [] else LineText(lines[0], col, row) + FileText(lines[1..], col, row)
  }

  /** Importing a file inserts one row for each line, in order: its fields, however they are spelled, cut or filled
      with NULL to the number of columns. */
  lemma {:induction false} FileImports(lines: seq<Line>, n: nat, col: Byte, row: Byte)
    requires Separators(col, row) && FileOk(lines, col, row)
    ensures var rows := Imported(FileText(lines, col, row), n, col, row);
      |rows| == |lines| && forall i :: 0 <= i < |lines| ==> rows[i] == Columns(lines[i], n)
  {
    if lines != [] {
      var tail := FileText(lines[1..], col, row);
      assert LineOk(lines[0], col, row);
      LineImports(lines[0], tail, n, col, row);
      FileImports(lines[1..], n, col, row);
    }
  }
}

/** Exporting and importing any table, with NULLs and rows of any length: what comes back. */
module CsvNulls {
  import opened Types
  import opened BaseUint
  import opened Csv
  import opened CsvLines
  import opened CsvExport
  import opened CsvImport

  /** How the exporter spells a value: NULL is the null text, as it is. */
  ghost function CellOf(z: Option<Field>, nullText: Field, col: Byte): Cell {
    if z.None? then Plainly(nullText)
    else if NeedsNoQuotes(z.value, [col]) then Plainly(z.value)
    else Cell.InQuotes(z.value)
  }

  ghost function LineFor(fields: seq<Option<Field>>, nullText: Field, col: Byte): Line {
    Line(seq(|fields|, i requires 0 <= i < |fields| => CellOf(fields[i], nullText, col)), CrRowEnd)
  }

  ghost function LinesFor(rows: seq<seq<Option<Field>>>, nullText: Field, col: Byte): (r: seq<Line>)
    ensures |r| == |rows| && forall i :: 0 <= i < |rows| ==> r[i] == LineFor(rows[i], nullText, col)
  {
    seq(|rows|, i requires 0 <= i < |rows| => LineFor(rows[i], nullText, col))
  }

  lemma CellIsWritten(e: Exporter, z: Option<Field>, col: Byte)
    requires Plain(col) && e.colSeparator == [col] && Bare(e.nullValue, col, LF)
    ensures CellText(CellOf(z, e.nullValue, col)) == e.Written(z) && CellOk(CellOf(z, e.nullValue, col), col, LF)
  {
    if z.Some? {
      QuotedExactlyWhen(z.value, [col]);
    }
  }

  lemma LineIsOk(e: Exporter, fields: seq<Option<Field>>, col: Byte)
    requires Plain(col) && e.colSeparator == [col] && Bare(e.nullValue, col, LF) && fields != []
    ensures LineOk(LineFor(fields, e.nullValue, col), col, LF)
  {
    var l := LineFor(fields, e.nullValue, col);
    forall i | 0 <= i < |l.cells| ensures CellOk(l.cells[i], col, LF) {
      CellIsWritten(e, fields[i], col);
    }
  }

  lemma LineForRest(fields: seq<Option<Field>>, nullText: Field, col: Byte)
    requires fields != []
    ensures LineFor(fields, nullText, col).cells[1..] == LineFor(fields[1..], nullText, col).cells
    ensures LineFor(fields, nullText, col).cells[0] == CellOf(fields[0], nullText, col)
  {
  }

  lemma {:induction false} LineIsWritten(e: Exporter, fields: seq<Option<Field>>, col: Byte)
    requires Plain(col) && e.colSeparator == [col] && e.rowSeparator == [CR, LF] && Bare(e.nullValue, col, LF)
    requires fields != []
    ensures LineText(LineFor(fields, e.nullValue, col), col, LF) == e.WrittenRow(fields)
    decreases |fields|
  {
    CellIsWritten(e, fields[0], col);
    LineForRest(fields, e.nullValue, col);
    if |fields| == 1 {
      assert e.WrittenRow(fields[1..]) == [CR, LF] && e.Written(fields[0]) + [] == e.Written(fields[0]);
    } else {
      LineIsWritten(e, fields[1..], col);
    }
  }

  ghost predicate NoEmptyRow(rows: seq<seq<Option<Field>>>) {
    forall i {:trigger rows[i]} :: 0 <= i < |rows| ==> rows[i] != []
  }

  lemma {:induction false} FileIsWritten(e: Exporter, rows: seq<seq<Option<Field>>>, col: Byte)
    requires Plain(col) && e.colSeparator == [col] && e.rowSeparator == [CR, LF] && Bare(e.nullValue, col, LF)
    requires NoEmptyRow(rows)
    ensures FileOk(LinesFor(rows, e.nullValue, col), col, LF)
    ensures FileText(LinesFor(rows, e.nullValue, col), col, LF) == e.TableText(rows)
    decreases |rows|
  {
    forall i | 0 <= i < |rows| ensures LineOk(LineFor(rows[i], e.nullValue, col), col, LF) {
      LineIsOk(e, rows[i], col);
    }
    if rows != [] {
      LineIsWritten(e, rows[0], col);
      FileIsWritten(e, rows[1..], col);
      assert LinesFor(rows, e.nullValue, col)[1..] == LinesFor(rows[1..], e.nullValue, col);
    }
  }

  /** What comes back for a column: the text, the null text instead of NULL, and NULL where the row had none. */
  ghost function Returned(fields: seq<Option<Field>>, nullText: Field, j: nat): Option<Field> {
    if j >= |fields| then None else if fields[j].None? then Some(nullText) else fields[j]
  }

  lemma ColumnReturns(fields: seq<Option<Field>>, nullText: Field, n: nat, col: Byte, j: nat)
    requires AllWritable(fields) && NulFree(nullText) && j < n
    ensures Columns(LineFor(fields, nullText, col), n)[j] == Returned(fields, nullText, j)
  {
    if j < |fields| {
      assert Writable(fields[j]);
      UpToNulStops(if fields[j].None? then nullText else fields[j].value);
    }
  }

  /** Export with CR LF rows, import with LF rows: every text comes back, and NULL comes back as the null text. */
  method ExportAndImportNulls(rows: seq<seq<Option<Field>>>, nullText: Field, n: nat, col: Byte)
    returns (table: seq<seq<Option<Field>>>)
    requires Plain(col) && n > 0 && NoEmptyRow(rows) && NulFree(nullText) && Bare(nullText, col, LF)
    requires forall i {:trigger AllWritable(rows[i])} :: 0 <= i < |rows| ==> AllWritable(rows[i])
    ensures |table| == |rows|
    ensures forall i, j {:trigger table[i][j]} :: 0 <= i < |rows| && 0 <= j < n ==>
      |table[i]| == n && table[i][j] == Returned(rows[i], nullText, j)
  {
    var file := new TextFile();
    var exporter := new Exporter(file, [col], [CR, LF], nullText);
    exporter.OutputTable(rows);
    FileIsWritten(exporter, rows, col);
    ghost var lines := LinesFor(rows, nullText, col);
    assert file.bytes == FileText(lines, col, LF);
    table := ImportFile(lines, file.bytes, n, col, LF);
    forall i, j | 0 <= i < |rows| && 0 <= j < n ensures |table[i]| == n && table[i][j] == Returned(rows[i], nullText, j) {
      assert AllWritable(rows[i]);
      ColumnReturns(rows[i], nullText, n, col, j);
    }
  }
}

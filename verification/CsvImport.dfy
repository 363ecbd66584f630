/** The importer: a character-driven reader of fields, and the loop that binds them to columns. */
module CsvImport {
  import opened Types
  import opened BaseUint
  import opened Csv
  import opened CsvLines
  import opened CsvExport

  class ImportCtx {
    /** The input that has not been read yet. */
    var input: seq<Byte>
    /** The accumulated text of a field. */
    var z: Field
    var line: nat
    /** The character that ended the most recent field. */
    var term: int
    const col: Byte
    const row: Byte

    constructor (text: seq<Byte>, colSeparator: Byte, rowSeparator: Byte)
      ensures input == text && col == colSeparator && row == rowSeparator
    {
      input, z, line, term, col, row := text, [], 1, 0, colSeparator, rowSeparator;
    }

    method GetChar() returns (c: int)
      modifies this`input
      ensures c == First(old(input)) && input == Rest(old(input))
    {
      if input == [] {
        return EOF;
      }
      c := input[0];
      input := input[1..];
    }

    /** Reads a field; None at the end of the input. */
    method ReadOneField() returns (r: Option<Field>)
      modifies this
      ensures FieldRead(r, term, input) == ReadField(old(input), col, row)
    {
      z := [];
      var c := GetChar();
      if c == EOF {
        term := EOF;
        return None;
      }
      if c == QUOTE {
        ReadQuotedField();
      } else {
        ReadPlainField(c);
      }
      r := Some(z);
    }

    method ReadQuotedField()
      requires z == []
      modifies this
      ensures FieldRead(Some(z), term, input) == ReadQuoted(old(input), [], 0, 0, col, row)
    {
      var pc, ppc := 0, 0;
      while true
        invariant ReadQuoted(input, z, pc, ppc, col, row) == ReadQuoted(old(input), [], 0, 0, col, row)
        invariant pc == QUOTE ==> QUOTE in z
        invariant pc == CR && ppc == QUOTE ==> QUOTE in z
        decreases |input|
      {
        var c := GetChar();
        if c == row {
          line := line + 1;
        }
        if c == QUOTE && pc == QUOTE {
          pc := 0;
          continue;
        }
        if Closes(c, pc, ppc, col, row) {
          DropThroughQuote();
          term := c;
          break;
        }
        if c == EOF {
          term := c;
          break;
        }
        z := z + [c];
        ppc := pc;
        pc := c;
      }
    }

    /** Drops characters from the end of the text until a quote has been dropped: there always is one. */
    method DropThroughQuote()
      requires QUOTE in z
      modifies this`z
      ensures z == UpToLastQuote(old(z))
    {
      var dropped := z[|z| - 1];
      z := z[..|z| - 1];
      while dropped != QUOTE
        invariant dropped != QUOTE ==> QUOTE in z && UpToLastQuote(z) == UpToLastQuote(old(z))
        invariant dropped == QUOTE ==> z == UpToLastQuote(old(z))
        decreases |z|, dropped != QUOTE
      {
        dropped := z[|z| - 1];
        z := z[..|z| - 1];
      }
    }

    method ReadPlainField(first: int)
      requires z == [] && 0 <= first < 256
      modifies this
      ensures FieldRead(Some(z), term, input) == ReadPlain([first] + old(input), [], col, row)
    {
      var c := first;
      ghost var s := [first as Byte] + input;
      assert s[1..] == input;
      while c != EOF && c != col && c != row
        invariant c == First(s) && input == Rest(s)
        invariant ReadPlain(s, z, col, row) == ReadPlain([first] + old(input), [], col, row)
        decreases |s|
      {
        z := z + [c];
        s := input;
        c := GetChar();
      }
      if c == row {
        line := line + 1;
        if z != [] && z[|z| - 1] == CR {
          z := z[..|z| - 1];
        }
      }
      term := c;
    }
  }

  function UpTo(n: nat): seq<nat> {
    seq(n, i requires 0 <= i < n => i + 1)
  }

  /** A prepared INSERT: parameters 1 to n, and the table it inserts into. */
  class Statement {
    const n: nat
    var bound: seq<Option<Field>>
    /** The parameters bound since the last insertion, in order. */
    ghost var log: seq<nat>
    var table: seq<seq<Option<Field>>>

    ghost predicate Valid()
      reads this
    {
      |bound| == n
    }

    constructor (columns: nat)
      ensures Valid() && n == columns && table == [] && log == []
    {
      n, bound, log, table := columns, seq(columns, i => None), [], [];
    }

    /** Binds a C string, or NULL, to a parameter. */
    method Bind(i: nat, value: Option<Field>)
      requires Valid() && 1 <= i <= n
      modifies this
      ensures Valid() && bound == old(bound)[i - 1 := Text(value)] && log == old(log) + [i] && table == old(table)
    {
      bound := bound[i - 1 := Text(value)];
      log := log + [i];
    }

    /** Inserts the bound row. Every column has been bound exactly once for it. */
    method Step()
      requires Valid() && log == UpTo(n)
      modifies this
      ensures Valid() && table == old(table) + [bound] && bound == old(bound) && log == []
    {
      table := table + [bound];
      log := [];
    }
  }

  /** Reads what is left of a row after its last column. */
  method SkipExtras(ctx: ImportCtx)
    requires ctx.term == ctx.col
    modifies ctx
    ensures ctx.term == ReadRow(old(ctx.input), ctx.col, ctx.row).term
    ensures ctx.input == ReadRow(old(ctx.input), ctx.col, ctx.row).rest
  {
    ghost var r := ReadRow(ctx.input, ctx.col, ctx.row);
    while ctx.term == ctx.col
      invariant ctx.term == ctx.col ==>
        ReadRow(ctx.input, ctx.col, ctx.row).term == r.term && ReadRow(ctx.input, ctx.col, ctx.row).rest == r.rest
      invariant ctx.term != ctx.col ==> ctx.term == r.term && ctx.input == r.rest
      decreases |ctx.input|, ctx.term == ctx.col
    {
      var _ := ctx.ReadOneField();
    }
  }

  /** Binds NULL to the columns from the given one on. */
  method FillWithNulls(stmt: Statement, from: nat)
    requires stmt.Valid() && 1 <= from <= stmt.n + 1 && stmt.log == UpTo(from - 1)
    modifies stmt
    ensures stmt.Valid() && stmt.log == UpTo(stmt.n) && stmt.table == old(stmt.table)
    ensures forall j :: 0 <= j < stmt.n ==> stmt.bound[j] == if j < from - 1 then old(stmt.bound[j]) else None
    ensures stmt.bound == Fit(old(stmt.bound)[..from - 1], stmt.n)
  {
    var i := from;
    while i <= stmt.n
      invariant from <= i <= stmt.n + 1 && stmt.Valid() && stmt.log == UpTo(i - 1) && stmt.table == old(stmt.table)
      invariant forall j :: 0 <= j < i - 1 ==> stmt.bound[j] == if j < from - 1 then old(stmt.bound[j]) else None
    {
      stmt.Bind(i, None);
      i := i + 1;
    }
  }

  /** What has been read of a row, and what is still to come, are the row. */
  ghost predicate Reading(r: RowRead, before: seq<Option<Field>>, later: RowRead) {
    r == RowRead(before + later.fields, later.term, later.rest)
  }

  lemma ReadsOn(r: RowRead, before: seq<Option<Field>>, s: seq<Byte>, col: Byte, row: Byte)
    requires Reading(r, before, ReadRow(s, col, row))
    ensures var f := ReadField(s, col, row);
      if f.term == col then Reading(r, before + [Text(f.field)], ReadRow(f.rest, col, row))
      else r == RowRead(before + [Text(f.field)], f.term, f.rest)
  {
    var f := ReadField(s, col, row);
    if f.term == col {
      assert before + ([Text(f.field)] + ReadRow(f.rest, col, row).fields)
          == before + [Text(f.field)] + ReadRow(f.rest, col, row).fields;
    }
  }

  /** Binds a field to the next column. */
  method BindColumn(stmt: Statement, i: nat, z: Option<Field>)
    requires stmt.Valid() && i < stmt.n && stmt.log == UpTo(i)
    modifies stmt
    ensures stmt.Valid() && stmt.log == UpTo(i + 1) && stmt.table == old(stmt.table)
    ensures stmt.bound[..i + 1] == old(stmt.bound[..i]) + [Text(z)]
  {
    stmt.Bind(i + 1, z);
  }

  /** The statement holds the columns read so far, and nothing has been inserted. */
  ghost predicate Holding(stmt: Statement, before: seq<Option<Field>>, table: seq<seq<Option<Field>>>)
    reads stmt
  {
    && stmt.Valid() && |before| <= stmt.n && stmt.bound[..|before|] == before && stmt.log == UpTo(|before|)
    && stmt.table == table
  }

  /** Reads one row into the statement's parameters; false if the input ended before the first column. */
  method BindRow(ctx: ImportCtx, stmt: Statement) returns (bound: bool)
    requires Holding(stmt, [], stmt.table) && stmt.n > 0
    modifies ctx, stmt
    ensures bound <==> old(ctx.input) != []
    ensures var r := ReadRow(old(ctx.input), ctx.col, ctx.row);
      && Holding(stmt, if bound then Fit(r.fields, stmt.n) else [], old(stmt.table))
      && (if ctx.term == ctx.col then
            var later := ReadRow(ctx.input, ctx.col, ctx.row); later.term == r.term && later.rest == r.rest
          else ctx.term == r.term && ctx.input == r.rest)
  {
    ghost var r := ReadRow(ctx.input, ctx.col, ctx.row);
    ghost var before: seq<Option<Field>> := [];
    var i := 0;
    while i < stmt.n
      invariant 0 <= i <= stmt.n && |before| == i && Holding(stmt, before, old(stmt.table))
      invariant i == 0 ==> ctx.input == old(ctx.input)
      invariant i > 0 ==> old(ctx.input) != []
      invariant i == 0 || ctx.term == ctx.col ==> Reading(r, before, ReadRow(ctx.input, ctx.col, ctx.row))
      invariant i > 0 && ctx.term != ctx.col ==> i == stmt.n && r == RowRead(before, ctx.term, ctx.input)
    {
      ReadsOn(r, before, ctx.input, ctx.col, ctx.row);
      var z := ctx.ReadOneField();
      if z.None? && i == 0 {
        return false;
      }
      BindColumn(stmt, i, z);
      before := before + [Text(z)];
      if i < stmt.n - 1 && ctx.term != ctx.col {
        FillWithNulls(stmt, i + 2);
        assert stmt.bound == Fit(r.fields, stmt.n);
        return true;
      }
      i := i + 1;
    }
    assert stmt.bound == before == Fit(r.fields, stmt.n);
    bound := true;
  }

  /** The row at the start of a text, if there is one. */
  function FirstRow(s: seq<Byte>, n: nat, col: Byte, row: Byte): seq<seq<Option<Field>>> {
    if s == [] then [] else [Fit(ReadRow(s, col, row).fields, n)]
  }

  /** What is to come after one more row. */
  function Later(s: seq<Byte>, n: nat, col: Byte, row: Byte): seq<seq<Option<Field>>> {
    var r := ReadRow(s, col, row);
    if r.term == EOF then [] else Imported(r.rest, n, col, row)
  }

  lemma ImportedStep(table: seq<seq<Option<Field>>>, s: seq<Byte>, n: nat, col: Byte, row: Byte)
    ensures table + Imported(s, n, col, row) == table + FirstRow(s, n, col, row) + Later(s, n, col, row)
  {
  }

  /** One turn of the import loop. At the end of the input there is no row; otherwise every column is bound
      exactly once and the row is inserted. */
  method ImportRow(ctx: ImportCtx, stmt: Statement)
    requires Holding(stmt, [], stmt.table) && stmt.n > 0
    modifies ctx, stmt
    ensures ctx.term == ReadRow(old(ctx.input), ctx.col, ctx.row).term
    ensures ctx.input == ReadRow(old(ctx.input), ctx.col, ctx.row).rest
    ensures Holding(stmt, [], old(stmt.table) + FirstRow(old(ctx.input), stmt.n, ctx.col, ctx.row))
  {
    var bound := BindRow(ctx, stmt);
    if ctx.term == ctx.col {
      SkipExtras(ctx);
    }
    if bound {
      assert stmt.bound[..stmt.n] == stmt.bound;
      stmt.Step();
    }
  }

  /** The import loop: the rows inserted are those the text stands for, whatever the text. */
  method ImportRows(ctx: ImportCtx, stmt: Statement)
    requires Holding(stmt, [], []) && stmt.n > 0
    modifies ctx, stmt
    ensures stmt.table == Imported(old(ctx.input), stmt.n, ctx.col, ctx.row)
  {
    ghost var all := Imported(ctx.input, stmt.n, ctx.col, ctx.row);
    ghost var later := all;
    var more := true;
    while more
      invariant Holding(stmt, [], stmt.table) && all == stmt.table + later
      invariant more ==> later == Imported(ctx.input, stmt.n, ctx.col, ctx.row)
      invariant !more ==> later == []
      decreases |ctx.input|, more
    {
      ImportedStep(stmt.table, ctx.input, stmt.n, ctx.col, ctx.row);
      later := Later(ctx.input, stmt.n, ctx.col, ctx.row);
      ImportRow(ctx, stmt);
      more := ctx.term != EOF;
    }
  }

  /** A file in the form of RFC 4180 is imported line by line: each line's fields, cut or filled with NULL. */
  method ImportFile(ghost lines: seq<Line>, text: seq<Byte>, n: nat, col: Byte, row: Byte)
    returns (table: seq<seq<Option<Field>>>)
    requires Separators(col, row) && n > 0 && FileOk(lines, col, row) && text == FileText(lines, col, row)
    ensures |table| == |lines| && forall i :: 0 <= i < |lines| ==> table[i] == Columns(lines[i], n)
  {
    FileImports(lines, n, col, row);
    var ctx := new ImportCtx(text, col, row);
    var stmt := new Statement(n);
    ImportRows(ctx, stmt);
    table := stmt.table;
  }

  /** Export with CR LF rows, import with LF rows: the same table comes back. */
  method ExportAndImport(rows: seq<seq<Field>>, n: nat, col: Byte) returns (table: seq<seq<Option<Field>>>)
    requires Plain(col) && n > 0 && Regular(rows, n)
    ensures table == AllRows(rows)
  {
    var file := new TextFile();
    var exporter := new Exporter(file, [col], [CR, LF], []);
    exporter.TableIsCsv(rows, n);
    exporter.OutputTable(AllRows(rows));
    TableReadsBack(rows, n, col);
    assert file.bytes == CsvTable(rows, [col], [CR, LF]);
    var ctx := new ImportCtx(file.bytes, col, LF);
    var stmt := new Statement(n);
    ImportRows(ctx, stmt);
    table := stmt.table;
  }
}

/** The exporter: character loops that write a row to a file. */
module CsvExport {
  import opened Types
  import opened BaseUint
  import opened Csv

  class TextFile {
    var bytes: seq<Byte>

    constructor ()
      ensures bytes == []
    {
      bytes := [];
    }

    method Put(s: seq<Byte>)
      modifies this
      ensures bytes == old(bytes) + s
    {
      bytes := bytes + s;
    }
  }

  /** NULL or a C string. */
  predicate Writable(z: Option<Field>) {
    z.Some? ==> NulFree(z.value)
  }

  ghost predicate AllWritable(fields: seq<Option<Field>>) {
    forall i {:trigger Writable(fields[i])} :: 0 <= i < |fields| ==> Writable(fields[i])
  }

  class Exporter {
    const out: TextFile
    const colSeparator: seq<Byte>
    const rowSeparator: seq<Byte>
    const nullValue: seq<Byte>

    constructor (file: TextFile, col: seq<Byte>, row: seq<Byte>, nullText: seq<Byte>)
      ensures out == file && colSeparator == col && rowSeparator == row && nullValue == nullText
    {
      out, colSeparator, rowSeparator, nullValue := file, col, row, nullText;
    }

    /** What is written for a value: NULLs as they are, without quotes. */
    function Written(z: Option<Field>): seq<Byte> {
      if z.None? then nullValue else CsvField(z.value, colSeparator)
    }

    function WrittenRow(fields: seq<Option<Field>>): seq<Byte> {
      if fields == [] then rowSeparator
      else Written(fields[0]) + (if |fields| > 1 then colSeparator else []) + WrittenRow(fields[1..])
    }

    /** Writes one value, and the separator after it if asked to. */
    method OutputCsv(z: Option<Field>, separate: bool)
      requires Writable(z)
      modifies out
      ensures out.bytes == old(out.bytes) + (Written(z) + if separate then colSeparator else [])
      ensures z.None? ==> out.bytes == old(out.bytes) + (nullValue + if separate then colSeparator else [])
      ensures z.Some? && NeedsNoQuotes(z.value, colSeparator) ==>
        out.bytes == old(out.bytes) + (z.value + if separate then colSeparator else [])
      ensures z.Some? && !NeedsNoQuotes(z.value, colSeparator) ==>
        out.bytes == old(out.bytes) + ([34] + Doubled(z.value, 34) + [34] + if separate then colSeparator else [])
    {
      if z.Some? { QuotedExactlyWhen(z.value, colSeparator); }
      if z.None? {
        out.Put(nullValue);
      } else {
        OutputField(z.value);
      }
      if separate {
        out.Put(colSeparator);
      }
    }

    method OutputField(z: Field)
      requires NulFree(z)
      modifies out
      ensures out.bytes == old(out.bytes) + CsvField(z, colSeparator)
      ensures out.bytes == old(out.bytes) +
        if NeedsNoQuotes(z, colSeparator) then z else [34] + Doubled(z, 34) + [34]
    {
      QuotedExactlyWhen(z, colSeparator);
      var i := 0;
      while i < |z|
        invariant 0 <= i <= |z|
        invariant forall j :: 0 <= j < i ==> !NeedsQuote(z[j]) && !SeparatorAt(z, j, colSeparator)
      {
        if NeedsQuote(z[i]) || SeparatorAt(z, i, colSeparator) {
          assert MustQuote(z, colSeparator);
          i := 0;
          break;
        }
        i := i + 1;
      }
      // Stopped early or nothing to write.
      if i == 0 {
        PutQuoted(z);
      } else {
        out.Put(z);
      }
    }

    method PutQuoted(z: Field)
      requires NulFree(z)
      modifies out
      ensures out.bytes == old(out.bytes) + ([QUOTE] + Doubled(z, QUOTE) + [QUOTE])
    {
      out.Put([QUOTE]);
      for i := 0 to |z|
        invariant out.bytes + Doubled(z[i..], QUOTE) == old(out.bytes) + [QUOTE] + Doubled(z, QUOTE)
      {
        assert z[i..][1..] == z[i + 1..];
        if z[i] == QUOTE {
          out.Put([QUOTE]);
        }
        out.Put([z[i]]);
      }
      assert out.bytes == old(out.bytes) + [QUOTE] + Doubled(z, QUOTE);
      out.Put([QUOTE]);
    }

    /** A row without columns writes nothing, not even the row separator. */
    function RowText(fields: seq<Option<Field>>): seq<Byte> {
      if fields == [] then [] else WrittenRow(fields)
    }

    function TableText(rows: seq<seq<Option<Field>>>): seq<Byte> {
      if rows == [] then [] else RowText(rows[0]) + TableText(rows[1..])
    }

    /** Writes a row. */
    method OutputRow(fields: seq<Option<Field>>)
      requires AllWritable(fields)
      modifies out
      ensures out.bytes == old(out.bytes) + RowText(fields)
    {
      if |fields| > 0 {
        OutputFields(fields);
        out.Put(rowSeparator);
      }
    }

    /** What is written of a row and what is left to write. */
    ghost predicate RowLeft(bytes: seq<Byte>, before: seq<Byte>, fields: seq<Option<Field>>, i: nat)
      requires i <= |fields|
    {
      bytes + WrittenRow(fields[i..]) == before + WrittenRow(fields)
    }

    lemma RowGoesOn(bytes: seq<Byte>, before: seq<Byte>, fields: seq<Option<Field>>, i: nat)
      requires i < |fields| && RowLeft(bytes, before, fields, i)
      ensures RowLeft(bytes + (Written(fields[i]) + if i < |fields| - 1 then colSeparator else []), before, fields, i + 1)
    {
      var one, rest := Written(fields[i]) + (if i < |fields| - 1 then colSeparator else []), WrittenRow(fields[i + 1..]);
      assert fields[i..][1..] == fields[i + 1..] && WrittenRow(fields[i..]) == one + rest;
      assert bytes + (one + rest) == bytes + one + rest;
    }

    method OutputFields(fields: seq<Option<Field>>)
      requires AllWritable(fields)
      modifies out
      ensures out.bytes + rowSeparator == old(out.bytes) + WrittenRow(fields)
    {
      assert fields[0..] == fields;
      ghost var ok := RowLeft(out.bytes, out.bytes, fields, 0);
      for i := 0 to |fields|
        invariant ok && ok == RowLeft(out.bytes, old(out.bytes), fields, i)
      {
        RowGoesOn(out.bytes, old(out.bytes), fields, i);
        assert Writable(fields[i]);
        OutputCsv(fields[i], i < |fields| - 1);
        ok := RowLeft(out.bytes, old(out.bytes), fields, i + 1);
      }
      assert fields[|fields|..] == [];
    }

    ghost predicate TableLeft(bytes: seq<Byte>, before: seq<Byte>, rows: seq<seq<Option<Field>>>, i: nat)
      requires i <= |rows|
    {
      bytes + TableText(rows[i..]) == before + TableText(rows)
    }

    lemma TableGoesOn(bytes: seq<Byte>, before: seq<Byte>, rows: seq<seq<Option<Field>>>, i: nat)
      requires i < |rows| && TableLeft(bytes, before, rows, i)
      ensures TableLeft(bytes + RowText(rows[i]), before, rows, i + 1)
    {
      var one, rest := RowText(rows[i]), TableText(rows[i + 1..]);
      assert rows[i..][1..] == rows[i + 1..] && TableText(rows[i..]) == one + rest;
      assert bytes + (one + rest) == bytes + one + rest;
    }

    /** Writes a table. */
    method OutputTable(rows: seq<seq<Option<Field>>>)
      requires forall i {:trigger AllWritable(rows[i])} :: 0 <= i < |rows| ==> AllWritable(rows[i])
      modifies out
      ensures out.bytes == old(out.bytes) + TableText(rows)
    {
      assert rows[0..] == rows;
      ghost var ok := TableLeft(out.bytes, out.bytes, rows, 0);
      for i := 0 to |rows|
        invariant ok && ok == TableLeft(out.bytes, old(out.bytes), rows, i)
      {
        TableGoesOn(out.bytes, old(out.bytes), rows, i);
        assert AllWritable(rows[i]);
        OutputRow(rows[i]);
        ok := TableLeft(out.bytes, old(out.bytes), rows, i + 1);
      }
      assert rows[|rows|..] == [];
    }

    lemma {:induction false} WrittenIsCsv(fields: seq<Field>)
      ensures WrittenRow(AllSome(fields)) == CsvRow(fields, colSeparator, rowSeparator)
    {
      if fields != [] {
        assert AllSome(fields)[1..] == AllSome(fields[1..]);
        WrittenIsCsv(fields[1..]);
      }
    }

    /** Without NULLs the table is written as its CSV text. */
    lemma {:induction false} TableIsCsv(rows: seq<seq<Field>>, n: nat)
      requires n > 0 && Regular(rows, n)
      ensures TableText(AllRows(rows)) == CsvTable(rows, colSeparator, rowSeparator)
      ensures forall i {:trigger AllWritable(AllRows(rows)[i])} :: 0 <= i < |AllRows(rows)| ==> AllWritable(AllRows(rows)[i])
    {
      if rows != [] {
        var first := AllSome(rows[0]);
        WrittenIsCsv(rows[0]);
        TableIsCsv(rows[1..], n);
        assert AllWritable(first) by {
          forall j | 0 <= j < |first| ensures Writable(first[j]) {
            assert first[j] == Some(rows[0][j]) && NulFree(rows[0][j]);
          }
        }
        assert AllRows(rows)[1..] == AllRows(rows[1..]);
      }
    }
  }
}

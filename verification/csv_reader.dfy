/**
 * A reference reader for the dialect `toCsv` writes: fields separated by
 * commas, records separated by LF, a field starting with a double quote runs
 * to the next lone quote with `""` standing for `"`. It is the partner
 * against which the serialiser's output is checked: reading the text back
 * gives the header list and every row's cells.
 */
module CsvReader {
  import opened Wrappers
  import opened Text
  import opened Csv

  /** An unquoted field: everything up to the next comma or LF. */
  function ReadBare(s: string): (r: (string, string))
    ensures |r.1| <= |s|
  {
    if s == [] || s[0] == ',' || s[0] == '\n' then ([], s)
    else
      var (v, rest) := ReadBare(s[1..]);
      ([s[0]] + v, rest)
  }

  /** The inside of a quoted field, after its opening quote, up to the closing one. */
  function ReadQuoted(s: string): (r: (string, string))
    ensures |r.1| <= |s|
  {
    if s == [] then ([], [])
    else if s[0] == '"' then
      if |s| >= 2 && s[1] == '"' then
        var (v, rest) := ReadQuoted(s[2..]);
        ("\"" + v, rest)
      else ([], s[1..])
    else
      var (v, rest) := ReadQuoted(s[1..]);
      ([s[0]] + v, rest)
  }

  function ReadField(s: string): (r: (string, string))
    ensures |r.1| <= |s|
  {
    if |s| > 0 && s[0] == '"' then ReadQuoted(s[1..]) else ReadBare(s)
  }

  /** One record: its fields, the text after it, and whether an LF ended it. */
  function ReadRecord(s: string): (r: (seq<string>, string, bool))
    ensures |r.1| <= |s|
    ensures r.2 ==> |r.1| < |s|
    decreases |s|
  {
    var (v, rest) := ReadField(s);
    if |rest| > 0 && rest[0] == ',' then
      var (fs, tail, more) := ReadRecord(rest[1..]);
      ([v] + fs, tail, more)
    else if |rest| > 0 && rest[0] == '\n' then ([v], rest[1..], true)
    else ([v], rest, false)
  }

  /** All records of a text whose records are separated (not terminated) by LF. */
  function ReadRecords(s: string): seq<seq<string>>
    decreases |s|
  {
    var (fs, rest, more) := ReadRecord(s);
    if more then [fs] + ReadRecords(rest) else [fs]
  }

  // Round trips.

  /** What a cell holds once written and read back: null and undefined become "". */
  function CellText(v: Option<Cell>): string {
    match v
    case Some(CText(s)) => s
    case _ => ""
  }

  /** A text that may follow a field: nothing, or a separator. */
  predicate AfterField(r: string) {
    r == [] || r[0] == ',' || r[0] == '\n'
  }

  lemma {:induction false} ReadBareRoundTrip(s: string, r: string)
    requires !NeedsQuoting(s) && AfterField(r)
    ensures ReadBare(s + r) == (s, r)
  {
    if s != [] {
      assert (s + r)[0] == s[0] && s[0] in s;
      assert (s + r)[1..] == s[1..] + r;
      assert !NeedsQuoting(s[1..]) by {
        assert forall c :: c in s[1..] ==> c in s;
      }
      ReadBareRoundTrip(s[1..], r);
      assert [s[0]] + s[1..] == s;
    } else {
      assert s + r == r;
    }
  }

  lemma ReadQuotedDoubled(tail: string)
    ensures ReadQuoted("\"\"" + tail) == ("\"" + ReadQuoted(tail).0, ReadQuoted(tail).1)
  {
    var w := "\"\"" + tail;
    assert w[0] == '"' && w[1] == '"' && w[2..] == tail;
  }

  lemma ReadQuotedPlain(c: char, tail: string)
    requires c != '"'
    ensures ReadQuoted([c] + tail) == ([c] + ReadQuoted(tail).0, ReadQuoted(tail).1)
  {
    var w := [c] + tail;
    assert w[0] == c && w[1..] == tail;
  }

  lemma {:induction false} ReadQuotedRoundTrip(s: string, r: string)
    requires r == [] || r[0] != '"'
    ensures ReadQuoted(EscapeQuotes(s) + "\"" + r) == (s, r)
  {
    if s == [] {
      var w := "\"" + r;
      assert EscapeQuotes(s) + "\"" + r == w;
      assert w[0] == '"' && w[1..] == r;
    } else {
      ReadQuotedRoundTrip(s[1..], r);
      var tail := EscapeQuotes(s[1..]) + "\"" + r;
      var head := if s[0] == '"' then "\"\"" else [s[0]];
      assert EscapeQuotes(s) + "\"" + r == head + tail by {
        assert EscapeQuotes(s) == head + EscapeQuotes(s[1..]);
        AppendAssoc(head, EscapeQuotes(s[1..]), "\"");
        AppendAssoc(head, EscapeQuotes(s[1..]) + "\"", r);
      }
      if s[0] == '"' {
        ReadQuotedDoubled(tail);
        assert "\"" + s[1..] == s;
      } else {
        ReadQuotedPlain(s[0], tail);
        assert [s[0]] + s[1..] == s;
      }
    }
  }

  /** Any formatted cell followed by a separator or the end reads back as its text. */
  lemma {:induction false} ReadFieldRoundTrip(v: Option<Cell>, r: string)
    requires AfterField(r)
    ensures ReadField(FormatCell(v) + r) == (CellText(v), r)
  {
    match v
    case None => ReadBareRoundTrip("", r);
    case Some(CNull) => ReadBareRoundTrip("", r);
    case Some(CText(s)) =>
      if NeedsQuoting(s) {
        assert FormatCell(v) + r == "\"" + (EscapeQuotes(s) + "\"" + r);
        ReadQuotedRoundTrip(s, r);
      } else {
        assert s != [] ==> s[0] != '"';
        ReadBareRoundTrip(s, r);
      }
  }

  /** Texts the cells of a line read back as. */
  function Texts(cells: seq<Option<Cell>>): (ts: seq<string>)
    ensures |ts| == |cells|
  {
    if cells == [] then [] else [CellText(cells[0])] + Texts(cells[1..])
  }

  function FormatAll(cells: seq<Option<Cell>>): (fs: seq<string>)
    ensures |fs| == |cells|
  {
    if cells == [] then [] else [FormatCell(cells[0])] + FormatAll(cells[1..])
  }

  /** A line of at least one formatted cell, then the end or an LF, reads back as one record. */
  lemma {:induction false} ReadRecordRoundTrip(cells: seq<Option<Cell>>, r: string)
    requires |cells| >= 1
    requires r == [] || r[0] == '\n'
    ensures ReadRecord(Join(FormatAll(cells), ",") + r)
            == (Texts(cells), if r == [] then [] else r[1..], r != [])
  {
    var f := FormatCell(cells[0]);
    if |cells| == 1 {
      assert cells[1..] == [];
      assert FormatAll(cells) == [f];
      assert Texts(cells) == [CellText(cells[0])];
      ReadFieldRoundTrip(cells[0], r);
    } else {
      var rest := Join(FormatAll(cells[1..]), ",") + r;
      LineCons(cells, r);
      ReadFieldRoundTrip(cells[0], "," + rest);
      assert ("," + rest)[1..] == rest;
      ReadRecordRoundTrip(cells[1..], r);
      assert Texts(cells) == [CellText(cells[0])] + Texts(cells[1..]);
    }
  }

  /** A line of two or more cells is its first formatted cell, a comma, and the rest of the line. */
  lemma LineCons(cells: seq<Option<Cell>>, r: string)
    requires |cells| >= 2
    ensures Join(FormatAll(cells), ",") + r
            == FormatCell(cells[0]) + ("," + (Join(FormatAll(cells[1..]), ",") + r))
  {
    var parts := FormatAll(cells);
    assert parts[1..] == FormatAll(cells[1..]);
    var tail := Join(parts[1..], ",");
    assert Join(parts, ",") == parts[0] + "," + tail;
    AppendAssoc(parts[0], ",", tail);
    AppendAssoc(parts[0], "," + tail, r);
    AppendAssoc(",", tail, r);
  }

  /** Lines of formatted cells joined by LF read back line by line. */
  lemma {:induction false} ReadRecordsRoundTrip(lines: seq<seq<Option<Cell>>>)
    requires |lines| >= 1
    requires forall i :: 0 <= i < |lines| ==> |lines[i]| >= 1
    ensures ReadRecords(Join(EncodeLines(lines), "\n")) == TextLines(lines)
  {
    if |lines| == 1 {
      assert Join(FormatAll(lines[0]), ",") + "" == Join(FormatAll(lines[0]), ",");
      ReadRecordRoundTrip(lines[0], "");
    } else {
      var rest := Join(EncodeLines(lines[1..]), "\n");
      assert EncodeLines(lines)[1..] == EncodeLines(lines[1..]);
      assert Join(EncodeLines(lines), "\n") == Join(FormatAll(lines[0]), ",") + ("\n" + rest);
      ReadRecordRoundTrip(lines[0], "\n" + rest);
      assert ("\n" + rest)[1..] == rest;
      ReadRecordsRoundTrip(lines[1..]);
    }
  }

  function EncodeLines(lines: seq<seq<Option<Cell>>>): (es: seq<string>)
    ensures |es| == |lines|
  {
    if lines == [] then [] else [Join(FormatAll(lines[0]), ",")] + EncodeLines(lines[1..])
  }

  function TextLines(lines: seq<seq<Option<Cell>>>): (ts: seq<seq<string>>)
    ensures |ts| == |lines|
  {
    if lines == [] then [] else [Texts(lines[0])] + TextLines(lines[1..])
  }
}

module CsvTable {
  import opened Wrappers
  import opened Text
  import opened Csv
  import opened CsvReader

  /** The header line as cells: every key is a text cell. */
  function HeaderCells(hs: seq<string>): (cs: seq<Option<Cell>>)
    ensures |cs| == |hs|
  {
    if hs == [] then [] else [Some(CText(hs[0]))] + HeaderCells(hs[1..])
  }

  /** A row's cells in header order. */
  function RowCells(hs: seq<string>, row: Row): (cs: seq<Option<Cell>>)
    ensures |cs| == |hs|
  {
    if hs == [] then [] else [Lookup(row, hs[0])] + RowCells(hs[1..], row)
  }

  function TableCells(hs: seq<string>, rows: seq<Row>): (t: seq<seq<Option<Cell>>>)
    ensures |t| == |rows|
  {
    if rows == [] then [] else [RowCells(hs, rows[0])] + TableCells(hs, rows[1..])
  }

  lemma {:induction false} HeaderCellsFormat(hs: seq<string>)
    ensures FormatAll(HeaderCells(hs)) == FormatHeaders(hs)
    ensures Texts(HeaderCells(hs)) == hs
  {
    if hs != [] {
      HeaderCellsFormat(hs[1..]);
      assert HeaderCells(hs)[1..] == HeaderCells(hs[1..]);
    }
  }

  lemma {:induction false} RowCellsFormat(hs: seq<string>, row: Row)
    ensures FormatAll(RowCells(hs, row)) == FormatRow(hs, row)
    ensures forall j :: 0 <= j < |hs| ==> Texts(RowCells(hs, row))[j] == CellText(Lookup(row, hs[j]))
  {
    if hs != [] {
      RowCellsFormat(hs[1..], row);
      assert RowCells(hs, row)[1..] == RowCells(hs[1..], row);
      forall j | 1 <= j < |hs|
        ensures Texts(RowCells(hs, row))[j] == CellText(Lookup(row, hs[j]))
      {
        assert hs[1..][j - 1] == hs[j];
      }
    }
  }

  lemma {:induction false} TableCellsFormat(hs: seq<string>, rows: seq<Row>)
    ensures EncodeLines(TableCells(hs, rows)) == DataLines(hs, rows)
  {
    if rows != [] {
      RowCellsFormat(hs, rows[0]);
      TableCellsFormat(hs, rows[1..]);
      assert TableCells(hs, rows)[1..] == TableCells(hs, rows[1..]);
    }
  }

  lemma {:induction false} TextLinesAt(lines: seq<seq<Option<Cell>>>, i: nat)
    requires i < |lines|
    ensures TextLines(lines)[i] == Texts(lines[i])
  {
    if i > 0 {
      TextLinesAt(lines[1..], i - 1);
      assert lines[1..][i - 1] == lines[i];
    }
  }

  /**
   * `read` is the header list followed by one record per row holding, for
   * each header, the text of that row's cell.
   */
  predicate ReadsBack(read: seq<seq<string>>, hs: seq<string>, rows: seq<Row>) {
    && |read| == |rows| + 1
    && read[0] == hs
    && forall i :: 1 <= i < |read| ==>
         && |read[i]| == |hs|
         && forall j :: 0 <= j < |hs| ==> read[i][j] == CellText(Lookup(rows[i - 1], hs[j]))
  }

  /**
   * With the header line quoted like the cells, reading the output back gives
   * one record for the headers and, for every row, the text of each header's
   * cell (empty where the row lacks the key or holds null).
   */
  lemma CsvRoundTrip(rows: seq<Row>)
    requires Headers(rows) != []
    ensures ReadsBack(ReadRecords(ToCsvQuotedHeaders(rows)), Headers(rows), rows)
  {
    var hs := Headers(rows);
    assert rows != [];
    var lines := [HeaderCells(hs)] + TableCells(hs, rows);
    HeaderCellsFormat(hs);
    TableCellsFormat(hs, rows);
    assert lines[1..] == TableCells(hs, rows);
    assert EncodeLines(lines) == [Join(FormatHeaders(hs), ",")] + DataLines(hs, rows);
    forall i | 0 <= i < |lines|
      ensures |lines[i]| >= 1
    {
      if i > 0 {
        assert lines[i] == TableCells(hs, rows)[i - 1];
        TableCellsRows(hs, rows, i - 1);
      }
    }
    ReadRecordsRoundTrip(lines);
    var read := ReadRecords(ToCsvQuotedHeaders(rows));
    assert read == TextLines(lines);
    TextLinesAt(lines, 0);
    forall i | 1 <= i < |read|
      ensures |read[i]| == |hs|
      ensures forall j :: 0 <= j < |hs| ==> read[i][j] == CellText(Lookup(rows[i - 1], hs[j]))
    {
      TextLinesAt(lines, i);
      TableCellsRows(hs, rows, i - 1);
      RowCellsFormat(hs, rows[i - 1]);
    }
  }

  lemma {:induction false} TableCellsRows(hs: seq<string>, rows: seq<Row>, i: nat)
    requires i < |rows|
    ensures TableCells(hs, rows)[i] == RowCells(hs, rows[i])
  {
    if i > 0 {
      TableCellsRows(hs, rows[1..], i - 1);
      assert rows[1..][i - 1] == rows[i];
    }
  }

  /** A single-row table reads back as its header line and one record of its cells. */
  lemma SingleRowReadsBack(row: Row)
    requires Headers([row]) != []
    ensures var read := ReadRecords(ToCsvQuotedHeaders([row]));
            && |read| == 2 && read[0] == Headers([row]) && |read[1]| == |Headers([row])|
            && forall j :: 0 <= j < |read[1]| ==> read[1][j] == CellText(Lookup(row, Headers([row])[j]))
  {
    CsvRoundTrip([row]);
  }

  /** One row whose only key contains a comma. */
  const CommaKeyRows: seq<Row> := [[("a,b", CText("x"))]]

  lemma CommaKeyHeaders()
    ensures Headers(CommaKeyRows) == ["a,b"]
  {
    assert AllKeys(CommaKeyRows) == ["a,b"] by {
      assert CommaKeyRows[..0] == [];
    }
  }

  lemma CommaKeyText()
    ensures ToCsv(CommaKeyRows) == "a,b\nx"
  {
    CommaKeyHeaders();
    assert FormatRow(["a,b"], CommaKeyRows[0]) == ["x"];
  }

  lemma CommaKeyRead()
    ensures ReadRecords("a,b\nx")[0] == ["a", "b"]
  {
    var text := "a,b\nx";
    assert ReadBare(text) == ("a", ",b\nx") by {
      assert text == "a" + ",b\nx";
      ReadBareRoundTrip("a", ",b\nx");
    }
    assert ReadBare("b\nx") == ("b", "\nx") by {
      assert "b\nx" == "b" + "\nx";
      ReadBareRoundTrip("b", "\nx");
    }
    assert ReadRecord("b\nx") == (["b"], "x", true);
    assert ReadRecord(text).0 == ["a", "b"];
  }

  /**
   * As written, a key containing a comma splits the header line: one row with
   * the key "a,b" serialises to `a,b` LF `x`, whose first record reads back as
   * two headers although the table has one.
   */
  lemma UnquotedHeaderSplits()
    ensures && Headers(CommaKeyRows) == ["a,b"]
            && ToCsv(CommaKeyRows) == "a,b\nx"
            && ReadRecords(ToCsv(CommaKeyRows))[0] == ["a", "b"]
            && ReadRecords(ToCsv(CommaKeyRows))[0] != Headers(CommaKeyRows)
            && ReadsBack(ReadRecords(ToCsvQuotedHeaders(CommaKeyRows)), Headers(CommaKeyRows), CommaKeyRows)
  {
    CommaKeyHeaders();
    CommaKeyText();
    CommaKeyRead();
    CsvRoundTrip(CommaKeyRows);
  }
}

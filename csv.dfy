/**
 * The CSV record reader and writer (internal/services/csv.go).
 *
 * The byte-level CSV syntax (quotes, escapes, line endings) belongs to encoding/csv and is not
 * modelled: the input of Parse is the sequence of records the csv lexer splits out of the
 * bytes, and the output of Generate is the sequence of rows handed to csv.Writer.
 */
module Csv {
  import opened Results
  import opened Models
  import opened GoText

  /** One record as encoding/csv splits it out of the input, or a syntax fault it hits there. */
  datatype Lexed = Fields(fields: seq<string>) | SyntaxFault

  /** What one call of csv.Reader.Read returns before io.EOF: a record, or an error. */
  datatype Read = Record(fields: seq<string>) | ReadFault

  /**
   * The reader made by csv.NewReader with its default settings. FieldsPerRecord starts at 0,
   * so the first record's field count becomes the expected count, and every later record with
   * another count is returned as an ErrFieldCount error. After a faulty first record the
   * expected count is unknown; Parse never reads past such a record, so later records are
   * passed through unchecked. The ensures restate encoding/csv's FieldsPerRecord == 0 rule;
   * what Parse makes of it is stated by ParseWithDefaultReader.
   */
  function DefaultReader(data: seq<Lexed>): (stream: seq<Read>)
    ensures |stream| == |data|
    ensures forall i :: 0 <= i < |data| ==> stream[i].Record? ==> data[i].Fields? && stream[i].fields == data[i].fields
    ensures forall i :: 0 < i < |data| ==> data[0].Fields? ==>
              (stream[i].Record? <==> data[i].Fields? && |data[i].fields| == |data[0].fields|)
  {
    seq(|data|, i requires 0 <= i < |data| =>
      if data[i].SyntaxFault? then ReadFault
      else if i > 0 && data[0].Fields? && |data[i].fields| != |data[0].fields| then ReadFault
      else Record(data[i].fields))
  }

  /** A CSV row before type checking, with the line it was read from (the header is line 1). */
  datatype RawPriceRecord = RawPriceRecord(
    lineNumber: int, id: string, name: string, category: string, price: string, createDate: string)

  /** Why Parse gave up. */
  datatype ParseError =
    | HeaderUnreadable          // no header record, or the reader failed on it
    | HeaderTooShort(got: nat)  // the header has fewer than five fields
    | RowUnreadable(line: int)  // the reader failed on the data row at this line

  /** The number of columns a header or a data row needs. */
  const MinColumns: nat := 5

  /** The raw record built from the first five fields of a row. */
  function ToRaw(fields: seq<string>, line: int): RawPriceRecord
    requires |fields| >= MinColumns
  {
    RawPriceRecord(line, fields[0], fields[1], fields[2], fields[3], fields[4])
  }

  /** rec is the raw record of the data row on its line: that row was read and has five fields. */
  predicate FromItsRow(rows: seq<Read>, rec: RawPriceRecord) {
    && 2 <= rec.lineNumber <= |rows| + 1
    && rows[rec.lineNumber - 2].Record?
    && |rows[rec.lineNumber - 2].fields| >= MinColumns
    && rec == ToRaw(rows[rec.lineNumber - 2].fields, rec.lineNumber)
  }

  /**
   * The data-row loop of Parse over the rows read after the header, written as a function of
   * the rows read so far; row k is on line k + 2.
   */
  function DataRows(rows: seq<Read>): (r: Result<seq<RawPriceRecord>, ParseError>)
    ensures r.Ok? ==> |r.value| <= |rows| && forall i :: 0 <= i < |rows| ==> rows[i].Record?
    ensures r.Err? ==> r.error.RowUnreadable? && 2 <= r.error.line <= |rows| + 1 && rows[r.error.line - 2].ReadFault?
  {
    if rows == [] then Ok([])
    else
      match DataRows(rows[..|rows| - 1])
      case Err(e) => Err(e)
      case Ok(recs) =>
        var row := rows[|rows| - 1];
        if row.ReadFault? then Err(RowUnreadable(|rows| + 1))
        else if |row.fields| < MinColumns then Ok(recs)
        else Ok(recs + [ToRaw(row.fields, |rows| + 1)])
  }

  /** The index of the first unreadable row, or |rows| when every row was read. */
  function FirstFault(rows: seq<Read>): (k: nat)
    ensures k <= |rows|
    ensures k < |rows| ==> rows[k].ReadFault?
    ensures forall i :: 0 <= i < k ==> rows[i].Record?
  {
    if rows == [] then 0 else if rows[0].ReadFault? then 0 else 1 + FirstFault(rows[1..])
  }

  lemma FirstFaultOfPrefix(rows: seq<Read>)
    requires rows != []
    ensures var p := rows[..|rows| - 1];
            FirstFault(rows) == if FirstFault(p) < |p| then FirstFault(p)
                                else if rows[|rows| - 1].ReadFault? then |p| else |rows|
  {
    var p := rows[..|rows| - 1];
    var k := FirstFault(rows);
    if k < |p| {
      FirstFaultAt(p, k);
    } else {
      assert forall i :: 0 <= i < |p| ==> p[i].Record?;
    }
  }

  /** A row index k with a fault and none before it is the first fault. */
  lemma {:induction false} FirstFaultAt(rows: seq<Read>, k: nat)
    requires k < |rows| && rows[k].ReadFault?
    requires forall i :: 0 <= i < k ==> rows[i].Record?
    ensures FirstFault(rows) == k
  {
    if k > 0 {
      FirstFaultAt(rows[1..], k - 1);
    }
  }

  /** The run fails exactly when some row is unreadable, and names the line of the first such row. */
  lemma {:induction false} DataRowsFailure(rows: seq<Read>)
    ensures DataRows(rows).Err? <==> FirstFault(rows) < |rows|
    ensures DataRows(rows).Err? ==> DataRows(rows).error == RowUnreadable(FirstFault(rows) + 2)
  {
    if rows != [] {
      DataRowsFailure(rows[..|rows| - 1]);
      FirstFaultOfPrefix(rows);
    }
  }

  /** On success each record is built from its own row, which was read and has five fields. */
  lemma {:induction false} DataRowsFromRows(rows: seq<Read>)
    requires DataRows(rows).Ok?
    ensures forall j :: 0 <= j < |DataRows(rows).value| ==> FromItsRow(rows, DataRows(rows).value[j])
  {
    if rows != [] {
      var prefix := rows[..|rows| - 1];
      DataRowsFromRows(prefix);
      var recs := DataRows(prefix).value;
      forall j | 0 <= j < |recs| ensures FromItsRow(rows, recs[j]) {
        assert FromItsRow(prefix, recs[j]);
        assert rows[recs[j].lineNumber - 2] == prefix[recs[j].lineNumber - 2];
      }
    }
  }

  /** On success the line numbers of the records strictly increase: records keep row order. */
  lemma {:induction false} DataRowsInRowOrder(rows: seq<Read>)
    requires DataRows(rows).Ok?
    ensures var recs := DataRows(rows).value;
            forall i, j :: 0 <= i < j < |recs| ==> recs[i].lineNumber < recs[j].lineNumber
  {
    if rows != [] {
      var prefix := rows[..|rows| - 1];
      DataRowsInRowOrder(prefix);
      DataRowsFromRows(prefix);
      var recs := DataRows(prefix).value;
      assert forall i :: 0 <= i < |recs| ==> FromItsRow(prefix, recs[i]);
    }
  }

  /** On success every readable row with at least five fields has a record on its line. */
  lemma {:induction false} DataRowsKeepsLongRows(rows: seq<Read>)
    requires DataRows(rows).Ok?
    ensures var recs := DataRows(rows).value;
            forall k :: 0 <= k < |rows| && rows[k].Record? && |rows[k].fields| >= MinColumns ==>
              exists j :: 0 <= j < |recs| && recs[j].lineNumber == k + 2
  {
    if rows != [] {
      var prefix, row := rows[..|rows| - 1], rows[|rows| - 1];
      DataRowsKeepsLongRows(prefix);
      var recs, recs' := DataRows(prefix).value, DataRows(rows).value;
      forall k | 0 <= k < |rows| && rows[k].Record? && |rows[k].fields| >= MinColumns
        ensures exists j :: 0 <= j < |recs'| && recs'[j].lineNumber == k + 2
      {
        if k < |prefix| {
          assert prefix[k] == rows[k];
          var j :| 0 <= j < |recs| && recs[j].lineNumber == k + 2;
          assert recs'[j] == recs[j];
        } else {
          assert recs'[|recs|].lineNumber == k + 2;
        }
      }
    }
  }

  /** A failure in the first k rows is the failure of the whole run. */
  lemma {:induction false} DataRowsFailureSticks(rows: seq<Read>, k: nat)
    requires k <= |rows| && DataRows(rows[..k]).Err?
    ensures DataRows(rows) == DataRows(rows[..k])
  {
    if k < |rows| {
      assert rows[..|rows| - 1][..k] == rows[..k];
      DataRowsFailureSticks(rows[..|rows| - 1], k);
    } else {
      assert rows[..k] == rows;
    }
  }

  /**
   * Parse applied to what the reader returns: the header must be readable and have at least
   * five fields; then the data rows are collected and counted.
   */
  function ParseReads(stream: seq<Read>): (r: Result<(seq<RawPriceRecord>, int), ParseError>)
    ensures stream == [] || stream[0].ReadFault? ==> r == Err(HeaderUnreadable)
    ensures stream != [] && stream[0].Record? && |stream[0].fields| < MinColumns ==> r == Err(HeaderTooShort(|stream[0].fields|))
    ensures r.Ok? ==> r.value.1 == |r.value.0|
  {
    if stream == [] || stream[0].ReadFault? then Err(HeaderUnreadable)
    else if |stream[0].fields| < MinColumns then Err(HeaderTooShort(|stream[0].fields|))
    else match DataRows(stream[1..])
      case Err(e) => Err(e)
      case Ok(records) => Ok((records, |records|))
  }

  /**
   * CSVService.Parse: reads the header, then every data row until EOF, keeping a line counter
   * and the records of the rows with at least five fields; the count returned is the number of
   * records. Any reader error aborts the whole parse.
   */
  method Parse(data: seq<Lexed>) returns (r: Result<(seq<RawPriceRecord>, int), ParseError>)
    ensures r == ParseReads(DefaultReader(data))
    ensures r.Ok? ==> r.value.1 == |r.value.0|
  {
    var stream := DefaultReader(data);
    if |stream| == 0 || stream[0].ReadFault? {
      return Err(HeaderUnreadable);
    }
    var header := stream[0].fields;
    if |header| < MinColumns {
      return Err(HeaderTooShort(|header|));
    }
    var records: seq<RawPriceRecord> := [];
    var lineNumber := 1;
    var next := 1;  // the reader's position
    while next < |stream|
      invariant 1 <= next <= |stream|
      invariant lineNumber == next
      invariant DataRows(stream[1..next]) == Ok(records)
    {
      var row := stream[next];
      assert stream[1..next + 1][..next - 1] == stream[1..next];
      if row.ReadFault? {
        assert stream[1..][..next] == stream[1..next + 1];
        DataRowsFailureSticks(stream[1..], next);
        return Err(RowUnreadable(lineNumber + 1));
      }
      next := next + 1;
      lineNumber := lineNumber + 1;
      if |row.fields| < MinColumns {
        continue;
      }
      records := records + [RawPriceRecord(lineNumber, row.fields[0], row.fields[1], row.fields[2], row.fields[3], row.fields[4])];
    }
    assert stream[1..next] == stream[1..];
    return Ok((records, |records|));
  }

  /** Every data row has the header's field count. */
  predicate UniformFieldCount(data: seq<Lexed>)
    requires data != [] && data[0].Fields?
  {
    forall i :: 0 < i < |data| ==> data[i].Fields? && |data[i].fields| == |data[0].fields|
  }

  /** Readable rows that all have at least five fields are all kept, row k on line k + 2. */
  lemma {:induction false} DataRowsAllLong(rows: seq<Read>)
    requires forall k :: 0 <= k < |rows| ==> rows[k].Record? && |rows[k].fields| >= MinColumns
    ensures DataRows(rows).Ok?
    ensures |DataRows(rows).value| == |rows|
    ensures forall k :: 0 <= k < |rows| ==> DataRows(rows).value[k] == ToRaw(rows[k].fields, k + 2)
  {
    if rows != [] {
      DataRowsAllLong(rows[..|rows| - 1]);
    }
  }

  /**
   * Under the default reader the short-row branch of Parse is never taken: Parse succeeds
   * exactly when the header has at least five fields and every data row has the header's field
   * count, and then every data row becomes a record, row k on line k + 2.
   */
  lemma ParseWithDefaultReader(data: seq<Lexed>)
    ensures ParseReads(DefaultReader(data)).Ok? <==>
              data != [] && data[0].Fields? && |data[0].fields| >= MinColumns && UniformFieldCount(data)
    ensures ParseReads(DefaultReader(data)).Ok? ==>
              var records := ParseReads(DefaultReader(data)).value.0;
              && |records| == |data| - 1
              && forall k :: 0 < k < |data| ==> records[k - 1] == ToRaw(data[k].fields, k + 1)
  {
    var stream := DefaultReader(data);
    if data != [] && data[0].Fields? && |data[0].fields| >= MinColumns {
      var rows := stream[1..];
      if UniformFieldCount(data) {
        assert forall k :: 0 <= k < |rows| ==> rows[k] == stream[k + 1];
        DataRowsAllLong(rows);
      } else {
        var i :| 0 < i < |data| && !(data[i].Fields? && |data[i].fields| == |data[0].fields|);
        assert rows[i - 1].ReadFault?;
        DataRowsFailure(rows);
      }
    }
  }

  // ---------------------------------------------------------------------------
  // Generate
  // ---------------------------------------------------------------------------

  /** The header row Generate writes first. */
  const Header: seq<string> := ["id", "name", "category", "price", "create_date"]

  /** The row written for one price: decimal id, name, category, two-decimal price, the date. */
  function FormatRecord(p: Price): seq<string> {
    [Itoa(p.id), p.name, p.category, FormatPrice(p.price), FormatDate(p.createDate)]
  }

  /** The rows handed to csv.Writer for a list of prices. */
  function CsvRows(prices: seq<Price>): (rows: seq<seq<string>>)
    ensures |rows| == |prices| + 1 && rows[0] == Header
    ensures forall i :: 0 <= i < |prices| ==> rows[i + 1] == FormatRecord(prices[i])
  {
    var body := seq(|prices|, i requires 0 <= i < |prices| => FormatRecord(prices[i]));
    assert forall i :: 0 <= i < |prices| ==> ([Header] + body)[i + 1] == body[i];
    [Header] + body
  }

  /** Writing one more price adds exactly its row at the end. */
  lemma CsvRowsAppend(prices: seq<Price>, p: Price)
    ensures CsvRows(prices + [p]) == CsvRows(prices) + [FormatRecord(p)]
  {
    var a, b := CsvRows(prices + [p]), CsvRows(prices) + [FormatRecord(p)];
    assert |a| == |b|;
    forall k | 1 <= k < |a| ensures a[k] == b[k] {
      var q := (prices + [p])[k - 1];
      assert a[k] == FormatRecord(q);
      if k - 1 < |prices| {
        assert q == prices[k - 1];
      } else {
        assert q == p;
      }
    }
  }

  /**
   * CSVService.Generate: the header row, then one row per price in order. Writing into an
   * in-memory buffer cannot fail, so the error results of the source never occur.
   */
  method Generate(prices: seq<Price>) returns (rows: seq<seq<string>>)
    ensures rows == CsvRows(prices)
    ensures |rows| == |prices| + 1 && rows[0] == Header
  {
    rows := [Header];
    for i := 0 to |prices|
      invariant rows == CsvRows(prices[..i])
    {
      var p := prices[i];
      var row := FormatRecord(p);
      assert rows + [row] == CsvRows(prices[..i + 1]) by {
        CsvRowsAppend(prices[..i], p);
        assert prices[..i + 1] == prices[..i] + [p];
      }
      rows := rows + [row];
    }
    assert prices[..|prices|] == prices;
  }

  /**
   * What csv.Reader returns for a field that csv.Writer wrote. The writer quotes a field that
   * holds a separator, a quote, a line break or leading white space, and the reader undoes the
   * quoting; but the reader turns every "\r\n" line ending into "\n", inside a quoted field as
   * well, so a carriage return directly before a line feed is lost.
   */
  function ReadField(f: string): (r: string)
    ensures |r| <= |f|
  {
    if |f| < 2 then f
    else if f[0] == '\r' && f[1] == '\n' then ReadField(f[1..])
    else [f[0]] + ReadField(f[1..])
  }

  /** A field without a carriage return comes back unchanged. */
  lemma {:induction false} ReadFieldVerbatim(f: string)
    requires '\r' !in f
    ensures ReadField(f) == f
  {
    if |f| >= 2 {
      assert f[1..][0] == f[1];
      assert '\r' !in f[1..];
      ReadFieldVerbatim(f[1..]);
      assert f == [f[0]] + f[1..];
    }
  }

  /** A name written as "a\r\nb" is read back as "a\nb". */
  lemma CrLfReadAsLf()
    ensures ReadField("a\r\nb") == "a\nb"
  {
    assert "a\r\nb"[1..] == "\r\nb";
    assert "\r\nb"[1..] == "\nb";
    assert "\nb"[1..] == "b";
  }

  /** What csv.Reader returns for a row that csv.Writer wrote. */
  function ReadRow(row: seq<string>): (r: seq<string>)
    ensures |r| == |row| && forall j :: 0 <= j < |row| ==> r[j] == ReadField(row[j])
  {
    seq(|row|, j requires 0 <= j < |row| => ReadField(row[j]))
  }

  /** The records csv.Reader streams back from the rows Generate wrote. */
  function ReadBack(rows: seq<seq<string>>): (data: seq<Lexed>)
    ensures |data| == |rows|
    ensures forall i :: 0 <= i < |rows| ==> data[i] == Fields(ReadRow(rows[i]))
  {
    seq(|rows|, i requires 0 <= i < |rows| => Fields(ReadRow(rows[i])))
  }

  /** A price whose text fields hold no carriage return: the writer and reader return its row unchanged. */
  predicate WritesVerbatim(p: Price) {
    '\r' !in p.name && '\r' !in p.category
  }

  /** The row of a price without carriage returns is read back as written. */
  lemma ReadRowFormatted(p: Price)
    requires WritesVerbatim(p)
    ensures ReadRow(FormatRecord(p)) == FormatRecord(p)
  {
    var id, price, date := Itoa(p.id), FormatPrice(p.price), FormatDate(p.createDate);
    ReadFieldVerbatim(p.name);
    ReadFieldVerbatim(p.category);
    PrintedVerbatim(id);
    PrintedVerbatim(price);
    PrintedVerbatim(date);
    ReadRowUnchanged(id, p.name, p.category, price, date);
  }

  /** A five-field row whose every field is read back unchanged is read back unchanged. */
  lemma ReadRowUnchanged(a: string, b: string, c: string, d: string, e: string)
    requires ReadField(a) == a && ReadField(b) == b && ReadField(c) == c
    requires ReadField(d) == d && ReadField(e) == e
    ensures ReadRow([a, b, c, d, e]) == [a, b, c, d, e]
  {
    var row := [a, b, c, d, e];
    assert forall j :: 0 <= j < 5 ==> ReadField(row[j]) == row[j];
  }

  /** Text of signs, digits and points, as the formatters write it, is read back unchanged. */
  lemma PrintedVerbatim(f: string)
    requires forall i :: 0 <= i < |f| ==> f[i] == '-' || f[i] == '.' || IsDigit(f[i])
    ensures ReadField(f) == f
  {
    ReadFieldVerbatim(f);
  }

  /**
   * Parsing what Generate wrote gives one raw record per price, in order, holding the five
   * formatted fields of that price as csv.Reader returns them.
   */
  lemma ParseGenerated(prices: seq<Price>)
    ensures ParseReads(DefaultReader(ReadBack(CsvRows(prices)))).Ok?
    ensures var (records, count) := ParseReads(DefaultReader(ReadBack(CsvRows(prices)))).value;
            && count == |records| == |prices|
            && forall k :: 0 <= k < |prices| ==> records[k] == ToRaw(ReadRow(FormatRecord(prices[k])), k + 2)
  {
    var data := ReadBack(CsvRows(prices));
    ParseWithDefaultReader(data);
  }
}

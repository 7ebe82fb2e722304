/** `save_csv`: the accepted records appended to a CSV file whose first line
    is the header, written only when the file is created. Cells are kept as
    values; the CSV quoting and the formatting of floats are not modelled. */
module Csv {
  import opened Wrappers
  import opened Product

  /** One CSV field as `csv.DictWriter` receives it: the price is a number,
      every other field a string. */
  datatype Cell = Text(s: string) | Number(x: real)

  type Row = seq<Cell>

  /** The column names, in column order. */
  const Fields: seq<string> :=
    ["name", "link", "screen", "resolution", "os", "cpu", "gpu", "ram", "storage", "price", "date"]

  /** The header line `writeheader` writes. */
  function HeaderRow(): (r: Row)
    ensures |r| == |Fields| && forall i :: 0 <= i < |r| ==> r[i] == Text(Fields[i])
  {
    [Text("name"), Text("link"), Text("screen"), Text("resolution"), Text("os"), Text("cpu"),
     Text("gpu"), Text("ram"), Text("storage"), Text("price"), Text("date")]
  }

  /** The value a record holds under a column name: the dictionary that
      `parse_product` builds, looked up by key. */
  function Field(l: Laptop, name: string): Cell
    requires name in Fields
  {
    if name == "name" then Text(l.name)
    else if name == "link" then Text(l.link)
    else if name == "screen" then Text(l.screen)
    else if name == "resolution" then Text(l.resolution)
    else if name == "os" then Text(l.os)
    else if name == "cpu" then Text(l.cpu)
    else if name == "gpu" then Text(l.gpu)
    else if name == "ram" then Text(l.ram)
    else if name == "storage" then Text(l.storage)
    else if name == "price" then Number(l.price)
    else Text(l.date)
  }

  /** The line `writerows` writes for one record: in each column, the
      record's value under that column's name. */
  function RecordRow(l: Laptop): (r: Row)
    ensures |r| == |Fields|
    ensures forall i :: 0 <= i < |Fields| ==> r[i] == Field(l, Fields[i])
  {
    [Text(l.name), Text(l.link), Text(l.screen), Text(l.resolution), Text(l.os), Text(l.cpu),
     Text(l.gpu), Text(l.ram), Text(l.storage), Number(l.price), Text(l.date)]
  }

  /** Reading a line back: a record line gives its record; any other line,
      the header included, gives `None`. */
  function RowToLaptop(row: Row): Option<Laptop> {
    if |row| == |Fields| && row[9].Number? &&
       forall i :: 0 <= i < |row| && i != 9 ==> row[i].Text?
    then Some(Laptop(row[0].s, row[1].s, row[2].s, row[3].s, row[4].s, row[5].s,
                     row[6].s, row[7].s, row[8].s, row[9].x, row[10].s))
    else None
  }

  /** A written record line reads back as the record. */
  lemma RecordRowRoundTrip(l: Laptop)
    ensures RowToLaptop(RecordRow(l)) == Some(l)
  {
  }

  /** The header never reads as a record: its price column is text. */
  lemma HeaderIsNoRecord()
    ensures RowToLaptop(HeaderRow()) == None
  {
    assert HeaderRow()[9] == Text("price");
  }

  /** The lines `writerows(data)` writes, one per record, in order. */
  function Rows(data: seq<Laptop>): (rows: seq<Row>)
    ensures |rows| == |data|
    decreases |data|
  {
    if data == [] then [] else Rows(data[..|data| - 1]) + [RecordRow(data[|data| - 1])]
  }

  /** The records one line holds: its record, or none. */
  function LineRecords(row: Row): (r: seq<Laptop>)
    ensures |r| <= 1
  {
    match RowToLaptop(row)
    case None => []
    case Some(l) => [l]
  }

  /** The records a file holds, read line by line, lines that are not
      records skipped. */
  function Records(rows: seq<Row>): (records: seq<Laptop>)
    ensures |records| <= |rows|
    decreases |rows|
  {
    if rows == [] then [] else Records(rows[..|rows| - 1]) + LineRecords(rows[|rows| - 1])
  }

  lemma {:induction false} RecordsAppend(a: seq<Row>, b: seq<Row>)
    ensures Records(a + b) == Records(a) + Records(b)
    decreases |b|
  {
    if b == [] {
      assert a + b == a;
    } else {
      var ab := a + b;
      assert ab[..|ab| - 1] == a + b[..|b| - 1];
      assert ab[|ab| - 1] == b[|b| - 1];
      RecordsAppend(a, b[..|b| - 1]);
      var last := LineRecords(b[|b| - 1]);
      assert Records(ab) == Records(a + b[..|b| - 1]) + last;
      assert Records(b) == Records(b[..|b| - 1]) + last;
      assert (Records(a) + Records(b[..|b| - 1])) + last == Records(a) + (Records(b[..|b| - 1]) + last);
    }
  }

  /** Reading back the lines written for `data` gives `data`. */
  lemma {:induction false} RowsRoundTrip(data: seq<Laptop>)
    ensures Records(Rows(data)) == data
    decreases |data|
  {
    if data != [] {
      var init := data[..|data| - 1];
      RowsRoundTrip(init);
      RecordRowRoundTrip(data[|data| - 1]);
      RecordsAppend(Rows(init), [RecordRow(data[|data| - 1])]);
      assert Records([RecordRow(data[|data| - 1])]) == [data[|data| - 1]] by {
        assert [RecordRow(data[|data| - 1])][..0] == [];
      }
      assert init + [data[|data| - 1]] == data;
    }
  }

  /** A file this program wrote: absent and empty, or the header followed by
      record lines only. */
  predicate WellFormed(present: bool, rows: seq<Row>) {
    if present then |rows| > 0 && rows[0] == HeaderRow() && forall i :: 1 <= i < |rows| ==> RowToLaptop(rows[i]).Some?
    else rows == []
  }

  /** The file after `save_csv(data)`: untouched for no data; otherwise the
      header if the file did not exist, then one line per record. */
  function Saved(present: bool, rows: seq<Row>, data: seq<Laptop>): (r: (bool, seq<Row>))
    ensures data == [] ==> r == (present, rows)
    ensures data != [] ==> r.0 && rows <= r.1
  {
    if data == [] then (present, rows)
    else (true, rows + (if present then [] else [HeaderRow()]) + Rows(data))
  }

  /** Saving keeps a well-formed file well-formed: the header is written once,
      on the first line, and every further line is a record. */
  lemma SavedWellFormed(present: bool, rows: seq<Row>, data: seq<Laptop>)
    requires WellFormed(present, rows)
    ensures var r := Saved(present, rows, data); WellFormed(r.0, r.1)
  {
    if data != [] {
      var head := rows + (if present then [] else [HeaderRow()]);
      var r := head + Rows(data);
      assert head[0] == HeaderRow();
      forall i | 1 <= i < |r|
        ensures RowToLaptop(r[i]).Some?
      {
        if i >= |head| {
          RowsAreRecords(data, i - |head|);
          RecordRowRoundTrip(data[i - |head|]);
          assert r[i] == Rows(data)[i - |head|];
        } else {
          assert r[i] == head[i];
        }
      }
    }
  }

  lemma {:induction false} RowsAreRecords(data: seq<Laptop>, i: nat)
    requires i < |data|
    ensures Rows(data)[i] == RecordRow(data[i])
    decreases |data|
  {
    if i < |data| - 1 {
      RowsAreRecords(data[..|data| - 1], i);
    }
  }

  /** Reading the file back after saving gives the records it held before,
      then the saved ones, in order. */
  lemma SavedReadsBack(present: bool, rows: seq<Row>, data: seq<Laptop>)
    ensures Records(Saved(present, rows, data).1) == Records(rows) + data
  {
    if data == [] {
      assert Records(rows) + data == Records(rows);
    } else {
      var header := if present then [] else [HeaderRow()];
      assert Records(header) == [] by {
        if !present {
          HeaderIsNoRecord();
          assert header[..0] == [];
        }
      }
      RecordsAppend(rows, header);
      RecordsAppend(rows + header, Rows(data));
      RowsRoundTrip(data);
      assert Records(rows) + [] == Records(rows);
    }
  }

  /** The CSV file on disk: whether it exists, and its lines. */
  class CsvFile {
    var present: bool
    var rows: seq<Row>

    constructor (present: bool, rows: seq<Row>)
      ensures this.present == present && this.rows == rows
    {
      this.present := present;
      this.rows := rows;
    }

    /** `save_csv(data, filename)`. */
    method SaveCsv(data: seq<Laptop>)
      modifies this
      ensures (present, rows) == Saved(old(present), old(rows), data)
    {
      if data == [] {
        return;
      }
      var header := if present then [] else [HeaderRow()];
      present := true;
      rows := rows + header + Rows(data);
    }
  }
}

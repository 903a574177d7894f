/**
 * The CSV import of a health worker's dashboard, pulled out of its click
 * handler: header matching, default values for missing cells and the records
 * built from the data rows; and the export row builder, its counterpart.
 */
module Import {
  import opened Wrappers
  import opened JsString
  import opened Csv
  import opened Records

  /** The nine column names the import looks for, after trimming and lower-casing the header. */
  const REQUIRED: seq<string> :=
    ["child name", "age", "parent name", "barangay", "sitio", "bcg", "opv", "pentavalent", "measles"]

  /** The header row the export writes. */
  const HEADER: seq<string> :=
    ["Child Name", "Age", "Parent Name", "Barangay", "Sitio", "BCG", "OPV", "Pentavalent", "Measles"]

  /** The `idx` object: the column of each required name. */
  datatype Columns = Columns(
    child: nat, age: nat, parent: nat, barangay: nat, sitio: nat,
    bcg: nat, opv: nat, penta: nat, measles: nat)

  /** Why an import is rejected: no row at all, or a required column missing. */
  datatype ImportError = EmptyCsv | MissingColumns

  /** `rows[0].map(h => h.trim().toLowerCase())`. */
  function NormalizeHeaders(hdr: seq<string>): seq<string> {
    seq(|hdr|, j requires 0 <= j < |hdr| => Lower(Trim(hdr[j])))
  }

  /** Every required name occurs among the normalised headers `n`. */
  predicate HasAllColumns(n: seq<string>) {
    forall j :: 0 <= j < |REQUIRED| ==> REQUIRED[j] in n
  }

  /** `k` is where `indexOf` finds `name` in `n`: its first occurrence. */
  predicate FirstAt(n: seq<string>, name: string, k: nat) {
    k < |n| && n[k] == name && forall j :: 0 <= j < k ==> n[j] != name
  }

  /** Every column of `c` is the first occurrence of its name in `n`. */
  predicate Locates(n: seq<string>, c: Columns) {
    FirstAt(n, REQUIRED[0], c.child) && FirstAt(n, REQUIRED[1], c.age) && FirstAt(n, REQUIRED[2], c.parent)
    && FirstAt(n, REQUIRED[3], c.barangay) && FirstAt(n, REQUIRED[4], c.sitio) && FirstAt(n, REQUIRED[5], c.bcg)
    && FirstAt(n, REQUIRED[6], c.opv) && FirstAt(n, REQUIRED[7], c.penta) && FirstAt(n, REQUIRED[8], c.measles)
  }

  /** The `needCols` test on the nine positions of the `idx` object: all of them found. */
  function Checked(child: int, age: int, parent: int, barangay: int, sitio: int,
                   bcg: int, opv: int, penta: int, measles: int): Option<Columns> {
    if child >= 0 && age >= 0 && parent >= 0 && barangay >= 0 && sitio >= 0
      && bcg >= 0 && opv >= 0 && penta >= 0 && measles >= 0
    then Some(Columns(child, age, parent, barangay, sitio, bcg, opv, penta, measles))
    else None
  }

  /** The `idx` lookups and the `needCols` test on normalised headers `n`. */
  function Locate(n: seq<string>): Option<Columns> {
    Checked(IndexOf(n, REQUIRED[0]), IndexOf(n, REQUIRED[1]), IndexOf(n, REQUIRED[2]),
            IndexOf(n, REQUIRED[3]), IndexOf(n, REQUIRED[4]), IndexOf(n, REQUIRED[5]),
            IndexOf(n, REQUIRED[6]), IndexOf(n, REQUIRED[7]), IndexOf(n, REQUIRED[8]))
  }

  /** Columns are found exactly when all nine names are present, each at its name's first occurrence. */
  lemma LocateSpec(n: seq<string>)
    ensures Locate(n).Some? <==> HasAllColumns(n)
    ensures Locate(n).Some? ==> Locates(n, Locate(n).value)
  {
    if Locate(n).None? {
      var child, age, parent := IndexOf(n, REQUIRED[0]), IndexOf(n, REQUIRED[1]), IndexOf(n, REQUIRED[2]);
      var barangay, sitio, bcg := IndexOf(n, REQUIRED[3]), IndexOf(n, REQUIRED[4]), IndexOf(n, REQUIRED[5]);
      var opv, penta, measles := IndexOf(n, REQUIRED[6]), IndexOf(n, REQUIRED[7]), IndexOf(n, REQUIRED[8]);
      if child < 0 { assert REQUIRED[0] !in n; }
      else if age < 0 { assert REQUIRED[1] !in n; }
      else if parent < 0 { assert REQUIRED[2] !in n; }
      else if barangay < 0 { assert REQUIRED[3] !in n; }
      else if sitio < 0 { assert REQUIRED[4] !in n; }
      else if bcg < 0 { assert REQUIRED[5] !in n; }
      else if opv < 0 { assert REQUIRED[6] !in n; }
      else if penta < 0 { assert REQUIRED[7] !in n; }
      else { assert REQUIRED[8] !in n; }
    }
  }

  /** The header map of the handler. */
  function ResolveColumns(hdr: seq<string>): Option<Columns> {
    Locate(NormalizeHeaders(hdr))
  }

  /** `r[k] || fallback`: the cell when it exists and is not empty. */
  function Cell(row: seq<string>, k: nat, fallback: string): string {
    if k < |row| && row[k] != "" then row[k] else fallback
  }

  /** `Number(r[k] || 0)`: a missing or empty age is 0. */
  function AgeCell(row: seq<string>, k: nat): Option<int> {
    if k < |row| && row[k] != "" then JsNumber(row[k]) else Some(0)
  }

  /** The object literal pushed for one data row; barangay and sitio fall back to the session's. */
  function BuildRecord(row: seq<string>, c: Columns, barangay: string, sitio: string): Record {
    Record(
      Cell(row, c.child, ""), AgeCell(row, c.age), Cell(row, c.parent, ""),
      Cell(row, c.barangay, barangay), Cell(row, c.sitio, sitio),
      Cell(row, c.bcg, ""), Cell(row, c.opv, ""), Cell(row, c.penta, ""), Cell(row, c.measles, ""))
  }

  /** The records built from the data rows, in order; empty rows are skipped. */
  function BuildRecords(data: seq<seq<string>>, c: Columns, barangay: string, sitio: string): (list: seq<Record>)
    ensures |list| <= |data|
  {
    if data == [] then []
    else
      var last := data[|data| - 1];
      BuildRecords(data[..|data| - 1], c, barangay, sitio)
        + (if |last| == 0 then [] else [BuildRecord(last, c, barangay, sitio)])
  }

  /** What the handler makes of the parsed rows: a rejection, or the list it stores. */
  function ImportRecords(rows: seq<seq<string>>, barangay: string, sitio: string): Result<seq<Record>, ImportError> {
    if rows == [] then Err(EmptyCsv)
    else
      match ResolveColumns(rows[0])
      case None => Err(MissingColumns)
      case Some(c) => Ok(BuildRecords(rows[1..], c, barangay, sitio))
  }

  /** The import is rejected as empty exactly when there is no row, and for missing columns exactly when a required name is absent from the header. */
  lemma ImportRejections(rows: seq<seq<string>>, barangay: string, sitio: string)
    ensures ImportRecords(rows, barangay, sitio) == Err(EmptyCsv) <==> rows == []
    ensures ImportRecords(rows, barangay, sitio) == Err(MissingColumns)
      <==> rows != [] && !HasAllColumns(NormalizeHeaders(rows[0]))
  {
    if rows != [] {
      LocateSpec(NormalizeHeaders(rows[0]));
    }
  }

  /** One more row extends the built list by that row's record, unless the row is empty. */
  lemma BuildRecordsStep(rows: seq<seq<string>>, i: nat, c: Columns, barangay: string, sitio: string)
    requires 1 <= i < |rows|
    ensures BuildRecords(rows[1..i + 1], c, barangay, sitio)
      == BuildRecords(rows[1..i], c, barangay, sitio)
         + (if |rows[i]| == 0 then [] else [BuildRecord(rows[i], c, barangay, sitio)])
  {
    var next := rows[1..i + 1];
    assert next[..|next| - 1] == rows[1..i];
    assert next[|next| - 1] == rows[i];
  }

  /** The `for` loop over the data rows (all rows after the header), skipping empty ones. */
  method BuildRows(rows: seq<seq<string>>, c: Columns, barangay: string, sitio: string) returns (list: seq<Record>)
    requires 1 <= |rows|
    ensures list == BuildRecords(rows[1..], c, barangay, sitio)
  {
    list := [];
    var i := 1;
    while i < |rows|
      invariant 1 <= i <= |rows|
      invariant list == BuildRecords(rows[1..i], c, barangay, sitio)
      decreases |rows| - i
    {
      var row := rows[i];
      BuildRecordsStep(rows, i, c, barangay, sitio);
      if |row| != 0 {
        list := list + [BuildRecord(row, c, barangay, sitio)];
      }
      i := i + 1;
    }
    assert rows[1..i] == rows[1..];
  }

  /** The handler from `parseCSV`'s result to the list: the emptiness check, the header map and the loop. */
  method ImportRows(rows: seq<seq<string>>, barangay: string, sitio: string) returns (r: Result<seq<Record>, ImportError>)
    ensures r == ImportRecords(rows, barangay, sitio)
  {
    if |rows| == 0 {
      return Err(EmptyCsv);
    }
    var idx := ResolveColumns(rows[0]);
    if idx.None? {
      return Err(MissingColumns);
    }
    var list := BuildRows(rows, idx.value, barangay, sitio);
    r := Ok(list);
  }

  // ---------------------------------------------------------------- properties of the import

  /**
   * Text and status cells are copied as they are; only a missing column gives `""`.
   * An empty or missing barangay or sitio cell takes the session's value, and an
   * empty or missing age is 0; any other age is what `Number` reads in the cell.
   */
  lemma CellsCopied(row: seq<string>, c: Columns, barangay: string, sitio: string)
    ensures var r := BuildRecord(row, c, barangay, sitio);
      r.child == (if c.child < |row| then row[c.child] else "")
      && r.parent == (if c.parent < |row| then row[c.parent] else "")
      && r.bcg == (if c.bcg < |row| then row[c.bcg] else "")
      && r.opv == (if c.opv < |row| then row[c.opv] else "")
      && r.pentavalent == (if c.penta < |row| then row[c.penta] else "")
      && r.measles == (if c.measles < |row| then row[c.measles] else "")
    ensures var r := BuildRecord(row, c, barangay, sitio);
      r.barangay == (if c.barangay < |row| && row[c.barangay] != "" then row[c.barangay] else barangay)
      && r.sitio == (if c.sitio < |row| && row[c.sitio] != "" then row[c.sitio] else sitio)
    ensures var r := BuildRecord(row, c, barangay, sitio);
      ((c.age >= |row| || row[c.age] == "") ==> r.age == Some(0))
      && (c.age < |row| ==> r.age == JsNumber(row[c.age]))
  {
    if c.age < |row| && row[c.age] == "" {
      TrimSpec(row[c.age]);
    }
  }

  /** With non-empty session values, every record names a barangay and a sitio. */
  lemma LocalityNeverEmpty(row: seq<string>, c: Columns, barangay: string, sitio: string)
    requires barangay != "" && sitio != ""
    ensures BuildRecord(row, c, barangay, sitio).barangay != ""
    ensures BuildRecord(row, c, barangay, sitio).sitio != ""
  {
  }

  /** With no empty data row, there is exactly one record per data row, in order. */
  lemma {:induction false} OneRecordPerRow(data: seq<seq<string>>, c: Columns, barangay: string, sitio: string)
    requires forall i :: 0 <= i < |data| ==> |data[i]| > 0
    ensures |BuildRecords(data, c, barangay, sitio)| == |data|
    ensures forall i :: 0 <= i < |data| ==> BuildRecords(data, c, barangay, sitio)[i] == BuildRecord(data[i], c, barangay, sitio)
    decreases |data|
  {
    if data != [] {
      var init := data[..|data| - 1];
      assert forall i :: 0 <= i < |init| ==> init[i] == data[i];
      OneRecordPerRow(init, c, barangay, sitio);
    }
  }

  /** An accepted import of rows none of which is empty has one record per data row. */
  lemma AcceptedOneRecordPerRow(rows: seq<seq<string>>, barangay: string, sitio: string)
    requires forall row :: row in rows ==> |row| > 0
    requires ImportRecords(rows, barangay, sitio).Ok?
    ensures |ImportRecords(rows, barangay, sitio).value| == |rows| - 1
  {
    var c := ResolveColumns(rows[0]).value;
    var data := rows[1..];
    assert forall i :: 0 <= i < |data| ==> data[i] == rows[i + 1];
    OneRecordPerRow(data, c, barangay, sitio);
  }

  /** An accepted import of parsed text has one record per data row: `parseCSV` returns no empty row. */
  lemma ParsedImportOneRecordPerRow(text: string, barangay: string, sitio: string)
    requires ImportRecords(Parse(text), barangay, sitio).Ok?
    ensures |ImportRecords(Parse(text), barangay, sitio).value| == |Parse(text)| - 1
  {
    ParseShape(text);
    AcceptedOneRecordPerRow(Parse(text), barangay, sitio);
  }

  /** A name present in `xs` is found at the same place when more entries follow. */
  lemma IndexOfPrefix(xs: seq<string>, ys: seq<string>, x: string)
    requires x in xs
    ensures IndexOf(xs + ys, x) == IndexOf(xs, x)
  {
    var k := IndexOf(xs, x);
    assert (xs + ys)[k] == x;
  }

  /** Normalising a header is normalising its parts. */
  lemma NormalizeHeadersAppend(hdr: seq<string>, extra: seq<string>)
    ensures NormalizeHeaders(hdr + extra) == NormalizeHeaders(hdr) + NormalizeHeaders(extra)
  {
  }

  /** With all nine names present, entries after them do not move any column. */
  lemma LocateAppend(n: seq<string>, e: seq<string>)
    requires HasAllColumns(n)
    ensures Locate(n + e) == Locate(n)
  {
    IndexesKept(n, e);
  }

  /** With all nine names present, entries after them do not move any required name. */
  lemma IndexesKept(n: seq<string>, e: seq<string>)
    requires HasAllColumns(n)
    ensures forall j :: 0 <= j < |REQUIRED| ==> IndexOf(n + e, REQUIRED[j]) == IndexOf(n, REQUIRED[j])
  {
    forall j | 0 <= j < |REQUIRED|
      ensures IndexOf(n + e, REQUIRED[j]) == IndexOf(n, REQUIRED[j])
    {
      IndexOfPrefix(n, e, REQUIRED[j]);
    }
  }

  /** Unknown columns appended after an accepted header change nothing. */
  lemma ExtraColumnsIgnored(hdr: seq<string>, extra: seq<string>)
    requires ResolveColumns(hdr).Some?
    ensures ResolveColumns(hdr + extra) == ResolveColumns(hdr)
  {
    NormalizeHeadersAppend(hdr, extra);
    LocateAppend(NormalizeHeaders(hdr), NormalizeHeaders(extra));
  }

  // ---------------------------------------------------------------- an unknown column anywhere

  /** `row` with `x` inserted at position `j`; a row without position `j`, or an empty row, is left as it is. */
  function InsertCell(row: seq<string>, j: nat, x: string): seq<string> {
    if 0 < |row| && j <= |row| then row[..j] + [x] + row[j..] else row
  }

  /** `rows` with one more column at position `j`: `cells[0]` in the header, `cells[i]` in data row `i`. */
  function InsertColumn(rows: seq<seq<string>>, j: nat, cells: seq<string>): (out: seq<seq<string>>)
    requires |cells| == |rows|
    ensures |out| == |rows|
  {
    seq(|rows|, i requires 0 <= i < |rows| => InsertCell(rows[i], j, cells[i]))
  }

  /** Where column `k` moves when a column is inserted at `j`. */
  function Shift(k: nat, j: nat): nat {
    if k < j then k else k + 1
  }

  /** The header map once a column is inserted at `j`. */
  function ShiftColumns(c: Columns, j: nat): Columns {
    Columns(Shift(c.child, j), Shift(c.age, j), Shift(c.parent, j), Shift(c.barangay, j), Shift(c.sitio, j),
            Shift(c.bcg, j), Shift(c.opv, j), Shift(c.penta, j), Shift(c.measles, j))
  }

  /** Where `indexOf`'s answer `k` moves when a column is inserted at `j`; -1 stays -1. */
  function ShiftIndex(k: int, j: nat): int {
    if k < 0 then -1 else Shift(k, j)
  }

  /** Inserting a different name does not hide `x`, and moves its first occurrence as it moves its column. */
  lemma IndexOfInserted(n: seq<string>, j: nat, y: string, x: string)
    requires j <= |n| && x != y
    ensures IndexOf(n[..j] + [y] + n[j..], x) == ShiftIndex(IndexOf(n, x), j)
  {
    var m := n[..j] + [y] + n[j..];
    assert forall i :: 0 <= i < j ==> m[i] == n[i];
    assert forall i :: j <= i < |n| ==> m[i + 1] == n[i];
    var k := IndexOf(n, x);
    if k < 0 {
      assert x !in m by {
        forall i | 0 <= i < |m|
          ensures m[i] != x
        {
          if i > j { assert m[i] == n[i - 1]; }
        }
      }
    } else {
      var s := Shift(k, j);
      assert m[s] == x;
      forall i | 0 <= i < s
        ensures m[i] != x
      {
        if i > j { assert m[i] == n[i - 1]; }
      }
    }
  }

  /** Normalising a header with an inserted cell inserts the normalised cell. */
  lemma NormalizeInserted(hdr: seq<string>, j: nat, x: string)
    requires 0 < |hdr| && j <= |hdr|
    ensures var n := NormalizeHeaders(hdr);
      NormalizeHeaders(InsertCell(hdr, j, x)) == n[..j] + [Lower(Trim(x))] + n[j..]
  {
  }

  /** The `needCols` test on moved positions accepts the same headers, with the columns moved. */
  lemma CheckedShifted(child: int, age: int, parent: int, barangay: int, sitio: int,
                       bcg: int, opv: int, penta: int, measles: int, j: nat)
    ensures var c := Checked(child, age, parent, barangay, sitio, bcg, opv, penta, measles);
      Checked(ShiftIndex(child, j), ShiftIndex(age, j), ShiftIndex(parent, j), ShiftIndex(barangay, j),
              ShiftIndex(sitio, j), ShiftIndex(bcg, j), ShiftIndex(opv, j), ShiftIndex(penta, j),
              ShiftIndex(measles, j))
      == if c.Some? then Some(ShiftColumns(c.value, j)) else None
  {
  }

  /** An inserted name that is not required moves every column found, and finds no new one. */
  lemma LocateInserted(n: seq<string>, j: nat, y: string)
    requires j <= |n| && y !in REQUIRED
    ensures Locate(n[..j] + [y] + n[j..]) == if Locate(n).Some? then Some(ShiftColumns(Locate(n).value, j)) else None
  {
    IndexOfInserted(n, j, y, REQUIRED[0]);
    IndexOfInserted(n, j, y, REQUIRED[1]);
    IndexOfInserted(n, j, y, REQUIRED[2]);
    IndexOfInserted(n, j, y, REQUIRED[3]);
    IndexOfInserted(n, j, y, REQUIRED[4]);
    IndexOfInserted(n, j, y, REQUIRED[5]);
    IndexOfInserted(n, j, y, REQUIRED[6]);
    IndexOfInserted(n, j, y, REQUIRED[7]);
    IndexOfInserted(n, j, y, REQUIRED[8]);
    CheckedShifted(IndexOf(n, REQUIRED[0]), IndexOf(n, REQUIRED[1]), IndexOf(n, REQUIRED[2]),
                   IndexOf(n, REQUIRED[3]), IndexOf(n, REQUIRED[4]), IndexOf(n, REQUIRED[5]),
                   IndexOf(n, REQUIRED[6]), IndexOf(n, REQUIRED[7]), IndexOf(n, REQUIRED[8]), j);
  }

  /** An unknown header name inserted anywhere moves the column map with it, and accepts and rejects the same headers. */
  lemma ResolveInserted(hdr: seq<string>, j: nat, x: string)
    requires Lower(Trim(x)) !in REQUIRED
    ensures ResolveColumns(InsertCell(hdr, j, x))
      == if ResolveColumns(hdr).Some? then Some(ShiftColumns(ResolveColumns(hdr).value, j)) else None
  {
    if 0 < |hdr| && j <= |hdr| {
      NormalizeInserted(hdr, j, x);
      LocateInserted(NormalizeHeaders(hdr), j, Lower(Trim(x)));
    } else if ResolveColumns(hdr).Some? {
      ColumnsBefore(NormalizeHeaders(hdr), j);
    }
  }

  /** Found columns all lie before any position past the end of the header, so they do not move. */
  lemma ColumnsBefore(n: seq<string>, j: nat)
    requires Locate(n).Some? && |n| < j
    ensures ShiftColumns(Locate(n).value, j) == Locate(n).value
  {
    LocateSpec(n);
  }

  /** A cell reads the same at its moved column. */
  lemma CellInserted(row: seq<string>, j: nat, x: string, k: nat, fallback: string)
    ensures Cell(InsertCell(row, j, x), Shift(k, j), fallback) == Cell(row, k, fallback)
    ensures AgeCell(InsertCell(row, j, x), Shift(k, j)) == AgeCell(row, k)
  {
    var m := InsertCell(row, j, x);
    if 0 < |row| && j <= |row| && k < |row| {
      if k < j {
        assert m[k] == row[k];
      } else {
        assert m[k + 1] == row[k];
      }
    }
  }

  /** The record of a row with an inserted cell, read with the moved column map, is the record of the row. */
  lemma BuildRecordInserted(row: seq<string>, j: nat, x: string, c: Columns, barangay: string, sitio: string)
    ensures BuildRecord(InsertCell(row, j, x), ShiftColumns(c, j), barangay, sitio) == BuildRecord(row, c, barangay, sitio)
  {
    CellInserted(row, j, x, c.child, "");
    CellInserted(row, j, x, c.age, "");
    CellInserted(row, j, x, c.parent, "");
    CellInserted(row, j, x, c.barangay, barangay);
    CellInserted(row, j, x, c.sitio, sitio);
    CellInserted(row, j, x, c.bcg, "");
    CellInserted(row, j, x, c.opv, "");
    CellInserted(row, j, x, c.penta, "");
    CellInserted(row, j, x, c.measles, "");
  }

  /** Data rows with an inserted cell, read with the moved column map, build the same records. */
  lemma {:induction false} BuildRecordsInserted(data: seq<seq<string>>, j: nat, cells: seq<string>,
                                                c: Columns, barangay: string, sitio: string)
    requires |cells| == |data|
    ensures BuildRecords(InsertColumn(data, j, cells), ShiftColumns(c, j), barangay, sitio)
      == BuildRecords(data, c, barangay, sitio)
    decreases |data|
  {
    if data != [] {
      var wide := InsertColumn(data, j, cells);
      var init, last := data[..|data| - 1], data[|data| - 1];
      assert wide[..|wide| - 1] == InsertColumn(init, j, cells[..|cells| - 1]);
      assert wide[|wide| - 1] == InsertCell(last, j, cells[|cells| - 1]);
      BuildRecordsInserted(init, j, cells[..|cells| - 1], c, barangay, sitio);
      BuildRecordInserted(last, j, cells[|cells| - 1], c, barangay, sitio);
    }
  }

  /**
   * A column whose name is not one of the nine, inserted at any position of the
   * header and of every data row, changes neither a rejection nor the records.
   */
  lemma UnknownColumnIgnored(rows: seq<seq<string>>, j: nat, cells: seq<string>, barangay: string, sitio: string)
    requires |cells| == |rows|
    requires rows != [] ==> Lower(Trim(cells[0])) !in REQUIRED
    ensures ImportRecords(InsertColumn(rows, j, cells), barangay, sitio) == ImportRecords(rows, barangay, sitio)
  {
    if rows != [] {
      var wide := InsertColumn(rows, j, cells);
      assert wide[0] == InsertCell(rows[0], j, cells[0]);
      assert wide[1..] == InsertColumn(rows[1..], j, cells[1..]);
      ResolveInserted(rows[0], j, cells[0]);
      if ResolveColumns(rows[0]).Some? {
        BuildRecordsInserted(rows[1..], j, cells[1..], ResolveColumns(rows[0]).value, barangay, sitio);
      }
    }
  }

  // ---------------------------------------------------------------- the export and its round trip

  /** The age cell of an exported row: a number, or `null` for an age that is not a number. */
  function AgeValue(age: Option<int>): Value {
    match age
    case Some(n) => Num(n)
    case None => Null
  }

  /** The row pushed for one stored record. */
  function RecordRow(r: Record): seq<Value> {
    [Str(r.child), AgeValue(r.age), Str(r.parent), Str(r.barangay), Str(r.sitio),
     Str(r.bcg), Str(r.opv), Str(r.pentavalent), Str(r.measles)]
  }

  /** The rows handed to `toCSV` by the download button: the header, then one row per record. */
  function ExportRows(data: seq<Record>): (rows: seq<seq<Value>>)
    ensures |rows| == |data| + 1
  {
    [seq(|HEADER|, j requires 0 <= j < |HEADER| => Str(HEADER[j]))]
      + seq(|data|, i requires 0 <= i < |data| => RecordRow(data[i]))
  }

  /** `xs.indexOf(xs[j])` is `j` when the entries of `xs` are distinct. */
  lemma IndexOfDistinct(xs: seq<string>, j: nat)
    requires j < |xs|
    requires forall a, b :: 0 <= a < b < |xs| ==> xs[a] != xs[b]
    ensures IndexOf(xs, xs[j]) == j
  {
  }

  /** A trimmed name without carriage returns whose characters lower-case to those of `t` is clean and normalises to `t`. */
  lemma NormalizesTo(h: string, t: string)
    requires IsTrimmed(h) && |h| == |t|
    requires forall i :: 0 <= i < |h| ==> LowerChar(h[i]) == t[i] && h[i] != '\r'
    ensures Clean(h) && Lower(Trim(h)) == t
  {
    TrimSpec(h);
    LowerSpec(h);
  }

  // One lemma per exported header name: each literal is evaluated on its own.
  // Each name is also clean, so the header row survives `toCSV` then `parseCSV`.

  /** The exported "Child Name" normalises to its required name. */
  lemma NormalizedChildHeader()
    ensures Clean(HEADER[0]) && Lower(Trim(HEADER[0])) == REQUIRED[0]
  {
    NormalizesTo(HEADER[0], REQUIRED[0]);
  }

  /** The exported "Age" normalises to its required name. */
  lemma NormalizedAgeHeader()
    ensures Clean(HEADER[1]) && Lower(Trim(HEADER[1])) == REQUIRED[1]
  {
    NormalizesTo(HEADER[1], REQUIRED[1]);
  }

  /** The exported "Parent Name" normalises to its required name. */
  lemma NormalizedParentHeader()
    ensures Clean(HEADER[2]) && Lower(Trim(HEADER[2])) == REQUIRED[2]
  {
    NormalizesTo(HEADER[2], REQUIRED[2]);
  }

  /** The exported "Barangay" normalises to its required name. */
  lemma NormalizedBarangayHeader()
    ensures Clean(HEADER[3]) && Lower(Trim(HEADER[3])) == REQUIRED[3]
  {
    NormalizesTo(HEADER[3], REQUIRED[3]);
  }

  /** The exported "Sitio" normalises to its required name. */
  lemma NormalizedSitioHeader()
    ensures Clean(HEADER[4]) && Lower(Trim(HEADER[4])) == REQUIRED[4]
  {
    NormalizesTo(HEADER[4], REQUIRED[4]);
  }

  /** The exported "BCG" normalises to its required name. */
  lemma NormalizedBcgHeader()
    ensures Clean(HEADER[5]) && Lower(Trim(HEADER[5])) == REQUIRED[5]
  {
    NormalizesTo(HEADER[5], REQUIRED[5]);
  }

  /** The exported "OPV" normalises to its required name. */
  lemma NormalizedOpvHeader()
    ensures Clean(HEADER[6]) && Lower(Trim(HEADER[6])) == REQUIRED[6]
  {
    NormalizesTo(HEADER[6], REQUIRED[6]);
  }

  /** The exported "Pentavalent" normalises to its required name. */
  lemma NormalizedPentavalentHeader()
    ensures Clean(HEADER[7]) && Lower(Trim(HEADER[7])) == REQUIRED[7]
  {
    NormalizesTo(HEADER[7], REQUIRED[7]);
  }

  /** The exported "Measles" normalises to its required name. */
  lemma NormalizedMeaslesHeader()
    ensures Clean(HEADER[8]) && Lower(Trim(HEADER[8])) == REQUIRED[8]
  {
    NormalizesTo(HEADER[8], REQUIRED[8]);
  }

  /** The exported header, trimmed and lower-cased, is the list of required names. */
  lemma NormalizedHeader()
    ensures NormalizeHeaders(HEADER) == REQUIRED
  {
    forall j | 0 <= j < |HEADER|
      ensures Lower(Trim(HEADER[j])) == REQUIRED[j]
    {
      if j == 0 { NormalizedChildHeader(); }
      else if j == 1 { NormalizedAgeHeader(); }
      else if j == 2 { NormalizedParentHeader(); }
      else if j == 3 { NormalizedBarangayHeader(); }
      else if j == 4 { NormalizedSitioHeader(); }
      else if j == 5 { NormalizedBcgHeader(); }
      else if j == 6 { NormalizedOpvHeader(); }
      else if j == 7 { NormalizedPentavalentHeader(); }
      else { NormalizedMeaslesHeader(); }
    }
  }

  /** No required name is listed twice. */
  lemma RequiredDistinct()
    ensures forall a, b :: 0 <= a < b < |REQUIRED| ==> REQUIRED[a] != REQUIRED[b]
  {
  }

  /** Each required name is found at its own position of the list of required names. */
  lemma RequiredIndexes()
    ensures forall j :: 0 <= j < |REQUIRED| ==> IndexOf(REQUIRED, REQUIRED[j]) == j
  {
    RequiredDistinct();
    forall j | 0 <= j < |REQUIRED|
      ensures IndexOf(REQUIRED, REQUIRED[j]) == j
    {
      IndexOfDistinct(REQUIRED, j);
    }
  }

  /** The exported header is accepted, and its columns are the nine positions in order. */
  lemma HeaderResolves()
    ensures ResolveColumns(HEADER) == Some(Columns(0, 1, 2, 3, 4, 5, 6, 7, 8))
  {
    NormalizedHeader();
    RequiredIndexes();
  }

  /** A record the export writes and the import reads back as it was. */
  predicate Exportable(r: Record) {
    Clean(r.child) && Clean(r.parent) && Clean(r.barangay) && Clean(r.sitio)
    && Clean(r.bcg) && Clean(r.opv) && Clean(r.pentavalent) && Clean(r.measles)
    && r.barangay != "" && r.sitio != "" && r.age.Some?
  }

  /** The header row of the export, as strings, is the header itself. */
  lemma HeaderRowRenders()
    ensures RenderRow(ExportRows([])[0]) == HEADER
  {
  }

  /** Every name of the exported header is clean. */
  lemma HeaderClean()
    ensures forall j :: 0 <= j < |HEADER| ==> Clean(HEADER[j])
  {
    forall j | 0 <= j < |HEADER|
      ensures Clean(HEADER[j])
    {
      if j == 0 { NormalizedChildHeader(); }
      else if j == 1 { NormalizedAgeHeader(); }
      else if j == 2 { NormalizedParentHeader(); }
      else if j == 3 { NormalizedBarangayHeader(); }
      else if j == 4 { NormalizedSitioHeader(); }
      else if j == 5 { NormalizedBcgHeader(); }
      else if j == 6 { NormalizedOpvHeader(); }
      else if j == 7 { NormalizedPentavalentHeader(); }
      else { NormalizedMeaslesHeader(); }
    }
  }

  /** A number's string form is clean and not empty. */
  lemma NumberClean(n: int)
    ensures IntToString(n) != [] && Clean(IntToString(n))
  {
    var t := IntToString(n);
    assert forall i :: 0 <= i < |t| ==> IsDigit(t[i]) || t[i] == '-';
  }

  /** The cells of the row written for a record, as strings. */
  lemma RecordRowRenders(r: Record)
    requires r.age.Some?
    ensures RenderRow(RecordRow(r))
      == [r.child, IntToString(r.age.value), r.parent, r.barangay, r.sitio, r.bcg, r.opv, r.pentavalent, r.measles]
  {
  }

  /** The row written for an exportable record survives `toCSV` then `parseCSV`. */
  lemma RecordRowEncodable(r: Record)
    requires Exportable(r)
    ensures Encodable(RenderRow(RecordRow(r)))
  {
    var row := RenderRow(RecordRow(r));
    RecordRowRenders(r);
    NumberClean(r.age.value);
    assert row[1] != "";
    assert forall i :: 0 <= i < |row| ==> Clean(row[i]) by {
      forall i | 0 <= i < |row|
        ensures Clean(row[i])
      {
        if i == 1 {
        } else {
          assert row[i] in {r.child, r.parent, r.barangay, r.sitio, r.bcg, r.opv, r.pentavalent, r.measles};
        }
      }
    }
  }

  /** The import reads the row written for an exportable record back as that record. */
  lemma RecordRoundTrip(r: Record, barangay: string, sitio: string)
    requires Exportable(r)
    ensures BuildRecord(RenderRow(RecordRow(r)), Columns(0, 1, 2, 3, 4, 5, 6, 7, 8), barangay, sitio) == r
  {
    RecordRowRenders(r);
    NumberClean(r.age.value);
    JsNumberOfIntToString(r.age.value);
  }

  /** The header, as strings, survives `toCSV` then `parseCSV`. */
  lemma HeaderEncodable()
    ensures Encodable(HEADER)
  {
    HeaderClean();
    assert HEADER[0] != "";
  }

  /** Every row of an export of exportable records survives `toCSV` then `parseCSV`. */
  lemma ExportRowsEncodable(data: seq<Record>)
    requires forall i :: 0 <= i < |data| ==> Exportable(data[i])
    ensures forall i :: 0 <= i < |data| + 1 ==> Encodable(RenderRow(ExportRows(data)[i]))
  {
    var rows := ExportRows(data);
    forall i | 0 <= i < |rows|
      ensures Encodable(RenderRow(rows[i]))
    {
      if i == 0 {
        assert rows[0] == ExportRows([])[0];
        HeaderRowRenders();
        HeaderEncodable();
      } else {
        assert rows[i] == RecordRow(data[i - 1]);
        RecordRowEncodable(data[i - 1]);
      }
    }
  }

  /** The written rows as parsed back: the header, then each record's cells as strings. */
  lemma ExportParsed(data: seq<Record>)
    requires forall i :: 0 <= i < |data| ==> Exportable(data[i])
    ensures var parsed := Parse(ToCSV(ExportRows(data)));
      |parsed| == |data| + 1 && parsed[0] == HEADER
      && forall i :: 0 <= i < |data| ==> parsed[1..][i] == RenderRow(RecordRow(data[i]))
  {
    var rows := ExportRows(data);
    ExportRowsEncodable(data);
    ToCsvRoundTrip(rows);
    assert rows[0] == ExportRows([])[0];
    HeaderRowRenders();
    forall i | 0 <= i < |data|
      ensures rows[i + 1] == RecordRow(data[i])
    {
    }
  }

  /** The data rows written for exportable records are built back into those records. */
  lemma BuildWrittenRows(body: seq<seq<string>>, data: seq<Record>, barangay: string, sitio: string)
    requires forall i :: 0 <= i < |data| ==> Exportable(data[i])
    requires |body| == |data|
    requires forall i :: 0 <= i < |data| ==> body[i] == RenderRow(RecordRow(data[i]))
    ensures BuildRecords(body, Columns(0, 1, 2, 3, 4, 5, 6, 7, 8), barangay, sitio) == data
  {
    var c := Columns(0, 1, 2, 3, 4, 5, 6, 7, 8);
    forall i | 0 <= i < |body|
      ensures |body[i]| > 0
    {
      assert |body[i]| == |RecordRow(data[i])|;
    }
    OneRecordPerRow(body, c, barangay, sitio);
    var list := BuildRecords(body, c, barangay, sitio);
    forall i | 0 <= i < |data|
      ensures list[i] == data[i]
    {
      RecordRoundTrip(data[i], barangay, sitio);
    }
  }

  /** A header the import accepts with columns `c` leads to the records built from the data rows. */
  lemma ImportAccepted(rows: seq<seq<string>>, c: Columns, barangay: string, sitio: string)
    requires rows != [] && ResolveColumns(rows[0]) == Some(c)
    ensures ImportRecords(rows, barangay, sitio) == Ok(BuildRecords(rows[1..], c, barangay, sitio))
  {
  }

  /** Importing the downloaded CSV of exportable records gives back the same records, in order. */
  lemma ExportImportRoundTrip(data: seq<Record>, barangay: string, sitio: string)
    requires forall i :: 0 <= i < |data| ==> Exportable(data[i])
    ensures ImportRecords(Parse(ToCSV(ExportRows(data))), barangay, sitio) == Ok(data)
  {
    var parsed := Parse(ToCSV(ExportRows(data)));
    ExportParsed(data);
    HeaderResolves();
    ImportAccepted(parsed, Columns(0, 1, 2, 3, 4, 5, 6, 7, 8), barangay, sitio);
    BuildWrittenRows(parsed[1..], data, barangay, sitio);
  }
}

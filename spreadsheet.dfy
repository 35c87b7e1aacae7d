/** Export of the contact table to a worksheet and import of a worksheet into
    it. A worksheet is its sequence of rows; a row is its sequence of cell
    values as read back, `None` standing for an empty cell. */
module Spreadsheet {
  import opened Outcomes
  import opened Models
  import opened Paths

  type Cell = Option<string>
  type Row = seq<Cell>

  /** The header texts of columns A to E: full name, work phone, mobile phone,
      email, notes. */
  const Headers: seq<string> := ["ФИО", "Телефон рабочий", "Телефон сотовый", "Электронная почта", "Примечания"]

  /** The row written for contact `c`, columns A to E. */
  function RowOf(c: Contact): Row {
    [Some(c.fullName), c.workPhone, c.mobilePhone, c.email, c.notes]
  }

  /** The worksheet an export of `contacts` produces. */
  function ExportRows(contacts: seq<Contact>): seq<Row> {
    [seq(5, col requires 0 <= col < 5 => Some(Headers[col]))]
      + seq(|contacts|, k requires 0 <= k < |contacts| => RowOf(contacts[k]))
  }

  /** export_to_excel: the header row, then one row per contact of the query
      result, in the order the query returned them. */
  method ExportToExcel(contacts: seq<Contact>) returns (sheet: seq<Row>)
    ensures |sheet| == 1 + |contacts|
    ensures |sheet[0]| == 5 && forall col :: 0 <= col < 5 ==> sheet[0][col] == Some(Headers[col])
    ensures forall k :: 0 <= k < |contacts| ==>
      sheet[k + 1] == [Some(contacts[k].fullName), contacts[k].workPhone, contacts[k].mobilePhone,
                       contacts[k].email, contacts[k].notes]
    ensures sheet == ExportRows(contacts)
  {
    var header: Row := [];
    for col := 0 to |Headers|
      invariant |header| == col
      invariant forall j :: 0 <= j < col ==> header[j] == Some(Headers[j])
    {
      header := header + [Some(Headers[col])];
    }
    sheet := [header];
    for k := 0 to |contacts|
      invariant |sheet| == k + 1 && sheet[0] == header
      invariant forall j :: 0 <= j < k ==> sheet[j + 1] == RowOf(contacts[j])
    {
      var c := contacts[k];
      sheet := sheet + [[Some(c.fullName), c.workPhone, c.mobilePhone, c.email, c.notes]];
    }
    assert header == seq(5, col requires 0 <= col < 5 => Some(Headers[col]));
    assert sheet == [header] + seq(|contacts|, k requires 0 <= k < |contacts| => RowOf(contacts[k]));
  }

  /** Python truthiness of a cell value: present and not the empty string. */
  predicate Truthy(c: Cell) {
    c.Some? && c.value != ""
  }

  /** What import can raise: indexing past the end of a row, or a file the
      spreadsheet library cannot open. */
  datatype ImportError = IndexOutOfRange | InvalidWorkbook

  /** The rows import considers: every row after the header. */
  function DataRows(sheet: seq<Row>): seq<Row> {
    if |sheet| <= 1 then [] else sheet[1..]
  }

  /** The entry built from a row whose name cell is truthy: cells copied as
      they are. */
  function EntryOfRow(r: Row): Entry
    requires |r| >= 5 && Truthy(r[0])
  {
    Entry(r[0].value, r[1], r[2], r[3], r[4])
  }

  /** A row import can read: its name cell exists, and if the name is truthy,
      so do the four cells after it. */
  predicate Readable(r: Row) {
    |r| > 0 && (Truthy(r[0]) ==> |r| >= 5)
  }

  /** `r` with `prefix` put in front of its entries. */
  function Prefixed(prefix: seq<Entry>, r: Result<seq<Entry>, ImportError>): Result<seq<Entry>, ImportError> {
    match r
    case Ok(es) => Ok(prefix + es)
    case Err(e) => Err(e)
  }

  lemma PrefixedTwice(a: seq<Entry>, b: seq<Entry>, r: Result<seq<Entry>, ImportError>)
    ensures Prefixed(a, Prefixed(b, r)) == Prefixed(a + b, r)
  {
    if r.Ok? {
      assert a + (b + r.value) == (a + b) + r.value;
    }
  }

  /** The entries import builds from `rows`, in order, or the error of the
      first row that cannot be read. */
  function ImportEntries(rows: seq<Row>): (r: Result<seq<Entry>, ImportError>)
    ensures r.Ok? ==> |r.value| <= |rows|
    decreases |rows|
  {
    if rows == [] then Ok([])
    else if !Readable(rows[0]) then Err(IndexOutOfRange)
    else if !Truthy(rows[0][0]) then ImportEntries(rows[1..])
    else Prefixed([EntryOfRow(rows[0])], ImportEntries(rows[1..]))
  }

  /** The rows whose name cell is truthy, in order. */
  function Kept(rows: seq<Row>): seq<Row>
    decreases |rows|
  {
    if rows == [] then []
    else if |rows[0]| > 0 && Truthy(rows[0][0]) then [rows[0]] + Kept(rows[1..])
    else Kept(rows[1..])
  }

  /** Import fails exactly when some row cannot be read. */
  lemma {:induction false} ImportFailsIff(rows: seq<Row>)
    ensures ImportEntries(rows).Err? <==> exists i :: 0 <= i < |rows| && !Readable(rows[i])
    decreases |rows|
  {
    if rows != [] {
      ImportFailsIff(rows[1..]);
      if exists i :: 0 <= i < |rows[1..]| && !Readable(rows[1..][i]) {
        var i :| 0 <= i < |rows[1..]| && !Readable(rows[1..][i]);
        assert !Readable(rows[i + 1]);
      }
      if exists i :: 0 <= i < |rows| && !Readable(rows[i]) {
        var i :| 0 <= i < |rows| && !Readable(rows[i]);
        if i > 0 {
          assert !Readable(rows[1..][i - 1]);
        }
      }
    }
  }

  /** On success, import yields one entry per row with a truthy name, in row
      order, each cell copied unchanged. */
  lemma {:induction false} ImportCopiesKeptRows(rows: seq<Row>, es: seq<Entry>)
    requires ImportEntries(rows) == Ok(es)
    ensures |es| == |Kept(rows)|
    ensures forall j :: 0 <= j < |es| ==>
      && |Kept(rows)[j]| >= 5
      && Kept(rows)[j][0] == Some(es[j].fullName) && es[j].fullName != ""
      && es[j].workPhone == Kept(rows)[j][1] && es[j].mobilePhone == Kept(rows)[j][2]
      && es[j].email == Kept(rows)[j][3] && es[j].notes == Kept(rows)[j][4]
    decreases |rows|
  {
    if rows != [] {
      if !Truthy(rows[0][0]) {
        ImportCopiesKeptRows(rows[1..], es);
      } else {
        var rest := es[1..];
        ImportCopiesKeptRows(rows[1..], rest);
        forall j | 0 <= j < |es|
          ensures Kept(rows)[j] == if j == 0 then rows[0] else Kept(rows[1..])[j - 1]
          ensures j > 0 ==> es[j] == rest[j - 1]
        {
        }
      }
    }
  }

  /** The entries of the contacts with a non-empty full name, in order. */
  function NamedEntries(contacts: seq<Contact>): seq<Entry>
    decreases |contacts|
  {
    if contacts == [] then []
    else if contacts[0].fullName != "" then [contacts[0].Fields()] + NamedEntries(contacts[1..])
    else NamedEntries(contacts[1..])
  }

  /** Importing the rows of an export of `contacts` never fails and yields the
      contacts with a non-empty name, field for field, in export order. */
  lemma {:induction false} ExportImportRoundTrip(contacts: seq<Contact>)
    ensures ImportEntries(DataRows(ExportRows(contacts))) == Ok(NamedEntries(contacts))
    decreases |contacts|
  {
    var rows := DataRows(ExportRows(contacts));
    assert rows == seq(|contacts|, k requires 0 <= k < |contacts| => RowOf(contacts[k]));
    if contacts != [] {
      ExportImportRoundTrip(contacts[1..]);
      assert DataRows(ExportRows(contacts[1..])) == rows[1..];
    }
  }

  /** Every contact of a table that keeps names non-empty comes back. */
  lemma {:induction false} NamedEntriesAll(contacts: seq<Contact>)
    requires forall k :: 0 <= k < |contacts| ==> contacts[k].fullName != ""
    ensures |NamedEntries(contacts)| == |contacts|
    ensures forall k :: 0 <= k < |contacts| ==> NamedEntries(contacts)[k] == contacts[k].Fields()
    decreases |contacts|
  {
    if contacts != [] {
      NamedEntriesAll(contacts[1..]);
    }
  }

  /** Importing an export of N contacts with non-empty names adds exactly N
      rows to the table. */
  lemma ExportImportDoubles(table: map<nat, Contact>, next: nat, contacts: seq<Contact>)
    requires KeyedById(table, next)
    requires forall k :: 0 <= k < |contacts| ==> contacts[k].fullName != ""
    ensures ImportEntries(DataRows(ExportRows(contacts))).Ok?
    ensures |Appended(table, next, ImportEntries(DataRows(ExportRows(contacts))).value)| == |table| + |contacts|
  {
    ExportImportRoundTrip(contacts);
    NamedEntriesAll(contacts);
    AppendedSize(table, next, NamedEntries(contacts));
  }

  /** `contacts` is what a query of every row returns: each row of `table`
      exactly once, in some order. */
  ghost predicate Enumerates(contacts: seq<Contact>, table: map<nat, Contact>) {
    && (forall k :: 0 <= k < |contacts| ==> contacts[k].id in table && table[contacts[k].id] == contacts[k])
    && (forall id :: id in table ==> exists k :: 0 <= k < |contacts| && contacts[k].id == id)
    && (forall k, l :: 0 <= k < l < |contacts| ==> contacts[k].id != contacts[l].id)
  }

  /** The ids of `contacts`. */
  function IdsOf(contacts: seq<Contact>): (ids: set<nat>)
    ensures forall k :: 0 <= k < |contacts| ==> contacts[k].id in ids
    ensures forall id :: id in ids ==> exists k :: 0 <= k < |contacts| && contacts[k].id == id
    decreases |contacts|
  {
    if contacts == [] then {}
    else
      var rest := IdsOf(contacts[1..]);
      assert forall k :: 1 <= k < |contacts| ==> contacts[k] == contacts[1..][k - 1];
      {contacts[0].id} + rest
  }

  /** Pairwise distinct ids are as many as the contacts. */
  lemma {:induction false} DistinctIdsCount(contacts: seq<Contact>)
    requires forall k, l :: 0 <= k < l < |contacts| ==> contacts[k].id != contacts[l].id
    ensures |IdsOf(contacts)| == |contacts|
    decreases |contacts|
  {
    if contacts != [] {
      var rest := contacts[1..];
      assert forall k :: 0 <= k < |rest| ==> rest[k] == contacts[k + 1];
      DistinctIdsCount(rest);
      assert contacts[0].id !in IdsOf(rest);
    }
  }

  /** A query of every row returns as many contacts as the table has rows. */
  lemma EnumerationSize(contacts: seq<Contact>, table: map<nat, Contact>)
    requires Enumerates(contacts, table)
    ensures |contacts| == |table|
  {
    DistinctIdsCount(contacts);
    assert IdsOf(contacts) == table.Keys;
  }

  /** Exporting the whole contact table and importing the file back doubles
      the table. */
  lemma ReimportDoublesTable(table: map<nat, Contact>, next: nat, contacts: seq<Contact>)
    requires KeyedById(table, next)
    requires forall id :: id in table ==> table[id].fullName != ""
    requires Enumerates(contacts, table)
    ensures ImportEntries(DataRows(ExportRows(contacts))).Ok?
    ensures |Appended(table, next, ImportEntries(DataRows(ExportRows(contacts))).value)| == 2 * |table|
  {
    EnumerationSize(contacts, table);
    ExportImportDoubles(table, next, contacts);
  }

  /** The file extensions the spreadsheet library agrees to open. */
  const WorkbookFormats: seq<string> := [".xlsx", ".xlsm", ".xltx", ".xltm"]

  /** Lower-casing of the Basic Latin capitals; other characters are kept.
      No other character lower-cases to a letter of the extensions above. */
  function AsciiLower(s: string): (r: string)
    ensures |r| == |s|
    decreases |s|
  {
    if s == [] then []
    else [if 'A' <= s[0] <= 'Z' then (s[0] as int + 32) as char else s[0]] + AsciiLower(s[1..])
  }

  /** load_workbook first checks the path: its extension, lower-cased, must be
      one of the workbook formats, whatever the file holds. */
  predicate WorkbookPath(path: string) {
    AsciiLower(SplitExt(path).1) in WorkbookFormats
  }

  /** Both spellings of the suffix lower-case to ".xlsx". */
  lemma LowerXlsx()
    ensures AsciiLower(".xlsx") == ".xlsx" && AsciiLower(".XLSX") == ".xlsx"
  {
    assert AsciiLower([]) == [];
    assert ".xlsx"[1..] == "xlsx" && "xlsx"[1..] == "lsx" && "lsx"[1..] == "sx" && "sx"[1..] == "x" && "x"[1..] == [];
    assert ".XLSX"[1..] == "XLSX" && "XLSX"[1..] == "LSX" && "LSX"[1..] == "SX" && "SX"[1..] == "X" && "X"[1..] == [];
    assert AsciiLower("x") == "x" && AsciiLower("X") == "x";
    assert AsciiLower("sx") == "sx" && AsciiLower("SX") == "sx";
    assert AsciiLower("lsx") == "lsx" && AsciiLower("LSX") == "lsx";
    assert AsciiLower("xlsx") == "xlsx" && AsciiLower("XLSX") == "xlsx";
  }

  /** A path without an extension is refused; ".xlsx" and ".XLSX" are opened. */
  lemma WorkbookPathByExtension(path: string)
    ensures SplitExt(path).1 == "" ==> !WorkbookPath(path)
    ensures SplitExt(path).1 == ".xlsx" ==> WorkbookPath(path)
    ensures SplitExt(path).1 == ".XLSX" ==> WorkbookPath(path)
  {
    LowerXlsx();
    assert WorkbookFormats[0] == ".xlsx";
  }

  /** The stored upload files: path to content, `None` when the file is not a
      workbook the spreadsheet library can open. */
  class UploadFolder {
    var files: map<string, Option<seq<Row>>>

    constructor ()
      ensures files == map[]
    {
      files := map[];
    }
  }

  /** import_from_excel: opens the workbook at `path`, adds one contact per data
      row with a truthy name and commits once after the loop. A path with a
      non-workbook extension or a file that is not a workbook cannot be opened.
      Any error raised before the commit leaves the table as it was. */
  method ImportFromExcel(db: Database, uploads: UploadFolder, path: string) returns (r: Result<nat, ImportError>)
    requires db.Valid()
    modifies db
    ensures db.Valid()
    ensures !WorkbookPath(path) || path !in uploads.files || uploads.files[path].None? ==>
      r == Err(InvalidWorkbook) && db.contacts == old(db.contacts) && db.commits == old(db.commits)
    ensures WorkbookPath(path) && path in uploads.files && uploads.files[path].Some? ==>
      match ImportEntries(DataRows(uploads.files[path].value))
      case Ok(es) =>
        && r == Ok(|es|)
        && db.contacts == Appended(old(db.contacts), old(db.nextId), old(db.pending) + es)
        && db.pending == [] && db.commits == old(db.commits) + 1
      case Err(e) =>
        r == Err(e) && db.contacts == old(db.contacts) && db.commits == old(db.commits)
  {
    if !WorkbookPath(path) || path !in uploads.files || uploads.files[path].None? {
      return Err(InvalidWorkbook);
    }
    var rows := DataRows(uploads.files[path].value);
    ghost var added: seq<Entry> := [];
    var count := 0;
    assert rows[0..] == rows;
    assert forall es: seq<Entry> :: [] + es == es;
    for i := 0 to |rows|
      invariant db.Valid()
      invariant db.contacts == old(db.contacts) && db.nextId == old(db.nextId) && db.commits == old(db.commits)
      invariant db.pending == old(db.pending) + added && count == |added|
      invariant ImportEntries(rows) == Prefixed(added, ImportEntries(rows[i..]))
    {
      assert rows[i..][1..] == rows[i + 1..];
      var row := rows[i];
      if |row| == 0 {
        return Err(IndexOutOfRange);
      }
      if Truthy(row[0]) {
        if |row| < 5 {
          return Err(IndexOutOfRange);
        }
        var e := Entry(row[0].value, row[1], row[2], row[3], row[4]);
        assert ImportEntries(rows[i..]) == Prefixed([e], ImportEntries(rows[i + 1..]));
        PrefixedTwice(added, [e], ImportEntries(rows[i + 1..]));
        db.Add(e);
        added := added + [e];
        count := count + 1;
      }
    }
    assert rows[|rows|..] == [];
    assert added + [] == added;
    db.Commit();
    r := Ok(count);
  }
}

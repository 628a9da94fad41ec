/**
  The records blueprint of records.py: the listing, adding, editing and
  deleting of bookkeeping records through a form, and the CSV upload that
  adds one record per row. Every handler sits behind `login_required`; new
  records belong to the signed-in user.
*/
module Records {
  import opened Common
  import opened Query
  import opened Store

  /** `list_records`: for a signed-in viewer, the queried records, newest first. */
  function ListRecords(v: Viewer, rows: seq<Record>): (r: Listing<Record>)
    ensures r.Listed? <==> v.SignedIn?
    ensures r.Refused? ==> r.response == Redirect(Login)
    ensures r.Listed? ==> SortedBy(r.rows, NewerOrSame) && multiset(r.rows) == multiset(rows)
  {
    match LoginRequired(v)
    case Some(refusal) => Refused(refusal)
    case None => assert TotalPreorder(NewerOrSame); Listed(SortBy(rows, NewerOrSame))
  }

  /** Over the records table's query result, a signed-in viewer sees each stored record exactly once. */
  lemma ListRecordsShowsTable(v: Viewer, table: map<int, Record>, rows: seq<Record>)
    requires v.SignedIn? && QueryOf(rows, table)
    ensures ListRecords(v, rows).Listed?
    ensures forall k :: k in table ==> multiset(ListRecords(v, rows).rows)[table[k]] == 1
    ensures forall x :: x in ListRecords(v, rows).rows <==> x in table.Values
  {
    QueryOfOnce(rows, table);
    var listed := ListRecords(v, rows).rows;
    forall x ensures x in listed <==> x in rows {
      assert x in listed <==> x in multiset(listed);
      assert x in rows <==> x in multiset(rows);
    }
  }

  /** A `RecordForm` that validated; the optional fields may be left out. */
  datatype RecordForm = RecordForm(
    category: string,
    subcategory: Option<string>,
    amount: real,
    description: Option<string>,
    recordedAt: int)

  /** The row `new_record` adds: the form's five fields, owned by `uid`. */
  function CreatedRecord(id: int, f: RecordForm, uid: int): (r: Record)
    ensures r.id == id && r.createdBy == uid
    ensures r.category == f.category && r.subcategory == f.subcategory && r.amount == f.amount
    ensures r.description == f.description && r.recordedAt == f.recordedAt
  {
    Record(id, f.category, f.subcategory, f.amount, f.description, f.recordedAt, uid)
  }

  /** `edit_record`'s change: the form's five fields; the id and the owner are kept. */
  function EditedRecord(r: Record, f: RecordForm): (e: Record)
    ensures e.id == r.id && e.createdBy == r.createdBy
    ensures e.category == f.category && e.subcategory == f.subcategory && e.amount == f.amount
    ensures e.description == f.description && e.recordedAt == f.recordedAt
  {
    r.(category := f.category, subcategory := f.subcategory, amount := f.amount,
       description := f.description, recordedAt := f.recordedAt)
  }

  /**
    Editing a record gives what adding the same form under the same id would
    have given its owner: the edit changes the content and nothing else.
  */
  lemma EditMatchesCreate(r: Record, f: RecordForm)
    ensures EditedRecord(r, f) == CreatedRecord(r.id, f, r.createdBy)
  {
  }

  /**
    `new_record`: `form` is `None` for a GET or a form that did not validate,
    which shows the form again; otherwise the record is added under a fresh id,
    owned by the signed-in user.
  */
  method NewRecord(db: Database, v: Viewer, form: Option<RecordForm>) returns (resp: Response)
    requires db.Valid()
    modifies db`records, db`nextRecordId
    ensures db.Valid()
    ensures v.Anonymous? ==> resp == Redirect(Login) && unchanged(db)
    ensures v.SignedIn? && form.None? ==> resp == ShowForm && unchanged(db)
    ensures v.SignedIn? && form.Some? ==>
      && resp == Redirect(RecordList)
      && old(db.nextRecordId) !in old(db.records)
      && db.records == old(db.records)[old(db.nextRecordId) := CreatedRecord(old(db.nextRecordId), form.value, v.userId)]
      && db.nextRecordId == old(db.nextRecordId) + 1
  {
    var gate := LoginRequired(v);
    if gate.Some? {
      return gate.value;
    }
    if form.None? {
      return ShowForm;
    }
    var id := db.nextRecordId;
    db.records := db.records[id := CreatedRecord(id, form.value, v.userId)];
    db.nextRecordId := id + 1;
    return Redirect(RecordList);
  }

  /**
    `edit_record`: a missing record is a 404; a form that did not validate is
    shown again; otherwise the five content fields of that record change.
    Any signed-in user may edit any record.
  */
  method EditRecord(db: Database, v: Viewer, recId: int, form: Option<RecordForm>) returns (resp: Response)
    requires db.Valid()
    modifies db`records
    ensures db.Valid()
    ensures v.Anonymous? ==> resp == Redirect(Login) && unchanged(db)
    ensures v.SignedIn? && recId !in old(db.records) ==> resp == NotFound && unchanged(db)
    ensures v.SignedIn? && recId in old(db.records) && form.None? ==> resp == ShowForm && unchanged(db)
    ensures v.SignedIn? && recId in old(db.records) && form.Some? ==>
      && resp == Redirect(RecordList)
      && db.records == old(db.records)[recId := EditedRecord(old(db.records)[recId], form.value)]
  {
    var gate := LoginRequired(v);
    if gate.Some? {
      return gate.value;
    }
    if recId !in db.records {
      return NotFound;
    }
    var r := db.records[recId];
    if form.None? {
      return ShowForm;
    }
    db.records := db.records[recId := EditedRecord(r, form.value)];
    return Redirect(RecordList);
  }

  /** `delete_record`: a missing record is a 404; otherwise that row is removed. */
  method DeleteRecord(db: Database, v: Viewer, recId: int) returns (resp: Response)
    requires db.Valid()
    modifies db`records
    ensures db.Valid()
    ensures v.Anonymous? ==> resp == Redirect(Login) && unchanged(db)
    ensures v.SignedIn? && recId !in old(db.records) ==> resp == NotFound && unchanged(db)
    ensures v.SignedIn? && recId in old(db.records) ==>
      resp == Redirect(RecordList) && db.records == old(db.records) - {recId}
  {
    var gate := LoginRequired(v);
    if gate.Some? {
      return gate.value;
    }
    if recId !in db.records {
      return NotFound;
    }
    db.records := db.records - {recId};
    return Redirect(RecordList);
  }

  // ---------------------------------------------------------------------
  // POST /records/upload
  // ---------------------------------------------------------------------

  /**
    One parsed CSV row. `subcategory` and `description` are `None` when the
    file has no such column.
  */
  datatype CsvRow = CsvRow(
    category: string,
    subcategory: Option<string>,
    amount: real,
    description: Option<string>,
    recordedAt: int)

  /** The `file` part of the request: the name the browser sent and the parsed rows. */
  datatype Upload = Upload(filename: string, rows: seq<CsvRow>)

  /**
    Werkzeug's `not f` for the file part: there is none, or it came without a
    file name (the empty part a browser sends when no file was chosen).
  */
  predicate NoFile(file: Option<Upload>) {
    file.None? || file.value.filename == ""
  }

  const NoFileMessage: string := "no file uploaded"

  /**
    The record made from one row: a missing subcategory column gives no
    subcategory, a missing description column gives the empty description.
  */
  function FromCsvRow(id: int, row: CsvRow, uid: int): (r: Record)
    ensures r.id == id && r.createdBy == uid
    ensures r.category == row.category && r.amount == row.amount && r.recordedAt == row.recordedAt
    ensures r.subcategory == row.subcategory
    ensures r.description == Some(if row.description.Some? then row.description.value else "")
  {
    Record(id, row.category, row.subcategory, row.amount, Some(row.description.GetOr("")), row.recordedAt, uid)
  }

  /** The records an upload adds, in file order, under the ids from `start` on. */
  function Imported(start: int, rows: seq<CsvRow>, uid: int): map<int, Record>
    decreases |rows|
  {
    if rows == [] then map[]
    else
      var n := |rows| - 1;
      Imported(start, rows[..n], uid)[start + n := FromCsvRow(start + n, rows[n], uid)]
  }

  /** The upload uses the ids from `start` on, one per row, and no other. */
  lemma {:induction false} ImportedKeys(start: int, rows: seq<CsvRow>, uid: int)
    ensures forall k :: k in Imported(start, rows, uid) <==> start <= k < start + |rows|
    ensures |Imported(start, rows, uid)| == |rows|
    decreases |rows|
  {
    if rows != [] {
      var n := |rows| - 1;
      ImportedKeys(start, rows[..n], uid);
      assert start + n !in Imported(start, rows[..n], uid);
    }
  }

  /** Row `i` of the file becomes the record with id `start + i`. */
  lemma {:induction false} ImportedAt(start: int, rows: seq<CsvRow>, uid: int)
    ensures forall k :: k in Imported(start, rows, uid) ==> start <= k < start + |rows|
    ensures forall k :: k in Imported(start, rows, uid) ==> Imported(start, rows, uid)[k] == FromCsvRow(k, rows[k - start], uid)
    decreases |rows|
  {
    if rows != [] {
      var n := |rows| - 1;
      var prev := Imported(start, rows[..n], uid);
      ImportedAt(start, rows[..n], uid);
      forall k | k in prev ensures rows[..n][k - start] == rows[k - start] { }
    }
  }

  /** Adding to the batch and then merging it into the table is adding to the merged table. */
  lemma MergeUpdate(a: map<int, Record>, b: map<int, Record>, k: int, r: Record)
    ensures a + b[k := r] == (a + b)[k := r]
  {
  }

  /**
    `upload_csv`: without a file, a 400 with an error message and no change;
    otherwise one record per row, added in order under fresh ids and owned by
    the uploader, and the answer counts the records added.
  */
  method UploadCsv(db: Database, v: Viewer, file: Option<Upload>) returns (resp: Response)
    requires db.Valid()
    modifies db`records, db`nextRecordId
    ensures db.Valid()
    ensures v.Anonymous? ==> resp == Redirect(Login) && unchanged(db)
    ensures v.SignedIn? && NoFile(file) ==> resp == JsonError(400, NoFileMessage) && unchanged(db)
    ensures v.SignedIn? && !NoFile(file) ==>
      && resp == UploadOk(|file.value.rows|)
      && db.records == old(db.records) + Imported(old(db.nextRecordId), file.value.rows, v.userId)
      && db.nextRecordId == old(db.nextRecordId) + |file.value.rows|
  {
    var gate := LoginRequired(v);
    if gate.Some? {
      return gate.value;
    }
    if NoFile(file) {
      return JsonError(400, NoFileMessage);
    }
    var rows := file.value.rows;
    var start := db.nextRecordId;
    var inserted: nat := 0;
    assert rows[..0] == [];
    for i := 0 to |rows|
      invariant inserted == i
      invariant db.nextRecordId == start + i
      invariant db.records == old(db.records) + Imported(start, rows[..i], v.userId)
      invariant db.Valid()
    {
      var id := db.nextRecordId;
      var rec := FromCsvRow(id, rows[i], v.userId);
      assert rows[..i + 1][..i] == rows[..i] && rows[..i + 1][i] == rows[i];
      MergeUpdate(old(db.records), Imported(start, rows[..i], v.userId), id, rec);
      db.records := db.records[id := rec];
      db.nextRecordId := id + 1;
      inserted := inserted + 1;
    }
    assert rows[..|rows|] == rows;
    return UploadOk(inserted);
  }

  /**
    What an upload adds to a table whose ids all lie below `start`: every
    record belongs to the uploader, the table grows by exactly the number of
    rows, which is the count the response reports, and no stored record is
    overwritten.
  */
  lemma UploadAddsOneRecordPerRow(records: map<int, Record>, start: int, rows: seq<CsvRow>, uid: int)
    requires forall k :: k in records ==> k < start
    ensures forall k :: k in Imported(start, rows, uid) ==> Imported(start, rows, uid)[k].createdBy == uid
    ensures |records + Imported(start, rows, uid)| == |records| + |rows|
    ensures forall k :: k in records ==> (records + Imported(start, rows, uid))[k] == records[k]
  {
    var im := Imported(start, rows, uid);
    ImportedKeys(start, rows, uid);
    ImportedAt(start, rows, uid);
    assert records.Keys !! im.Keys by {
      forall k | k in records ensures k !in im { }
    }
    DisjointMergeSize(records, im);
  }
}

/** The CSV import route, app/api/members/import-csv/route.js, from the
    parsed rows on: rows without a name or a phone are dropped, the rest
    become `Active` members without dates and are inserted in one batch. */
module CsvImport {
  import opened Wrappers
  import opened Calendar
  import opened MemberSchema
  import Http

  /** A parsed row, by column; `None` is a missing column. Cells are
      trimmed by the parser, so an empty cell is `Some("")`. */
  datatype CsvRow = CsvRow(name: Option<string>, phone: Option<string>)

  /** A record handed to `insertMany`. */
  datatype ImportRecord = ImportRecord(
    name: string,
    phone: string,
    status: Status,
    lastAttendance: Option<Day>,
    joinDate: Option<Day>)

  /** `row.name && row.phone`: both cells present and non-empty. */
  predicate KeepRow(row: CsvRow)
  {
    row.name.Some? && row.name.value != "" && row.phone.Some? && row.phone.value != ""
  }

  /** The record made from a kept row. */
  function ToRecord(row: CsvRow): (r: ImportRecord)
    requires KeepRow(row)
    ensures r.name == row.name.value && r.phone == row.phone.value
    ensures r.status == Active && r.lastAttendance.None? && r.joinDate.None?
  {
    ImportRecord(row.name.value, row.phone.value, Active, None, None)
  }

  /** `toInsert`: the kept rows, in order, each made into a record. */
  function RecordsToInsert(rows: seq<CsvRow>): (r: seq<ImportRecord>)
    ensures |r| <= |rows|
    ensures forall i | 0 <= i < |r| ::
              r[i].name != "" && r[i].phone != "" &&
              r[i].status == Active && r[i].lastAttendance.None? && r[i].joinDate.None?
    ensures forall i | 0 <= i < |rows| :: KeepRow(rows[i]) ==> ToRecord(rows[i]) in r
    ensures forall i | 0 <= i < |r| ::
              exists j | 0 <= j < |rows| :: KeepRow(rows[j]) && r[i] == ToRecord(rows[j])
    ensures |r| == 0 <==> forall i | 0 <= i < |rows| :: !KeepRow(rows[i])
  {
    if |rows| == 0 then []
    else
      var tail := RecordsToInsert(rows[1..]);
      assert forall j | 0 <= j < |rows| - 1 :: rows[1..][j] == rows[j + 1];
      if KeepRow(rows[0]) then [ToRecord(rows[0])] + tail else tail
  }

  /** Rows are handled one by one and in order: importing two batches of
      rows inserts the records of the first, then those of the second. */
  lemma {:induction false} RecordsOfConcat(a: seq<CsvRow>, b: seq<CsvRow>)
    ensures RecordsToInsert(a + b) == RecordsToInsert(a) + RecordsToInsert(b)
  {
    if |a| > 0 {
      assert (a + b)[1..] == a[1..] + b;
      RecordsOfConcat(a[1..], b);
    } else {
      assert a + b == b;
    }
  }

  /** The reply of a handled import. */
  datatype ImportReply = ImportReply(success: bool, createdCount: nat, message: Option<string>)

  /** The route's answer, and the records it passed to `insertMany` (`None`
      when it did not call it). */
  datatype ImportOutcome = ImportOutcome(
    response: Http.Response<ImportReply>,
    inserted: Option<seq<ImportRecord>>)

  /** `POST /api/members/import-csv`. `file` is the text of the uploaded
      file, `None` when there is none; `parse` stands for the CSV parser
      (`None` when it throws); `insertMany` stores the records and returns
      the inserted documents, or throws, and what it throws escapes the
      handler. */
  function ImportCsv(file: Option<string>,
                     parse: string -> Option<seq<CsvRow>>,
                     insertMany: seq<ImportRecord> -> Result<seq<ImportRecord>>): (r: ImportOutcome)
    ensures file.None? ==>
              r.response == Http.ErrorJson(400, "No file uploaded") && r.inserted.None?
    ensures file.Some? && parse(file.value).None? ==>
              r.response == Http.ErrorJson(400, "Invalid CSV format") && r.inserted.None?
    ensures r.inserted.Some? ==>
              file.Some? && parse(file.value).Some? &&
              r.inserted.value == RecordsToInsert(parse(file.value).value) &&
              |r.inserted.value| > 0
    ensures file.Some? && parse(file.value).Some? ==>
              var rows := parse(file.value).value;
              (r.inserted.None? <==> forall i | 0 <= i < |rows| :: !KeepRow(rows[i])) &&
              (r.inserted.None? ==>
                 r.response == Http.Json(ImportReply(false, 0, Some("No valid records to import."))))
    ensures r.inserted.Some? ==>
              match insertMany(r.inserted.value)
              case Success(docs) => r.response == Http.Json(ImportReply(true, |docs|, None))
              case Failure(e) => r.response == Http.Unhandled(e)
  {
    match file
    case None => ImportOutcome(Http.ErrorJson(400, "No file uploaded"), None)
    case Some(text) =>
      match parse(text)
      case None => ImportOutcome(Http.ErrorJson(400, "Invalid CSV format"), None)
      case Some(rows) =>
        var toInsert := RecordsToInsert(rows);
        if |toInsert| == 0 then
          ImportOutcome(Http.Json(ImportReply(false, 0, Some("No valid records to import."))), None)
        else
          match insertMany(toInsert)
          case Success(docs) =>
            ImportOutcome(Http.Json(ImportReply(true, |docs|, None)), Some(toInsert))
          case Failure(e) => ImportOutcome(Http.Unhandled(e), Some(toInsert))
  }
}

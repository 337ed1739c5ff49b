/** The deduplicating grade-sheet upload of app_2.py: guard chain, required-column
    check, key-based filter against the sheet's existing records, and the append
    at the first free spreadsheet row. */
module GradeSheet {
  import opened Frames

  /** Columns every uploaded grade sheet must have. */
  const REQUIRED_COLUMNS: seq<string> := ["batch_year", "semester", "course_name", "usn", "grade"]

  /** Which of the handler's JSON messages was sent. */
  datatype Message =
    | Unauthorized     // "Unauthorized"
    | NoFileUploaded   // "No file uploaded"
    | NoFileSelected   // "No file selected"
    | InvalidFormat    // "Invalid file format. Please upload a CSV file"
    | MissingColumns   // "CSV file must contain all required columns: ..."
    | ProcessingError  // "Error processing file: ..."
    | NoNewData        // "No new data to add. All records already exist."
    | Added            // "Successfully added <n> new records to Google Sheets"

  /** HTTP status, message, and the `records_added` field when the reply has one. */
  datatype Response = Response(status: nat, message: Message, recordsAdded: Option<nat>)

  /** An upload request: the caller's admin flag and the `file` part, if any. */
  datatype UploadRequest = UploadRequest(isAdmin: bool, file: Option<FilePart>)

  /** The natural key of a grade record. */
  datatype Key = Key(usn: string, courseName: string, batchYear: string, semester: string)

  function KeyOf(row: Row): Key
  {
    Key(Field(row, "usn"), Field(row, "course_name"), Field(row, "batch_year"), Field(row, "semester"))
  }

  /** The keys present among `records`. */
  function KeySet(records: seq<Row>): set<Key>
  {
    set r | r in records :: KeyOf(r)
  }

  /** No two records share a natural key. */
  predicate UniqueKeys(records: seq<Row>)
  {
    forall i, j :: 0 <= i < j < |records| ==> KeyOf(records[i]) != KeyOf(records[j])
  }

  /** The outcome of the checks made before the sheet is opened: the parsed
      frame to merge, or the reply that ends the request. */
  datatype Screened = Accept(frame: Frame) | Reject(response: Response)

  function Refuse(status: nat, message: Message): Screened
  {
    Reject(Response(status, message, None))
  }

  /** The guard chain, in the handler's order, up to and including the
      required-column check. It never looks at the sheet. */
  function Screen(req: UploadRequest): (s: Screened)
    ensures !req.isAdmin ==> s == Refuse(403, Unauthorized)
    ensures req.isAdmin && req.file.None? ==> s == Refuse(400, NoFileUploaded)
    ensures req.isAdmin && req.file.Some? && req.file.value.filename == "" ==> s == Refuse(400, NoFileSelected)
    ensures req.isAdmin && req.file.Some? && req.file.value.filename != "" && !EndsWith(req.file.value.filename, ".csv")
            ==> s == Refuse(400, InvalidFormat)
    ensures s.Accept? <==>
              req.isAdmin && req.file.Some? && req.file.value.filename != "" &&
              EndsWith(req.file.value.filename, ".csv") &&
              req.file.value.content.Parsed? && HasColumns(req.file.value.content.frame.columns, REQUIRED_COLUMNS)
    ensures s.Accept? ==> req.file.value.content == Parsed(s.frame)
    ensures req.isAdmin && req.file.Some? && req.file.value.filename != "" && EndsWith(req.file.value.filename, ".csv") &&
            req.file.value.content.Unreadable?
            ==> s == Refuse(400, ProcessingError)
    ensures req.isAdmin && req.file.Some? && req.file.value.filename != "" && EndsWith(req.file.value.filename, ".csv") &&
            req.file.value.content.Parsed? && !HasColumns(req.file.value.content.frame.columns, REQUIRED_COLUMNS)
            ==> s == Refuse(400, MissingColumns)
    ensures s.Reject? ==> s.response.status in {400, 403} && s.response.recordsAdded.None?
  {
    if !req.isAdmin then Refuse(403, Unauthorized)
    else if req.file.None? then Refuse(400, NoFileUploaded)
    else if req.file.value.filename == "" then Refuse(400, NoFileSelected)
    else if !EndsWith(req.file.value.filename, ".csv") then Refuse(400, InvalidFormat)
    else match req.file.value.content
      case Unreadable => Refuse(400, ProcessingError)
      case Parsed(f) =>
        if !HasColumns(f.columns, REQUIRED_COLUMNS) then Refuse(400, MissingColumns)
        else Accept(f)
  }

  /** The rows whose key is not in `known`, in file order, duplicates kept. */
  function Unseen(rows: seq<Row>, known: set<Key>): (kept: seq<Row>)
    ensures forall r :: r in kept ==> KeyOf(r) !in known
    ensures forall r :: multiset(kept)[r] == if KeyOf(r) in known then 0 else multiset(rows)[r]
    ensures Subseq(kept, rows)
    ensures |kept| <= |rows|
    decreases |rows|
  {
    if rows == [] then []
    else
      var rest := Unseen(rows[1..], known);
      assert rows == [rows[0]] + rows[1..];
      if KeyOf(rows[0]) in known then rest else [rows[0]] + rest
  }

  /** The filter step: against a non-empty sheet it keeps the rows whose key
      the sheet does not hold; against an empty sheet it keeps every row. */
  function KeepNew(rows: seq<Row>, existing: seq<Row>): (kept: seq<Row>)
    ensures existing == [] ==> kept == rows
    ensures forall r :: r in kept ==> r in rows
    ensures existing != [] ==> forall r :: r in kept ==> KeyOf(r) !in KeySet(existing)
    ensures existing != [] ==> forall r :: r in rows && KeyOf(r) !in KeySet(existing) ==> r in kept
    ensures existing != [] ==>
              forall r :: multiset(kept)[r] == if KeyOf(r) in KeySet(existing) then 0 else multiset(rows)[r]
    ensures Subseq(kept, rows)
    ensures |kept| <= |rows|
  {
    if existing == [] then SubseqRefl(rows); rows
    else
      var kept := Unseen(rows, KeySet(existing));
      assert forall r :: r in kept ==> multiset(kept)[r] > 0;
      assert forall r :: r in rows ==> multiset(rows)[r] > 0;
      kept
  }

  /** The reply and the rows the handler appends to the sheet. */
  datatype Outcome = Outcome(response: Response, added: seq<Row>)

  /** The whole upload against a sheet that holds `existing`. */
  function Decide(req: UploadRequest, existing: seq<Row>): (o: Outcome)
    ensures o.response.status in {200, 400, 403}
    ensures Screen(req).Reject? ==> o == Outcome(Screen(req).response, [])
    ensures o.response.status == 403 <==> !req.isAdmin
    ensures o.response.status != 200 ==> o.added == [] && o.response.recordsAdded.None?
    ensures o.response.status == 200 <==> Screen(req).Accept?
    ensures o.response.status == 200 ==> o.added == KeepNew(Screen(req).frame.rows, existing)
    ensures o.response.status == 200 ==> |o.added| <= |Screen(req).frame.rows|
    ensures o.added != [] <==> o.response.message == Added
    ensures o.response.message == NoNewData <==> o.response.status == 200 && o.added == []
    ensures o.response.message == Added ==> o.response == Response(200, Added, Some(|o.added|))
    ensures o.response.message == NoNewData ==> o.response.recordsAdded.None?
  {
    match Screen(req)
    case Reject(response) => Outcome(response, [])
    case Accept(f) =>
      var kept := KeepNew(f.rows, existing);
      if kept == [] then Outcome(Response(200, NoNewData, None), [])
      else Outcome(Response(200, Added, Some(|kept|)), kept)
  }

  /** A request turned away before the sheet is opened neither depends on nor
      changes the sheet. */
  lemma RejectedBeforeSheet(req: UploadRequest, existing: seq<Row>, other: seq<Row>)
    requires Screen(req).Reject?
    ensures Decide(req, existing) == Decide(req, other)
    ensures Decide(req, existing).added == []
  {
  }

  /** A file whose name does not end in ".csv" is refused whatever it holds:
      its content is never parsed. */
  lemma WrongExtensionNotParsed(req: UploadRequest, content: Parse, existing: seq<Row>)
    requires req.isAdmin && req.file.Some? && req.file.value.filename != ""
    requires !EndsWith(req.file.value.filename, ".csv")
    ensures Decide(req, existing) == Outcome(Response(400, InvalidFormat, None), [])
    ensures Decide(req, existing) ==
            Decide(req.(file := Some(FilePart(req.file.value.filename, content))), existing)
  {
  }

  /** Every row whose key is among `known` is filtered out. */
  lemma AllKnownKeepsNothing(rows: seq<Row>, known: set<Key>)
    requires forall r :: r in rows ==> KeyOf(r) in known
    ensures Unseen(rows, known) == []
  {
  }

  /** Uploading the same file again right after a first upload adds nothing
      and answers "No new data", whatever the sheet held before. */
  lemma ReuploadAddsNothing(req: UploadRequest, existing: seq<Row>)
    requires Screen(req).Accept?
    ensures Decide(req, existing + Decide(req, existing).added).added == []
    ensures Decide(req, existing + Decide(req, existing).added).response == Response(200, NoNewData, None)
  {
  }

  /** A sheet without duplicate keys keeps that property through an upload
      whose surviving rows have pairwise distinct keys. */
  lemma UploadKeepsKeysUnique(req: UploadRequest, existing: seq<Row>)
    requires UniqueKeys(existing)
    requires UniqueKeys(Decide(req, existing).added)
    ensures UniqueKeys(existing + Decide(req, existing).added)
  {
  }

  /** The handler does not deduplicate inside one upload: two rows with the
      same key, sent to an empty sheet, are both appended. */
  lemma InBatchDuplicatesReachSheet()
    ensures exists req: UploadRequest ::
              Screen(req).Accept? && !UniqueKeys(Decide(req, []).added)
  {
    var row: Row := map["batch_year" := "2021", "semester" := "3", "course_name" := "DBMS",
                        "usn" := "1XX21CS001", "grade" := "A"];
    var f := Frame(REQUIRED_COLUMNS, [row, row]);
    var req := UploadRequest(true, Some(FilePart("grades.csv", Parsed(f))));
    assert EndsWith("grades.csv", ".csv");
    assert HasColumns(f.columns, REQUIRED_COLUMNS);
    assert Decide(req, []).added == [row, row];
    assert KeyOf([row, row][0]) == KeyOf([row, row][1]);
  }

  /** The worksheet: its records in sheet order. Row 1 of the spreadsheet is
      the header, so record `i` sits on spreadsheet row `i + 2`. */
  class Sheet {
    var records: seq<Row>

    constructor (initial: seq<Row>)
      ensures records == initial
    {
      records := initial;
    }

    /** Writes `data` from spreadsheet row `startRow` on, overwriting what
        was there and extending the sheet past its end. */
    method Update(startRow: nat, data: seq<Row>)
      requires 2 <= startRow <= |records| + 2
      modifies this
      ensures records ==
              old(records)[..startRow - 2] + data +
              (if startRow - 2 + |data| < |old(records)| then old(records)[startRow - 2 + |data|..] else [])
    {
      var tail := if startRow - 2 + |data| < |records| then records[startRow - 2 + |data|..] else [];
      records := records[..startRow - 2] + data + tail;
    }

    /** The upload handler: screen the request, read every record, filter,
        and append the survivors at the first row after the last record. */
    method Upload(req: UploadRequest) returns (resp: Response)
      modifies this
      ensures resp == Decide(req, old(records)).response
      ensures records == old(records) + Decide(req, old(records)).added
      ensures resp.message != Added ==> records == old(records)
    {
      var screened := Screen(req);
      if screened.Reject? {
        return screened.response;
      }
      var existing := records;
      var kept := KeepNew(screened.frame.rows, existing);
      if kept == [] {
        return Response(200, NoNewData, None);
      }
      var nextRow := |existing| + 2;
      Update(nextRow, kept);
      assert existing[..nextRow - 2] == existing;
      resp := Response(200, Added, Some(|kept|));
    }
  }
}

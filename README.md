# Result analysis: grade-sheet ingestion and course queries

A Dafny model of the logic inside a small college result-analysis web
application. Three parts are modelled:

- **The deduplicating grade-sheet upload** (`app_2.py`). An admin uploads a
  CSV file of grades. The handler runs its guards in order: admin, file
  present, non-empty file name, `.csv` name, the five required columns. It
  then reads every record of the Google worksheet and drops each uploaded row
  whose natural key `(usn, course_name, batch_year, semester)` the worksheet
  already holds. It writes the survivors from spreadsheet row
  `len(existing) + 2` on and reports how many it added.
- **The dashboard URL** (`app_2.py`). A POST of the selection form yields the
  Looker Studio report URL with the batch, semester and course as query
  parameters. A GET yields no URL.
- **The course table** (`app.py`). An upload turns every CSV row into one
  `CourseData` record: no admin check, no column check, no deduplication.
  Three queries give the distinct batches, the distinct semesters of a batch
  and the distinct courses of a batch and semester. The grade histogram of
  one course counts its records per grade.

Files:

- `frames.dfy` (module `Frames`) holds the shared types: a parsed CSV frame
  (header plus rows keyed by column name), the uploaded file part, and
  sequence predicates.
- `grade_sheet.dfy` (module `GradeSheet`) models the `app_2.py` upload. The
  worksheet is the class `Sheet`, whose `records` field the upload appends
  to.
- `dashboard.dfy` (module `Dashboard`) models the URL builder.
- `course_db.dfy` (module `CourseDb`) models the `app.py` upload, the table
  as the class `CourseTable`, and the queries as functions over a sequence of
  records.

Each state-changing handler is a method proved against a pure function of
the request and the old state: `Sheet.Upload` against `Decide`, and
`CourseTable.Upload` against `Ingest`. The properties the handlers promise
are proved about those functions.

External collaborators become inputs:

- the login session becomes the `isAdmin` flag of the request;
- the CSV parser becomes the `Parse` value of the file part (a frame, or
  `Unreadable` when the parser raises);
- the Google worksheet and the SQL table become in-memory sequences.

Four behaviours of the code are modelled as written, although a
deduplicating ingestion pipeline would be expected to behave otherwise:

- The code does not deduplicate inside one upload. Two rows with the same
  key are both written, and against an empty worksheet no filtering happens
  at all. `InBatchDuplicatesReachSheet` exhibits this. `UploadKeepsKeysUnique`
  shows that the worksheet stays free of duplicate keys only when the
  surviving rows have distinct keys.
- The code checks the admin flag inside the handler (403). It is not left to
  the caller.
- A file with a header and no data rows is not a format error. It is a
  200 "No new data" reply.
- A missing column gets one fixed message that lists all five required
  columns. It does not name the missing one.

## Model

| member | source | states |
|---|---|---|
| `GradeSheet.Screen` | app_2.py:105-162 | Guards in source order. Non-admin gives 403 Unauthorized. No file part gives 400 "No file uploaded". An empty name gives 400 "No file selected". A name without `.csv` gives 400 "Invalid file format". A parser failure gives 400 "Error processing file". A missing required column gives 400 "must contain all required columns". Only a parsed frame with all five columns is accepted. |
| `GradeSheet.Unseen` | app_2.py:137-140 | The kept rows are exactly the rows whose key is not in the known set. Each is kept with its full multiplicity, in original relative order (a subsequence), and there are at most as many as the input. |
| `GradeSheet.KeepNew` | app_2.py:135-140 | Against an empty worksheet every row is kept, duplicates included. Against a non-empty one a row is kept iff its key is absent from the existing records, with multiplicity and order preserved. |
| `GradeSheet.Decide` | app_2.py:105-162 | 403 iff the caller is not admin. A request refused by a guard gets that guard's reply and appends nothing. Status 200 iff the request passes all guards. A 200 reply appends exactly the filtered rows, at most as many as the file has. "No new data" is the 200 reply that appends nothing and carries no `records_added`. On success `records_added` equals the number appended. |
| `GradeSheet.RejectedBeforeSheet` | app_2.py:108-129 | A request refused by a guard or by the column check gets the same reply whatever the worksheet holds, and nothing is appended. |
| `GradeSheet.WrongExtensionNotParsed` | app_2.py:118-162 | For an admin with a non-empty file name not ending in `.csv`, the reply is 400 "Invalid file format" and does not depend on the file's content. |
| `GradeSheet.AllKnownKeepsNothing` | app_2.py:137-143 | When every row's key is already known, the filter keeps nothing. |
| `GradeSheet.ReuploadAddsNothing` | app_2.py:132-157 | Uploading the same accepted file again, right after a first upload, adds no rows and answers 200 "No new data". |
| `GradeSheet.UploadKeepsKeysUnique` | app_2.py:135-152 | A worksheet without duplicate keys keeps that property when the appended rows have pairwise distinct keys. |
| `GradeSheet.InBatchDuplicatesReachSheet` | app_2.py:136-140 | There is an accepted upload to an empty worksheet whose appended rows share a key. |
| `GradeSheet.Sheet.Update` | app_2.py:152 | Writing from spreadsheet row `n` (row 1 is the header) overwrites records from index `n - 2` on and extends the sheet past its end. |
| `GradeSheet.Sheet.Upload` | app_2.py:105-162 | The reply is `Decide`'s reply on the old records. The new records are the old records followed by `Decide`'s appended rows, written at row `len(existing) + 2`. The worksheet is unchanged unless the reply is "Successfully added". |
| `Dashboard.ReportUrl` | app_2.py:93 | The URL starts with the Looker base URL and `?Batch_year_=`, ends with the course, and has the length of the base plus the three parameters and their values. |
| `Dashboard.LookerUrl` | app_2.py:88-97 | There is a URL iff the request is a POST. The URL is the report URL of the submitted selection. |
| `Dashboard.SplitQueryInverse` | app_2.py:93 | Splitting `head + batch + sp + semester + cp + course` at the first `&` after each value gives the three values back, when the separators begin with `&` and the batch and semester contain none. |
| `Dashboard.ReportUrlRoundTrip` | app_2.py:93 | Parsing the report URL gives back the selection when the batch and semester contain no `&`. |
| `Dashboard.PostUrlCarriesSelection` | app_2.py:88-94 | When the batch and semester contain no `&`, a POST yields a URL from which the submitted batch, semester and course are recovered. Each field present in the form is recovered as its value; a missing field is recovered as "None". |
| `CourseDb.Convert` | app.py:124-134 | The upload converts iff every row has all six columns. It then yields exactly one record per row, in file order, each built from that row. |
| `CourseDb.RectangularConverts` | app.py:123-132 | For a parsed frame with data rows, conversion succeeds iff the header has all six columns. A frame without data rows always converts, to no records. |
| `CourseDb.Ingest` | app.py:114-137 | No file part gives 400 "No file uploaded". An empty name gives 400 "No file selected". A name without `.csv` gives 400 "Invalid file format". A parser failure, or a row without a needed column, gives 500. Otherwise the reply is 200 "Data uploaded successfully" and one record per row is added, in file order, copying roll_no, student_name, grade, batch_year, semester and course_name. Nothing is added on a non-200 reply. |
| `CourseDb.CourseTable.Upload` | app.py:112-137 | The reply is `Ingest`'s. The table becomes the old table followed by `Ingest`'s records, committed after the loop over the rows. |
| `CourseDb.FilterBy` | app.py:76-80 | A record is selected iff it is in the table and equals every given field. Each selected record occurs as many times as in the table. |
| `CourseDb.Distinct` | app.py:57 | The result has no duplicates and holds exactly the values of the input. |
| `CourseDb.Values` | app.py:57 | One value per record: the i-th value is the i-th record's column. A value occurs iff some record carries it in that column. |
| `CourseDb.DistinctValues` | app.py:57-70 | No duplicates. A value occurs iff some matching record carries it in the column. |
| `CourseDb.Batches` | app.py:54-58 | Each batch year present in the table is returned exactly once, and nothing else. |
| `CourseDb.Semesters` | app.py:60-64 | Exactly the distinct semesters of the records whose batch year equals the given batch. |
| `CourseDb.Courses` | app.py:66-70 | Exactly the distinct course names of the records whose batch year and semester equal the given ones. |
| `CourseDb.Histogram` | app.py:90 | The keys are exactly the values that occur. Each count is the number of occurrences. |
| `CourseDb.HistogramTotal` | app.py:90 | The counts add up to the number of values counted. |
| `CourseDb.CourseRecords` | app.py:76-80 | A record is selected iff its batch year, semester and course name all equal the given ones. Each selected record occurs as many times as in the table. |
| `CourseDb.GradeCountIsOccurrences` | app.py:76-90 | The number of times a grade occurs among the selected records' grades equals the number of matching table records carrying it, each copy of a repeated record counted. |
| `CourseDb.GradeHistogram` | app.py:83-90 | The grade histogram of some records has as keys exactly their grades. Its counts are positive and add up to the number of records. |
| `CourseDb.GradeDistribution` | app.py:74-90 | No distribution (the handler raises) iff the course has no records. Otherwise a grade is a key iff some record of the course has it. Its count is positive and equals the number of table records of the course carrying that grade, repeated records counted. The counts add up to the number of selected records. |

## Left out

- Flask routing, templates, CORS, redirects and JSON rendering. Each handler
  yields only its status code and which message it sends.
- Login, logout and the session (`flask_login`), and password hashing with
  `check_password`. The admin flag is an input of the upload request.
- `add_users.py`, the seeding script, and `app_1.py`, which repeats the
  dashboard URL already modelled from `app_2.py`.
- CSV parsing (`pandas.read_csv`). The model takes the parsed header and rows
  as input, and a parser failure as `Unreadable`. Pandas' type inference and
  NaN cells are not modelled: every cell is a string, and a column a row
  lacks reads as the empty string when keys are compared.
- Opening the worksheet and its API errors. `get_google_sheet`, and
  failures of `get_all_records` or `update`, would give 400 "Error
  processing file". The in-memory worksheet never fails.
- A worksheet whose header lacks a key column. The source then raises a
  `KeyError`, reported as 400. In the model records are keyed rows, and a
  missing key field reads as blank.
- The spreadsheet layout. `df.values` is written from column A in the CSV's
  column order, whatever the worksheet's own column order is. The model
  appends the rows as keyed records.
- `GradeSheet.Sheet.Update`: writes that start at the header row or leave a
  gap of blank rows are excluded by its precondition. The handler never
  issues them.
- The unsynchronised read-then-write of one upload. Two concurrent uploads
  may both pass the filter and write duplicate keys; the model is
  single-request.
- Database failures at commit, and the column types of the `CourseData`
  model. `models.py` is not part of this model. SQL's `DISTINCT` promises no
  order, so the query results are only claimed duplicate-free and exact as
  sets of values.
- The Power BI embed token and the summarisation model in
  `get_visualization`: foreign services. Only the grade distribution is
  modelled.
- `Dashboard.ReportUrl`: the values are not URL-escaped, as in the source.
  The round trip is proved only for a batch and semester without `&`.

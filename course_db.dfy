/** The course-data side of app.py: the non-deduplicating CSV upload into the
    `CourseData` table, the distinct-value queries that fill the selection
    lists, and the grade histogram of one course. */
module CourseDb {
  import opened Frames

  /** One row of the `CourseData` table. */
  datatype CourseRecord = CourseRecord(
    rollNo: string, studentName: string, grade: string,
    batchYear: string, semester: string, courseName: string)

  /** Which of the handler's replies was sent. */
  datatype Message =
    | NoFileUploaded   // "No file uploaded"
    | NoFileSelected   // "No file selected"
    | InvalidFormat    // "Invalid file format"
    | Uploaded         // "Data uploaded successfully"
    | ServerError      // an exception the handler does not catch

  datatype Response = Response(status: nat, message: Message)

  /** The columns the upload reads from every row. */
  const RECORD_COLUMNS: seq<string> := ["roll_no", "student_name", "grade", "batch_year", "semester", "course_name"]

  /** The row has every column the upload reads; reading a missing one raises. */
  predicate Complete(row: Row)
  {
    "roll_no" in row && "student_name" in row && "grade" in row &&
    "batch_year" in row && "semester" in row && "course_name" in row
  }

  /** The record built from one CSV row. */
  function ToRecord(row: Row): CourseRecord
    requires Complete(row)
  {
    CourseRecord(row["roll_no"], row["student_name"], row["grade"],
                 row["batch_year"], row["semester"], row["course_name"])
  }

  /** The records one upload commits: one per row, in file order, or `None`
      when some row lacks a column and the loop raises before the commit. */
  function Convert(rows: seq<Row>): (r: Option<seq<CourseRecord>>)
    ensures r.Some? <==> forall i :: 0 <= i < |rows| ==> Complete(rows[i])
    ensures r.Some? ==> |r.value| == |rows|
    ensures r.Some? ==> forall i :: 0 <= i < |rows| ==> Complete(rows[i]) && r.value[i] == ToRecord(rows[i])
    decreases |rows|
  {
    if rows == [] then Some([])
    else if !Complete(rows[0]) then None
    else match Convert(rows[1..])
      case None =>
        assert exists i :: 0 <= i < |rows[1..]| && !Complete(rows[1..][i]);
        None
      case Some(rest) => Some([ToRecord(rows[0])] + rest)
  }

  /** A parsed file with data rows converts exactly when its header has every
      column the upload reads; a file without data rows always converts. */
  lemma RectangularConverts(f: Frame)
    requires Rectangular(f)
    ensures f.rows == [] ==> Convert(f.rows) == Some([])
    ensures f.rows != [] ==> (Convert(f.rows).Some? <==> HasColumns(f.columns, RECORD_COLUMNS))
  {
  }

  /** The reply and the records that one upload commits to the table. */
  datatype Outcome = Outcome(response: Response, added: seq<CourseRecord>)

  function Reply(status: nat, message: Message): Outcome
  {
    Outcome(Response(status, message), [])
  }

  /** The upload handler as a function of the `file` part: the guard chain,
      then one record per row, committed only when every row converts. */
  function Ingest(file: Option<FilePart>): (o: Outcome)
    ensures file.None? ==> o == Reply(400, NoFileUploaded)
    ensures file.Some? && file.value.filename == "" ==> o == Reply(400, NoFileSelected)
    ensures file.Some? && file.value.filename != "" && !EndsWith(file.value.filename, ".csv")
            ==> o == Reply(400, InvalidFormat)
    ensures file.Some? && file.value.filename != "" && EndsWith(file.value.filename, ".csv") &&
            file.value.content.Unreadable?
            ==> o == Reply(500, ServerError)
    ensures file.Some? && file.value.filename != "" && EndsWith(file.value.filename, ".csv") &&
            file.value.content.Parsed? &&
            (exists i :: 0 <= i < |file.value.content.frame.rows| && !Complete(file.value.content.frame.rows[i]))
            ==> o == Reply(500, ServerError)
    ensures o.response.status in {200, 400, 500}
    ensures o.response.status != 200 ==> o.added == []
    ensures o.response.status == 200 ==> o.response == Response(200, Uploaded)
    ensures o.response.status == 200 <==>
              file.Some? && file.value.filename != "" && EndsWith(file.value.filename, ".csv") &&
              file.value.content.Parsed? &&
              forall i :: 0 <= i < |file.value.content.frame.rows| ==> Complete(file.value.content.frame.rows[i])
    ensures o.response.status == 200 ==>
              var rows := file.value.content.frame.rows;
              |o.added| == |rows| && forall i :: 0 <= i < |rows| ==> o.added[i] == ToRecord(rows[i])
  {
    if file.None? then Reply(400, NoFileUploaded)
    else if file.value.filename == "" then Reply(400, NoFileSelected)
    else if !EndsWith(file.value.filename, ".csv") then Reply(400, InvalidFormat)
    else match file.value.content
      case Unreadable => Reply(500, ServerError)
      case Parsed(f) =>
        match Convert(f.rows)
        case None => Reply(500, ServerError)
        case Some(records) => Outcome(Response(200, Uploaded), records)
  }

  /** The `CourseData` table, in insertion order. */
  class CourseTable {
    var records: seq<CourseRecord>

    constructor (initial: seq<CourseRecord>)
      ensures records == initial
    {
      records := initial;
    }

    /** The upload handler: every row becomes a pending record in the
        session, and the commit appends them all; a row that lacks a column
        raises before the commit, so nothing is added. */
    method Upload(file: Option<FilePart>) returns (resp: Response)
      modifies this
      ensures resp == Ingest(file).response
      ensures records == old(records) + Ingest(file).added
    {
      if file.None? {
        return Response(400, NoFileUploaded);
      }
      if file.value.filename == "" {
        return Response(400, NoFileSelected);
      }
      if !EndsWith(file.value.filename, ".csv") {
        return Response(400, InvalidFormat);
      }
      if file.value.content.Unreadable? {
        return Response(500, ServerError);
      }
      var rows := file.value.content.frame.rows;
      var pending: seq<CourseRecord> := [];
      var i := 0;
      while i < |rows|
        invariant 0 <= i <= |rows|
        invariant |pending| == i
        invariant forall k :: 0 <= k < i ==> Complete(rows[k]) && pending[k] == ToRecord(rows[k])
      {
        if !Complete(rows[i]) {
          return Response(500, ServerError);
        }
        pending := pending + [ToRecord(rows[i])];
        i := i + 1;
      }
      records := records + pending;
      resp := Response(200, Uploaded);
    }
  }

  /** `filter_by` on the table: each given field must equal its value. */
  datatype Criteria = Criteria(batchYear: Option<string>, semester: Option<string>, courseName: Option<string>)

  predicate Matches(rec: CourseRecord, c: Criteria)
  {
    (c.batchYear.None? || rec.batchYear == c.batchYear.value) &&
    (c.semester.None? || rec.semester == c.semester.value) &&
    (c.courseName.None? || rec.courseName == c.courseName.value)
  }

  /** The records that match, in table order. */
  function FilterBy(table: seq<CourseRecord>, c: Criteria): (r: seq<CourseRecord>)
    ensures forall x :: x in r <==> x in table && Matches(x, c)
    ensures forall x :: multiset(r)[x] == if Matches(x, c) then multiset(table)[x] else 0
    ensures |r| <= |table|
    decreases |table|
  {
    if table == [] then []
    else
      var rest := FilterBy(table[1..], c);
      assert table == [table[0]] + table[1..];
      if Matches(table[0], c) then [table[0]] + rest else rest
  }

  /** The elements of `s` once each, in order of first occurrence; SQL's
      DISTINCT promises no order, so none is claimed. */
  function Distinct(s: seq<string>): (r: seq<string>)
    ensures NoDup(r)
    ensures forall x :: x in r <==> x in s
    ensures |r| <= |s|
    decreases |s|
  {
    if s == [] then []
    else
      var d := Distinct(s[..|s| - 1]);
      var last := s[|s| - 1];
      assert s == s[..|s| - 1] + [last];
      if last in d then d else d + [last]
  }

  datatype Column = BatchYearColumn | SemesterColumn | CourseNameColumn | GradeColumn

  function Get(rec: CourseRecord, col: Column): string
  {
    match col
    case BatchYearColumn => rec.batchYear
    case SemesterColumn => rec.semester
    case CourseNameColumn => rec.courseName
    case GradeColumn => rec.grade
  }

  /** `with_entities(col)`: the column's value for each record, in order. */
  function Values(table: seq<CourseRecord>, col: Column): (r: seq<string>)
    ensures |r| == |table|
    ensures forall i :: 0 <= i < |table| ==> r[i] == Get(table[i], col)
    ensures forall v :: v in r <==> exists x :: x in table && Get(x, col) == v
  {
    var r := seq(|table|, i requires 0 <= i < |table| => Get(table[i], col));
    assert forall i :: 0 <= i < |table| ==> r[i] == Get(table[i], col);
    r
  }

  /** `with_entities(col).distinct()` on the matching records. */
  function DistinctValues(table: seq<CourseRecord>, c: Criteria, col: Column): (r: seq<string>)
    ensures NoDup(r)
    ensures forall v :: v in r <==> exists x :: x in table && Matches(x, c) && Get(x, col) == v
  {
    var matching := FilterBy(table, c);
    var r := Distinct(Values(matching, col));
    assert forall v :: v in r <==> exists x :: x in matching && Get(x, col) == v;
    r
  }

  /** Every batch year in the table, once each. */
  function Batches(table: seq<CourseRecord>): (r: seq<string>)
    ensures NoDup(r)
    ensures forall b :: b in r <==> exists x :: x in table && x.batchYear == b
  {
    DistinctValues(table, Criteria(None, None, None), BatchYearColumn)
  }

  /** Every semester recorded for `batch`, once each. */
  function Semesters(table: seq<CourseRecord>, batch: string): (r: seq<string>)
    ensures NoDup(r)
    ensures forall s :: s in r <==> exists x :: x in table && x.batchYear == batch && x.semester == s
  {
    DistinctValues(table, Criteria(Some(batch), None, None), SemesterColumn)
  }

  /** Every course recorded for `batch` and `semester`, once each. */
  function Courses(table: seq<CourseRecord>, batch: string, semester: string): (r: seq<string>)
    ensures NoDup(r)
    ensures forall n :: n in r <==>
              exists x :: x in table && x.batchYear == batch && x.semester == semester && x.courseName == n
  {
    DistinctValues(table, Criteria(Some(batch), Some(semester), None), CourseNameColumn)
  }

  /** `value_counts`: each value of `s` mapped to its number of occurrences. */
  function Histogram(s: seq<string>): (h: map<string, nat>)
    ensures forall g :: g in h <==> g in s
    ensures forall g :: g in h ==> h[g] == multiset(s)[g]
    decreases |s|
  {
    if s == [] then map[]
    else
      var h := Histogram(s[..|s| - 1]);
      var g := s[|s| - 1];
      assert s == s[..|s| - 1] + [g];
      h[g := (if g in h then h[g] else 0) + 1]
  }

  /** The sum of a map's values. */
  ghost function Total(m: map<string, nat>): nat
    decreases |m|
  {
    if m == map[] then 0
    else
      var k :| k in m;
      m[k] + Total(m - {k})
  }

  /** The sum does not depend on which key is taken first. */
  lemma {:induction false} TotalRemove(m: map<string, nat>, k: string)
    requires k in m
    ensures Total(m) == m[k] + Total(m - {k})
    decreases |m|
  {
    var k' :| k' in m && Total(m) == m[k'] + Total(m - {k'});
    if k' != k {
      assert k in m - {k'};
      TotalRemove(m - {k'}, k);
      assert k' in m - {k};
      TotalRemove(m - {k}, k');
      assert m - {k'} - {k} == m - {k} - {k'};
    }
  }

  /** The occurrence counts add up to the number of values counted. */
  lemma {:induction false} HistogramTotal(s: seq<string>)
    ensures Total(Histogram(s)) == |s|
    decreases |s|
  {
    if s != [] {
      var init := s[..|s| - 1];
      var g := s[|s| - 1];
      var h := Histogram(init);
      HistogramTotal(init);
      var h' := Histogram(s);
      assert h' == h[g := (if g in h then h[g] else 0) + 1];
      TotalRemove(h', g);
      assert h' - {g} == h - {g};
      if g in h {
        TotalRemove(h, g);
      } else {
        assert h - {g} == h;
      }
    }
  }

  /** The records of one course in one batch and semester. */
  function CourseRecords(table: seq<CourseRecord>, batch: string, semester: string, course: string)
    : (r: seq<CourseRecord>)
    ensures forall x :: x in r <==>
              x in table && x.batchYear == batch && x.semester == semester && x.courseName == course
    ensures forall x :: multiset(r)[x] ==
              if x.batchYear == batch && x.semester == semester && x.courseName == course
              then multiset(table)[x] else 0
  {
    FilterBy(table, Criteria(Some(batch), Some(semester), Some(course)))
  }

  /** How many records of `table` match `c` and carry grade `g`, each copy of
      a repeated record counted. */
  function GradeCount(table: seq<CourseRecord>, c: Criteria, g: string): nat
    decreases |table|
  {
    if table == [] then 0
    else (if Matches(table[0], c) && table[0].grade == g then 1 else 0) + GradeCount(table[1..], c, g)
  }

  /** Counting the grades of the selected records counts the matching table
      records that carry the grade, duplicates included. */
  lemma {:induction false} GradeCountIsOccurrences(table: seq<CourseRecord>, c: Criteria, g: string)
    ensures multiset(Values(FilterBy(table, c), GradeColumn))[g] == GradeCount(table, c, g)
    decreases |table|
  {
    if table != [] {
      GradeCountIsOccurrences(table[1..], c, g);
      var rest := FilterBy(table[1..], c);
      if Matches(table[0], c) {
        assert FilterBy(table, c) == [table[0]] + rest;
        ValuesCons(table[0], rest, GradeColumn);
        assert multiset([table[0].grade] + Values(rest, GradeColumn)) ==
               multiset{table[0].grade} + multiset(Values(rest, GradeColumn));
      } else {
        assert FilterBy(table, c) == rest;
      }
    }
  }

  lemma ValuesCons(x: CourseRecord, rest: seq<CourseRecord>, col: Column)
    ensures Values([x] + rest, col) == [Get(x, col)] + Values(rest, col)
  {
    var vs := Values([x] + rest, col);
    var ws := [Get(x, col)] + Values(rest, col);
    assert |vs| == |ws|;
    forall i | 0 <= i < |vs| ensures vs[i] == ws[i] {
      if i > 0 {
        assert ([x] + rest)[i] == rest[i - 1];
      }
    }
  }

  /** The histogram of the grades of `data`: its keys are the grades that
      occur, its counts are positive and add up to the number of records. */
  lemma GradeHistogram(data: seq<CourseRecord>)
    ensures forall g :: g in Histogram(Values(data, GradeColumn)) <==> exists x :: x in data && x.grade == g
    ensures forall g :: g in Histogram(Values(data, GradeColumn)) ==> Histogram(Values(data, GradeColumn))[g] > 0
    ensures Total(Histogram(Values(data, GradeColumn))) == |data|
  {
    var grades := Values(data, GradeColumn);
    HistogramTotal(grades);
  }

  /** The grade distribution of one course: each grade that occurs among its
      records, mapped to how many of them carry it. With no records the data
      frame has no `grade` column and the handler raises, shown as `None`. */
  function GradeDistribution(table: seq<CourseRecord>, batch: string, semester: string, course: string)
    : (r: Option<map<string, nat>>)
    ensures r.None? <==> CourseRecords(table, batch, semester, course) == []
    ensures r.Some? ==> forall g :: g in r.value <==>
              exists x :: x in CourseRecords(table, batch, semester, course) && x.grade == g
    ensures r.Some? ==> forall g :: g in r.value ==>
              0 < r.value[g] == multiset(Values(CourseRecords(table, batch, semester, course), GradeColumn))[g]
    ensures r.Some? ==> forall g :: g in r.value ==>
              r.value[g] == GradeCount(table, Criteria(Some(batch), Some(semester), Some(course)), g)
    ensures r.Some? ==> Total(r.value) == |CourseRecords(table, batch, semester, course)|
  {
    var data := CourseRecords(table, batch, semester, course);
    if data == [] then None
    else
      GradeHistogram(data);
      assert forall g :: multiset(Values(data, GradeColumn))[g] ==
                         GradeCount(table, Criteria(Some(batch), Some(semester), Some(course)), g) by {
        forall g ensures multiset(Values(data, GradeColumn))[g] ==
                         GradeCount(table, Criteria(Some(batch), Some(semester), Some(course)), g) {
          GradeCountIsOccurrences(table, Criteria(Some(batch), Some(semester), Some(course)), g);
        }
      }
      Some(Histogram(Values(data, GradeColumn)))
  }
}

/** Values shared by both upload handlers: an uploaded file part, the table that
    parsing a CSV file yields, and small sequence predicates used in contracts. */
module Frames {

  datatype Option<T> = None | Some(value: T)

  /** One parsed CSV row, keyed by column name. */
  type Row = map<string, string>

  /** A parsed CSV file: its header, in file order, and its data rows, in file order. */
  datatype Frame = Frame(columns: seq<string>, rows: seq<Row>)

  /** What parsing an uploaded file yields: a frame, or a parser failure
      (an empty or malformed file). Parsing itself is not modelled. */
  datatype Parse = Parsed(frame: Frame) | Unreadable

  /** The `file` part of a multipart upload: its declared name and its parsed content. */
  datatype FilePart = FilePart(filename: string, content: Parse)

  /** The value of `column` in `row`; a column the row lacks reads as a blank cell. */
  function Field(row: Row, column: string): string
  {
    if column in row then row[column] else ""
  }

  /** Every required column occurs in the header (extra columns are allowed). */
  predicate HasColumns(columns: seq<string>, required: seq<string>)
  {
    forall c :: c in required ==> c in columns
  }

  /** A frame whose every row carries exactly the header's columns, as a
      CSV parser produces it. */
  predicate Rectangular(f: Frame)
  {
    forall i :: 0 <= i < |f.rows| ==> f.rows[i].Keys == set c | c in f.columns
  }

  /** The string method `endswith`. */
  predicate EndsWith(s: string, suffix: string)
  {
    |suffix| <= |s| && s[|s| - |suffix|..] == suffix
  }

  /** The string method `startswith`. */
  predicate StartsWith(s: string, prefix: string)
  {
    |prefix| <= |s| && s[..|prefix|] == prefix
  }

  /** `a` is `b` with some elements left out, the rest in their original order. */
  predicate Subseq<T(==)>(a: seq<T>, b: seq<T>)
    decreases |b|
  {
    a == [] || (b != [] && ((a[0] == b[0] && Subseq(a[1..], b[1..])) || Subseq(a, b[1..])))
  }

  /** Every sequence is a subsequence of itself. */
  lemma {:induction false} SubseqRefl<T>(s: seq<T>)
    ensures Subseq(s, s)
    decreases |s|
  {
    if s != [] {
      SubseqRefl(s[1..]);
    }
  }

  /** No element occurs twice. */
  predicate NoDup<T(==)>(s: seq<T>)
  {
    forall i, j :: 0 <= i < j < |s| ==> s[i] != s[j]
  }
}

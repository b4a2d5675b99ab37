/**
 The fixed-shape records the scanner produces: one `ScoreRecord` per scanned
 file, and one `PairedRecord` per line of the paired output.
 */
module Records {

  datatype Option<T> = None | Some(value: T)

  /** The `type` column: how the text of a file was obtained. `Unknown` is an
      unsupported file, `Image` an OCR'd png/jpg, `Pdf` a pdf's own text layer
      and `ImagePdf` the text layer of an OCR'd copy of the pdf. */
  datatype DocType = Unknown | Image | Pdf | ImagePdf

  /** One row of the per-file score table. `studentName` is the submission key
      taken from the file name, not a roster name. */
  datatype ScoreRecord = ScoreRecord(
    studentName: string,
    score: nat,
    missingQuestions: seq<string>,
    docType: DocType)

  /** One row of the paired table. `Paired` copies a score record and adds the
      roster name (or "?" for a submission nobody on the roster claims);
      `MissingStudent` is the placeholder row for a roster name without a
      submission, whose fields are the empty key, score 0, the text
      "MISSING" in place of the missing questions and an empty type. */
  datatype PairedRecord =
    | Paired(trueName: string, source: ScoreRecord)
    | MissingStudent(trueName: string)
  {
    /** The `student_name` column of the row. */
    function StudentName(): string {
      match this
      case Paired(_, rec) => rec.studentName
      case MissingStudent(_) => ""
    }

    /** The `score` column of the row. */
    function Score(): nat {
      match this
      case Paired(_, rec) => rec.score
      case MissingStudent(_) => 0
    }
  }

  /** The roster name used for a submission that no roster name claims. */
  const OrphanName: string := "?"

  /** `a` is `b` with some elements left out, the rest in their original order. */
  predicate IsSubsequence<T(==)>(a: seq<T>, b: seq<T>)
  {
    if a == [] then true
    else if b == [] then false
    else (a[0] == b[0] && IsSubsequence(a[1..], b[1..])) || IsSubsequence(a, b[1..])
  }

  /** Dropping the first element of `b` keeps every subsequence of `b[1..]` a
      subsequence of `b`. */
  lemma SubsequenceCons<T>(x: T, a: seq<T>, b: seq<T>)
    requires IsSubsequence(a, b)
    ensures IsSubsequence(a, [x] + b)
  {
    assert ([x] + b)[1..] == b;
  }

  /** Keeping a common first element keeps the subsequence relation. */
  lemma SubsequenceKeep<T>(x: T, a: seq<T>, b: seq<T>)
    requires IsSubsequence(a, b)
    ensures IsSubsequence([x] + a, [x] + b)
  {
    assert ([x] + a)[1..] == a;
    assert ([x] + b)[1..] == b;
  }
}

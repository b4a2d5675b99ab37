# Homework scanner: a Dafny model of the grading core

The homework scanner walks a directory of student submissions, extracts the
text of every png/jpg image (by OCR) and pdf (by its text layer, falling back
to an OCR'd copy when that layer scores nothing), scores the text against a
list of questions, and writes one score row per file. When a class roster is
available it also writes a paired table: one row per roster name, matched by
a compact form of the name against the submission key cut from the file
name, followed by every submission nobody on the roster claimed.

This project models that decision logic in `main.py` and proves what it
guarantees:

- `text.dfy` (module `Text`): the Python string primitives the scoring uses —
  `str.split()`, `' '.join(...)`, `str.strip()`, substring `in`, and
  `str.isspace()` — with the laws the proofs need (splitting a joined word
  list gives it back, whitespace collapsing is idempotent and preserves every
  normally spaced infix).
- `records.dfy` (module `Records`): the score row, the paired row (a copied
  score row, or the "MISSING" placeholder), the document types, and a
  subsequence relation.
- `scoring.dfy` (module `Scoring`): `get_score_and_missing_questions`, as the
  loop it is (`Tally`) and against independent filter definitions
  (`Completed`, `Missing`, `NonEmpty`).
- `names.dfy` (module `Names`): `convert_to_compact_name` and the submission
  key `file_name.split('_', 1)[0]`.
- `pairing.dfy` (module `Pairing`): `pair_scores`, with a reference
  definition of the orphan rows (`Orphans`) that the second loop is proved to
  produce.
- `scanning.dfy` (module `Scanning`): the per-file classification by file
  name pattern, the pdf OCR fallback, the scan loop and the overall run.
  The image OCR engine, the pdf text extractor and the pdf OCR engine are
  parameters (`Extractors`), as are the availability flags (`Capabilities`).

## Model

| member | source | states |
|---|---|---|
| Scoring.ScoreText | main.py:164-176 | the score is the number of questions that are non-empty and whose stripped form occurs in the whitespace-collapsed text, and the missing list is exactly the non-empty questions whose stripped form does not occur, in question order |
| Scoring.ScoreAccountsForEveryQuestion | main.py:164-176 | every non-empty question is either counted or listed missing (score + number missing = number of non-empty questions); a question is listed missing exactly when it is a non-empty question whose stripped form does not occur in the collapsed text; the missing list keeps question order |
| Scoring.ScoreCountsNonEmpty | main.py:170-176 | for every text, the score plus the number of missing questions is the number of non-empty questions |
| Scoring.Tally | main.py:168-176 | the loop's final state equals the reference filters: the score is the length of `Completed` and the missing list is exactly `Missing` |
| Scoring.FiltersPartition | main.py:170-174 | each non-empty question lands in exactly one of the completed and missing lists and each empty question in neither (a multiset equation) |
| Scoring.FiltersCount | main.py:170-174 | the completed and missing lists together are exactly as long as the list of non-empty questions |
| Scoring.MissingIff | main.py:173-174 | a question is in the missing list exactly when it is one of the questions and is non-empty and not found |
| Scoring.CompletedIff | main.py:171-172 | a question is counted exactly when it is one of the questions and is non-empty and found |
| Scoring.MissingIsSubsequence | main.py:169-174 | the missing questions appear in the same order as in the question list, with their original (unstripped) spelling |
| Scoring.FiltersConcat | main.py:170-174 | the three filters distribute over concatenation of question lists |
| Scoring.ScoreConcat | main.py:170-176 | scoring a concatenated question list adds the scores and concatenates the missing lists, so duplicate questions are counted independently |
| Scoring.EmptyQuestionIgnored | main.py:171-174 | the empty question is never counted and never listed missing |
| Scoring.EmptyQuestionsScoreNothing | main.py:171-174 | a question list of empty lines scores 0 with nothing missing |
| Scoring.ScoreSingle | main.py:170-176 | one question scores 1 if found, is listed missing if non-empty and not found, and is ignored if empty |
| Scoring.WhitespaceQuestionCounts | main.py:171 | a non-empty question made only of whitespace strips to the empty string, which occurs in every text, so it always counts as completed |
| Scoring.EmptyTextMissing | main.py:166-174 | against an empty text a question is missing exactly when it has a non-whitespace character |
| Scoring.EmptyTextScoresZero | main.py:166-176 | against an empty text, any list of questions that all hold a visible character scores 0 and lists every question missing, in order |
| Scoring.ScoreOfNormalisedText | main.py:166 | the score depends only on the whitespace-collapsed text: scoring the collapsed text gives the same grade |
| Scoring.VerbatimQuestionCounts | main.py:166-171 | a question whose stripped form is singly spaced and occurs verbatim in the raw text counts, however the surrounding text is spaced |
| Scoring.IrregularQuestionNeverCounts | main.py:166-173 | a question whose stripped form contains a tab, a line break or a double space can never occur in the collapsed text and is always reported missing |
| Scoring.QuestionFoundIn | main.py:166-172 | a trimmed, singly spaced question counts wherever it is written in the text |
| Scoring.ScoreFoundThenMissing | main.py:170-176 | with two questions, the first found and the second not, the grade is one point with the second missing |
| Scoring.ScoreBothFound | main.py:170-176 | with two questions both found, the grade is two points with nothing missing |
| Scoring.BothQuestionsFound | main.py:166-176 | two trimmed, singly spaced questions written anywhere in a text give two points and nothing missing |
| Text.Split | main.py:166 | `str.split()`: a text starting with a non-whitespace character yields a first word starting with that character |
| Text.SplitIsClean | main.py:166 | `str.split()` returns only non-empty words without whitespace |
| Text.SplitJoin | main.py:166 | splitting the space-join of clean words gives the words back |
| Text.SplitConcat | main.py:166 | splitting distributes over concatenation when whitespace sits at the seam |
| Text.Normalise | main.py:166 | `' '.join(text.split())`: the collapsed text has only single plain spaces, each between two visible characters, none at either end |
| Text.NormaliseKeepsWords | main.py:166 | collapsing keeps the words: splitting the collapsed text gives exactly the words of the original |
| Text.NormaliseIdempotent | main.py:166 | collapsing whitespace twice changes nothing |
| Text.NormaliseFixedIff | main.py:166 | a string is unchanged by collapsing exactly when it is already normally spaced |
| Text.NormalisePreservesContains | main.py:166-171 | a normally spaced, non-empty string that occurs in a text still occurs after collapsing |
| Text.InfixOfNormalIsSpaced | main.py:166-171 | every substring of a collapsed text has only single plain spaces |
| Text.Strip | main.py:171 | `str.strip()`: the result starts and ends with non-whitespace and is empty exactly when the input is all whitespace |
| Text.StripIsInfix | main.py:171 | what `str.strip()` leaves sits in its input with only whitespace before and after it, so nothing but the two end runs is removed |
| Text.StripUnique | main.py:171 | any infix that starts and ends with a visible character, has only whitespace around it and is empty exactly for all-whitespace input is the strip, so the contract of `Strip` determines it |
| Names.CompactName | main.py:179-184 | the compact key has no comma, no space and no upper-case letter, and is no longer than the name |
| Names.CompactNameCons | main.py:182-184 | one leading character: a comma or space is dropped, anything else is lower-cased and kept in front of the key of the rest |
| Names.DeleteSeparatorsCounts | main.py:183 | deleting commas and spaces keeps every other character, as often as it occurs |
| Names.CompactNameConcat | main.py:179-184 | the key of a concatenation is the concatenation of the keys |
| Names.CompactNameIgnoresSeparator | main.py:183 | inserting a comma or a space anywhere leaves the key unchanged |
| Names.CompactNameIgnoresCase | main.py:184 | lower-casing the name first leaves the key unchanged |
| Names.CompactNameFixedIff | main.py:179-184 | a string is its own key exactly when it has no comma, space or upper-case letter |
| Names.CompactNameIdempotent | main.py:179-184 | taking the key of a key changes nothing |
| Names.CompactNameOfParts | main.py:181-184 | names made of words joined by commas and spaces ("more than two names") map to the concatenation of the lower-cased words |
| Names.DoeJane | main.py:181 | "Doe, Jane" becomes "doejane" |
| Names.SubmissionKey | main.py:131 | the key is the prefix of the file name before the first underscore (the whole name when there is none) |
| Names.SubmissionKeyUnique | main.py:131 | any underscore-free prefix that stops at an underscore or at the end is the key |
| Names.SubmissionKeyOfName | main.py:131 | a file named `<key>_<rest>` has key `<key>` when `<key>` has no underscore |
| Names.SubmissionKeyKeepsCase | main.py:131 | the key keeps the file name's case: "DoeJane_hw3.pdf" gives "DoeJane", which is not the compact key of "Doe, Jane" |
| Pairing.FirstMatch | main.py:192 | the first index whose key equals the compact name, or none exactly when no record has that key |
| Pairing.RosterEntry | main.py:189-204 | a roster row carries the roster name; it is the placeholder exactly when no record has the name's compact key, and otherwise copies the first such record |
| Pairing.RosterBlock | main.py:189-204 | one row per roster name, in roster order |
| Pairing.AppendOrphans | main.py:206-211 | the second loop appends exactly the reference orphan rows for the keys already present in the table |
| Pairing.PairScores | main.py:187-213 | the table is the roster block followed by the reference orphan rows for the keys the block carries |
| Pairing.OrphansShape | main.py:207-211 | every orphan row copies a record under the name "?" and its key was not already present |
| Pairing.OrphansDistinct | main.py:207-211 | no two orphan rows share a key |
| Pairing.OrphansCover | main.py:207-211 | every record's key is either already present or carried by an orphan row |
| Pairing.OrphansAreFirst | main.py:207-211 | each orphan row copies the first record, in scan order, with its key |
| Pairing.OrphansInScanOrder | main.py:207-211 | the orphan rows copy their records in scan order |
| Pairing.OrphanRowIsUnclaimed | main.py:206-211 | a row after the roster block copies a record under "?" and its key appears in no earlier row and is no roster name's compact key |
| Pairing.EveryKeyAppears | main.py:187-213 | every record's key appears somewhere in the paired table |
| Pairing.NoOrphansIff | main.py:206-211 | the table has no orphan rows exactly when every record's key is carried by a roster row |
| Pairing.AllMatchedNoOrphans | main.py:187-213 | when every record's key is some roster name's compact key, the table is exactly the roster block |
| Pairing.UnclaimedRecordIsListed | main.py:207-211 | the first record with a key that no roster row carries is listed under "?" |
| Pairing.EmptyKeyHiddenByPlaceholder | main.py:196-211 | once a roster name is unmatched, its placeholder's empty key keeps every record with an empty key out of the orphan rows |
| Scanning.EndsWithExtensionIff | main.py:98 | the file name test agrees with the meaning of `re.match(r'.*\.<ext>$')`: a prefix without line breaks, the extension, then the end or one final line break |
| Scanning.ImageAndPdfExclusive | main.py:98-108 | no file name matches both the image pattern and the pdf pattern |
| Scanning.UpperCasePdfIsNotPdf | main.py:108 | the patterns are case-sensitive: "hw.PDF" is not a pdf |
| Scanning.ScorePdf | main.py:107-128 | a pdf is typed "image pdf" exactly when its text layer scored 0, pdf OCR is available and the OCR engine did not refuse; it then carries the OCR'd text's grade, even if that is 0, and otherwise the text layer's grade |
| Scanning.IsImageName | main.py:98 | the image test holds exactly when the image pattern matches the name: a line-break-free prefix, then `.png` or `.jpg`, then the end or one final line break |
| Scanning.IsPdfName | main.py:108 | the pdf test holds exactly when the pdf pattern matches the name: a line-break-free prefix, then `.pdf`, then the end or one final line break |
| Scanning.ScanFile | main.py:91-135 | the record's key is the submission key; its type is unknown exactly when the name is no pdf and not an image that may be OCR'd, and then it scores 0 with nothing missing; an OCR'd image carries the image text's grade; a pdf carries exactly the grade and type of the pdf scoring step; every scanned file accounts for every non-empty question |
| Scanning.ScanAll | main.py:91-135 | one record per directory entry, in listing order, each the record of that file |
| Scanning.Run | main.py:91-161 | the score table is the scan of every file; a paired table exists exactly when a roster was read, and then it is the pairing of the score table with the roster |
| Scanning.OcrOnlyAfterZero | main.py:116-117 | an "image pdf" record comes from a pdf whose text layer scored 0 with pdf OCR available |
| Scanning.ZeroPdfMeansNoOcr | main.py:116-128 | a "pdf" record with score 0 means pdf OCR was unavailable or the OCR engine reported text already present |
| Scanning.NoOcrMeansDirectOnly | main.py:97-113 | with both OCR engines off, pdfs are typed "pdf" and everything else "unknown" |
| Scanning.OcrAfterZero | main.py:116-124 | a zero text-layer score with pdf OCR available and an OCR result is replaced by the OCR'd text's grade, typed "image pdf" |
| Scanning.OcrRescuesEmptyPdf | main.py:107-135 | a pdf with an empty text layer whose OCR'd copy contains the first of two questions only is recorded with one point, the second question missing, type "image pdf" |
| Scanning.DoeJaneSubmission | main.py:108-131 | "doejane_hw1.pdf" is a pdf with submission key "doejane" |

## Left out

- Argument parsing, the zip extraction, the directory listing, reading the
  question and roster files and writing both CSV files (main.py:43-88,
  137-161 apart from the calls into the core) are I/O. `Run` takes the
  listing, the question lines and the roster lines (or `None` when the roster
  file does not exist) as parameters.
- The OCR libraries, Tesseract discovery and the `--disable-ocr` switch
  (main.py:12-40, 62-65) are reduced to the two flags of `Capabilities`; the
  image opening and conversion, `image_to_string`, `extract_text` and
  `ocrmypdf.ocr` are the uninterpreted functions of `Extractors`, keyed by the
  file name instead of a joined path.
- Only the `PriorOcrFoundError` outcome of the pdf OCR engine is modelled;
  any other exception would end the program and is not modelled.
- Run: models only runs in which no extractor raises. The source has no
  per-file error handling: an image that cannot be opened or read
  (main.py:100-102), a pdf whose text layer cannot be extracted (main.py:111)
  or an OCR'd copy that cannot be read (main.py:122) ends the whole run before
  any CSV file is written (main.py:138), whereas the `Extractors` of the model
  are total functions and `Run` always returns a full table. The
  temporary `temp.pdf` file, and the fact that it is removed only when OCR
  succeeds, is file-system state and is left out.
- The `missing_questions` column stores `str(missing)`, Python's list
  rendering; the model keeps the list itself, and the placeholder row's
  "MISSING" text and empty type are the `MissingStudent` constructor.
- Progress printing is left out.
- Names.CompactName: lower-cases only the ASCII letters A-Z, because Python's
  Unicode `str.lower()` (including characters whose lower-case form is longer)
  is outside the model.
- `translate.py` is a separate helper script, not part of the scanning core.

## Notes on the source

- Keys are compared exactly: a file named `DoeJane_hw3.pdf` does not match
  the roster name "Doe, Jane", whose compact key is lower-case
  (`Names.SubmissionKeyKeepsCase`).
- A question that is non-empty but made only of whitespace strips to the
  empty string, which occurs in every text, so it is always counted
  (`Scoring.WhitespaceQuestionCounts`).
- Orphan rows are deduplicated by key: a second file with the same key as an
  earlier orphan is not listed. The placeholder row of an unmatched roster
  name carries the empty key, so files whose name starts with an underscore
  are then never listed (`Pairing.EmptyKeyHiddenByPlaceholder`).
- `img.convert("1")` (main.py:101) discards its result, so the image handed
  to Tesseract is never binarised.
- An OCR result of 0 still replaces the text-layer score and changes the type
  to "image pdf".

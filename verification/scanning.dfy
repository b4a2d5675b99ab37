/**
 Scanning one submission file and the whole directory. The extension of the
 file name selects the extractor: png/jpg images are OCR'd when image OCR is
 available; pdfs have their text layer extracted, and when that scores zero
 and pdf OCR is available, an OCR'd copy of the pdf is scored instead.
 Anything else is recorded with score 0 and type unknown. The extractors and
 the OCR engine are outside the model and enter as functions.
 */
module Scanning {
  import opened Records
  import opened Text
  import opened Scoring
  import opened Names
  import opened Pairing

  /** Which optional OCR engines may be used (both off under --disable-ocr). */
  datatype Capabilities = Capabilities(imageOcr: bool, pdfOcr: bool)

  /** What OCR'ing a pdf produced: the text extracted from the OCR'd copy, or
      the engine's refusal because the pdf already has a text layer. */
  datatype OcrOutcome = OcrDone(text: string) | PriorOcrFound

  /** The external text sources, keyed by file name: OCR of an image, the text
      layer of a pdf, and OCR of a pdf followed by extraction of the copy. */
  datatype Extractors = Extractors(
    imageToString: string -> string,
    extractText: string -> string,
    ocrPdf: string -> OcrOutcome)

  // ---------------------------------------------------------------------------
  // File name patterns
  // ---------------------------------------------------------------------------

  /** Reference meaning of `re.match(r'.*\.<ext>$', name)`: a prefix without
      line breaks, the dot and the extension, then either the end of the name
      or one final line break (`$` also matches just before it). */
  ghost predicate RegexMatches(name: string, ext: string) {
    exists k :: 0 <= k <= |name| && '\n' !in name[..k]
      && (name[k..] == "." + ext || name[k..] == "." + ext + "\n")
  }

  /** Executable form of the same match: drop one final line break, then the
      name must end with the dot and the extension, with no line break before. */
  predicate EndsWithExtension(name: string, ext: string) {
    var body := if |name| > 0 && name[|name| - 1] == '\n' then name[..|name| - 1] else name;
    var suffix := "." + ext;
    |suffix| <= |body| && body[|body| - |suffix|..] == suffix && '\n' !in body[..|body| - |suffix|]
  }

  /** `.*\.(png|jpg)$` */
  function IsImageName(name: string): (b: bool)
    ensures b <==> RegexMatches(name, "png") || RegexMatches(name, "jpg")
  {
    EndsWithExtensionIff(name, "png");
    EndsWithExtensionIff(name, "jpg");
    EndsWithExtension(name, "png") || EndsWithExtension(name, "jpg")
  }

  /** `.*\.pdf$` */
  function IsPdfName(name: string): (b: bool)
    ensures b <==> RegexMatches(name, "pdf")
  {
    EndsWithExtensionIff(name, "pdf");
    EndsWithExtension(name, "pdf")
  }

  /** The executable test agrees with the regular expression's meaning for
      every extension without line breaks. */
  lemma EndsWithExtensionIff(name: string, ext: string)
    requires '\n' !in ext
    ensures EndsWithExtension(name, ext) <==> RegexMatches(name, ext)
  {
    if EndsWithExtension(name, ext) {
      EndsWithExtensionSound(name, ext);
    }
    if RegexMatches(name, ext) {
      var k :| 0 <= k <= |name| && '\n' !in name[..k]
        && (name[k..] == "." + ext || name[k..] == "." + ext + "\n");
      EndsWithExtensionComplete(name, ext, k);
    }
  }

  lemma EndsWithExtensionSound(name: string, ext: string)
    requires EndsWithExtension(name, ext)
    ensures RegexMatches(name, ext)
  {
    var suffix := "." + ext;
    var body := if |name| > 0 && name[|name| - 1] == '\n' then name[..|name| - 1] else name;
    var k := |body| - |suffix|;
    assert name[..k] == body[..k];
    if |name| > 0 && name[|name| - 1] == '\n' {
      assert name[k..] == body[k..] + "\n";
    } else {
      assert name[k..] == body[k..];
    }
  }

  lemma EndsWithExtensionComplete(name: string, ext: string, k: nat)
    requires '\n' !in ext
    requires k <= |name| && '\n' !in name[..k]
    requires name[k..] == "." + ext || name[k..] == "." + ext + "\n"
    ensures EndsWithExtension(name, ext)
  {
    var suffix := "." + ext;
    assert suffix[|suffix| - 1] != '\n' by {
      if |ext| > 0 {
        assert suffix[|suffix| - 1] == ext[|ext| - 1];
      }
    }
    if name[k..] == suffix {
      assert name == name[..k] + suffix;
      assert name[|name| - 1] == suffix[|suffix| - 1];
      assert name[|name| - |suffix|..] == suffix;
    } else {
      assert name == name[..k] + suffix + "\n";
      var body := name[..|name| - 1];
      assert body == name[..k] + suffix;
      assert body[|body| - |suffix|..] == suffix;
      assert body[..|body| - |suffix|] == name[..k];
    }
  }

  /** No name is both an image and a pdf. */
  lemma ImageAndPdfExclusive(name: string)
    ensures !(IsImageName(name) && IsPdfName(name))
  {
    if IsPdfName(name) {
      var body := if |name| > 0 && name[|name| - 1] == '\n' then name[..|name| - 1] else name;
      assert body[|body| - 1] == 'f';
    }
  }

  /** The patterns are case-sensitive: an upper-case extension is not a pdf. */
  lemma UpperCasePdfIsNotPdf()
    ensures !IsPdfName("hw.PDF")
  {
    var name := "hw.PDF";
    assert name[|name| - 1] == 'F';
  }

  // ---------------------------------------------------------------------------
  // Scanning one file
  // ---------------------------------------------------------------------------

  /** The text-layer score of a pdf, and the score that replaces it. A zero
      score with pdf OCR available triggers one OCR pass; its result is final,
      even when it is zero again. When the OCR engine reports that the pdf
      already has text, the direct score stands. */
  function ScorePdf(fileName: string, questions: seq<string>, caps: Capabilities, ex: Extractors)
    : (result: (Grade, DocType))
    ensures result.1 == Pdf || result.1 == ImagePdf
    ensures result.1 == ImagePdf <==>
      caps.pdfOcr && ScoreText(ex.extractText(fileName), questions).score == 0 && ex.ocrPdf(fileName).OcrDone?
    ensures result.1 == ImagePdf ==> result.0 == ScoreText(ex.ocrPdf(fileName).text, questions)
    ensures result.1 == Pdf ==> result.0 == ScoreText(ex.extractText(fileName), questions)
  {
    var direct := ScoreText(ex.extractText(fileName), questions);
    if direct.score == 0 && caps.pdfOcr then
      match ex.ocrPdf(fileName)
      case OcrDone(text) => (ScoreText(text, questions), ImagePdf)
      case PriorOcrFound => (direct, Pdf)
    else (direct, Pdf)
  }

  /** The score record of one file. The image test and the pdf test run one
      after the other, as two independent checks on the name; the record is
      keyed by the part of the name before the first underscore. */
  function ScanFile(fileName: string, questions: seq<string>, caps: Capabilities, ex: Extractors)
    : (rec: ScoreRecord)
    ensures rec.studentName == SubmissionKey(fileName)
    ensures rec.docType == Unknown <==> !IsPdfName(fileName) && !(caps.imageOcr && IsImageName(fileName))
    ensures rec.docType == Image <==> caps.imageOcr && IsImageName(fileName)
    ensures rec.docType == Unknown ==> rec.score == 0 && rec.missingQuestions == []
    ensures rec.docType == Image ==> Grade(rec.score, rec.missingQuestions) == ScoreText(ex.imageToString(fileName), questions)
    ensures IsPdfName(fileName) ==>
      (Grade(rec.score, rec.missingQuestions), rec.docType) == ScorePdf(fileName, questions, caps, ex)
    ensures rec.docType != Unknown ==> rec.score + |rec.missingQuestions| == |NonEmpty(questions)|
  {
    ImageAndPdfExclusive(fileName);
    ScoreCountsNonEmpty(questions);
    var (g1, t1) :=
      if caps.imageOcr && IsImageName(fileName) then
        (ScoreText(ex.imageToString(fileName), questions), Image)
      else (Grade(0, []), Unknown);
    var (g2, t2) :=
      if IsPdfName(fileName) then ScorePdf(fileName, questions, caps, ex)
      else (g1, t1);
    ScoreRecord(SubmissionKey(fileName), g2.score, g2.missing, t2)
  }

  /** The scanning loop: one record per directory entry, in listing order.
      Records are not merged, so two files with the same key give two records. */
  method ScanAll(files: seq<string>, questions: seq<string>, caps: Capabilities, ex: Extractors)
    returns (data: seq<ScoreRecord>)
    ensures |data| == |files|
    ensures forall i :: 0 <= i < |files| ==> data[i] == ScanFile(files[i], questions, caps, ex)
  {
    data := MapInOrder(files, name => ScanFile(name, questions, caps, ex));
  }

  /** Applies `f` to every element, in order, one loop iteration per element. */
  method MapInOrder<A, B>(xs: seq<A>, f: A -> B) returns (ys: seq<B>)
    ensures |ys| == |xs|
    ensures forall i :: 0 <= i < |xs| ==> ys[i] == f(xs[i])
  {
    ys := [];
    var n := 0;
    while n < |xs|
      invariant 0 <= n <= |xs|
      invariant |ys| == n
      invariant forall i :: 0 <= i < n ==> ys[i] == f(xs[i])
    {
      ys := ys + [f(xs[n])];
      n := n + 1;
    }
  }

  /** One run: the score table, and the paired table when a roster was read
      (`None` stands for a roster file that does not exist). */
  method Run(files: seq<string>, questions: seq<string>, roster: Option<seq<string>>,
             caps: Capabilities, ex: Extractors)
    returns (data: seq<ScoreRecord>, paired: Option<seq<PairedRecord>>)
    ensures |data| == |files|
    ensures forall i :: 0 <= i < |files| ==> data[i] == ScanFile(files[i], questions, caps, ex)
    ensures paired.Some? <==> roster.Some?
    ensures roster.Some? ==> paired.value == PairScores(data, roster.value)
  {
    data := ScanAll(files, questions, caps, ex);
    if roster.Some? {
      paired := Some(PairScores(data, roster.value));
    } else {
      paired := None;
    }
  }

  // ---------------------------------------------------------------------------
  // Properties of scanning
  // ---------------------------------------------------------------------------

  /** A pdf is OCR'd only after its text layer scored zero, so an "image pdf"
      record never replaces a non-zero direct score. */
  lemma OcrOnlyAfterZero(fileName: string, questions: seq<string>, caps: Capabilities, ex: Extractors)
    requires ScanFile(fileName, questions, caps, ex).docType == ImagePdf
    ensures IsPdfName(fileName) && caps.pdfOcr
    ensures ScoreText(ex.extractText(fileName), questions).score == 0
  {
  }

  /** A pdf record of type "pdf" with score zero means the OCR pass was not
      available or was refused. */
  lemma ZeroPdfMeansNoOcr(fileName: string, questions: seq<string>, caps: Capabilities, ex: Extractors)
    requires ScanFile(fileName, questions, caps, ex).docType == Pdf
    requires ScanFile(fileName, questions, caps, ex).score == 0
    ensures !caps.pdfOcr || ex.ocrPdf(fileName) == PriorOcrFound
  {
  }

  /** With every OCR engine off, only pdfs are scored, and only from their text
      layer. */
  lemma NoOcrMeansDirectOnly(fileName: string, questions: seq<string>, ex: Extractors)
    ensures var rec := ScanFile(fileName, questions, Capabilities(false, false), ex);
      rec.docType == (if IsPdfName(fileName) then Pdf else Unknown)
  {
  }

  /** A pdf with an empty text layer whose OCR'd copy mentions only the first
      of two questions scores one, is typed "image pdf", and misses the second. */
  lemma OcrRescuesEmptyPdf(fileName: string, text: string, a: string, b: string, ex: Extractors)
    requires IsPdfName(fileName)
    requires ex.extractText(fileName) == ""
    requires ex.ocrPdf(fileName) == OcrDone(text)
    requires !AllWs(a) && !AllWs(b)
    requires IsCompleted(Normalise(text), a) && IsMissing(Normalise(text), b)
    ensures ScanFile(fileName, [a, b], Capabilities(true, true), ex)
         == ScoreRecord(SubmissionKey(fileName), 1, [b], ImagePdf)
  {
    var caps := Capabilities(true, true);
    var qs := [a, b];
    assert forall q | q in qs :: !AllWs(q);
    EmptyTextScoresZero(qs);
    ScoreFoundThenMissing(text, a, b);
    OcrAfterZero(fileName, qs, caps, ex, text);
    var rec := ScanFile(fileName, qs, caps, ex);
    assert (Grade(rec.score, rec.missingQuestions), rec.docType) == (Grade(1, [b]), ImagePdf);
  }

  /** A zero direct score with pdf OCR available is replaced by the score of
      the OCR'd text. */
  lemma OcrAfterZero(fileName: string, questions: seq<string>, caps: Capabilities, ex: Extractors, text: string)
    requires caps.pdfOcr && ScoreText(ex.extractText(fileName), questions).score == 0
    requires ex.ocrPdf(fileName) == OcrDone(text)
    ensures ScorePdf(fileName, questions, caps, ex) == (ScoreText(text, questions), ImagePdf)
  {
  }

  /** The example submission "doejane_hw1.pdf" is a pdf of student "doejane". */
  lemma DoeJaneSubmission()
    ensures IsPdfName("doejane" + "_" + "hw1.pdf")
    ensures SubmissionKey("doejane" + "_" + "hw1.pdf") == "doejane"
  {
    var f := "doejane" + "_" + "hw1.pdf";
    assert f[|f| - 4..] == ".pdf";
    assert '\n' !in f[..|f| - 4];
    SubmissionKeyOfName("doejane", "hw1.pdf");
  }
}

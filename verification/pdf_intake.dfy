/**
 * `PDFIntake` of `pdf_intake.py`: the accept/reject decision of
 * `validate_save_upload` and the output naming of `pdf_to_jpeg`.
 *
 * The upload is its filename, its declared content type and the sequence of
 * chunks `upload.read` returns; the disk is a map from path to contents. The
 * size ceiling is one `maxSize` parameter.
 */
module PdfIntake {
  import opened Wrappers
  import Text
  import Decimal

  type Bytes = seq<bv8>

  /** The 25 MB ceiling of `PDFValidationConfig.max_pdf_size_bytes`. */
  const DefaultMaxSize: int := 25 * 1024 * 1024

  /** `PDFValidationConfig`. */
  datatype IntakeConfig = IntakeConfig(maxSize: int, requirePdfMagic: bool)

  const DefaultConfig := IntakeConfig(DefaultMaxSize, true)

  /** An uploaded file: `filename`, `content_type` and the chunks read from it. */
  datatype Upload = Upload(filename: Option<string>, contentType: Option<string>, chunks: seq<Bytes>)

  /** `job_dir / filename`; the two parts are kept apart. */
  datatype FilePath = FilePath(dir: string, name: string)

  type FileSystem = map<FilePath, Bytes>

  /** The distinct rejections and the HTTP status each is raised with. */
  datatype Rejection = MissingUpload | NotPdfName | BadContentType | TooLarge | NotPdfContent {
    function StatusCode(): int {
      match this
      case MissingUpload => 400
      case NotPdfName => 415
      case BadContentType => 415
      case TooLarge => 413
      case NotPdfContent => 415
    }
  }

  /**
   * A missing upload is the only 400 and an oversized body the only 413;
   * every other rejection is 415.
   */
  lemma StatusCodes(r: Rejection)
    ensures r.StatusCode() == 400 <==> r == MissingUpload
    ensures r.StatusCode() == 413 <==> r == TooLarge
    ensures r.StatusCode() == 415 <==> r in {NotPdfName, BadContentType, NotPdfContent}
  {
  }

  datatype Outcome = Saved(path: FilePath, size: nat) | Rejected(reason: Rejection)

  /** The `%PDF-` signature. */
  const PdfMagic: Bytes := [0x25, 0x50, 0x44, 0x46, 0x2D]

  // ---------------------------------------------------------------------------
  // The checks before anything is written
  // ---------------------------------------------------------------------------

  /** `(upload.filename or "").lower().endswith(".pdf")`. */
  predicate HasPdfName(filename: Option<string>) {
    Text.EndsWith(Text.Lower(filename.GetOr("")), ".pdf")
  }

  /** A declared content type passes when absent, empty, or one of the two PDF types. */
  predicate ContentTypeAllowed(contentType: Option<string>) {
    || contentType.None?
    || contentType.value == ""
    || Text.Lower(contentType.value) in {"application/pdf", "application/x-pdf"}
  }

  // ---------------------------------------------------------------------------
  // The streaming loop
  // ---------------------------------------------------------------------------

  /** The chunks read before end of file, which `read` signals with an empty chunk. */
  function Received(chunks: seq<Bytes>): (r: seq<Bytes>)
    ensures |r| <= |chunks|
    ensures forall k :: 0 <= k < |r| ==> r[k] == chunks[k] && r[k] != []
    ensures |r| < |chunks| ==> chunks[|r|] == []
  {
    if chunks == [] || chunks[0] == [] then []
    else [chunks[0]] + Received(chunks[1..])
  }

  /** The chunks laid end to end. */
  function Concat(chunks: seq<Bytes>): Bytes {
    if chunks == [] then [] else chunks[0] + Concat(chunks[1..])
  }

  lemma {:induction false} ConcatSnoc(chunks: seq<Bytes>, c: Bytes)
    ensures Concat(chunks + [c]) == Concat(chunks) + c
  {
    if chunks == [] {
      assert [] + [c] == [c];
    } else {
      ConcatSnoc(chunks[1..], c);
      assert (chunks + [c])[1..] == chunks[1..] + [c];
    }
  }

  lemma {:induction false} ConcatPrefixLength(chunks: seq<Bytes>, m: nat)
    requires m <= |chunks|
    ensures |Concat(chunks[..m])| <= |Concat(chunks)|
    decreases |chunks| - m
  {
    if m < |chunks| {
      ConcatPrefixLength(chunks, m + 1);
      assert chunks[..m + 1] == chunks[..m] + [chunks[m]];
      ConcatSnoc(chunks[..m], chunks[m]);
    } else {
      assert chunks[..m] == chunks;
    }
  }

  /** The first 16 bytes of the first chunk (`first_chunk`), or nothing. */
  function Head(received: seq<Bytes>): Bytes {
    if received == [] then []
    else if |received[0]| <= 16 then received[0]
    else received[0][..16]
  }

  /** The stream exceeds the ceiling: `total > max` after some chunk. */
  predicate Overflows(received: seq<Bytes>, maxSize: int) {
    received != [] && |Concat(received)| > maxSize
  }

  /**
   * Under the default configuration the signature is checked and a body is
   * too large exactly when it holds more than 25 MiB (26214400 bytes).
   */
  lemma DefaultCeiling(received: seq<Bytes>)
    ensures DefaultConfig.requirePdfMagic
    ensures Overflows(received, DefaultConfig.maxSize) <==> |Concat(received)| > 26214400
  {
    if received == [] {
      assert Concat(received) == [];
    }
  }

  datatype StreamResult =
    | Overflow(written: Bytes)                         // aborted with 413
    | Complete(written: Bytes, total: nat, head: Bytes)  // end of file reached

  /**
   * The `while True` loop: reads chunks until end of file, records the head
   * of the first, and aborts before writing the chunk that first takes the
   * running total above `maxSize`. It aborts exactly when the whole stream is
   * over the ceiling; what was written before is the received chunks ahead of
   * the crossing one. Otherwise everything received is written and `total`
   * is its length.
   */
  method StreamUpload(chunks: seq<Bytes>, maxSize: int) returns (res: StreamResult)
    ensures res.Overflow? <==> Overflows(Received(chunks), maxSize)
    ensures res.Overflow? ==>
              exists m :: 0 <= m < |Received(chunks)|
                          && res.written == Concat(Received(chunks)[..m])
                          && |Concat(Received(chunks)[..m + 1])| > maxSize
                          && (m > 0 ==> |res.written| <= maxSize)
    ensures res.Complete? ==>
              && res.written == Concat(Received(chunks))
              && res.total == |res.written|
              && res.head == Head(Received(chunks))
  {
    var total := 0;
    var written: Bytes := [];
    var head: Bytes := [];
    var i := 0;
    while i < |chunks| && chunks[i] != []
      invariant i <= |chunks|
      invariant forall k :: 0 <= k < i ==> chunks[k] != []
      invariant written == Concat(chunks[..i]) && total == |written|
      invariant i > 0 ==> 0 < total <= maxSize
      invariant i == 0 ==> total == 0
      invariant head == Head(chunks[..i])
    {
      var chunk := chunks[i];
      if total == 0 {
        head := if |chunk| <= 16 then chunk else chunk[..16];
      }
      assert chunks[..i + 1] == chunks[..i] + [chunk];
      ConcatSnoc(chunks[..i], chunk);
      total := total + |chunk|;
      if total > maxSize {
        OverflowAt(chunks, i, maxSize);
        return Overflow(written);
      }
      written := written + chunk;
      i := i + 1;
    }
    EndOfStream(chunks, i, maxSize);
    return Complete(written, total, head);
  }

  /** Every chunk before `i` is non-empty, so all of them are received. */
  lemma ReceivedPrefix(chunks: seq<Bytes>, i: nat)
    requires i <= |chunks|
    requires forall k :: 0 <= k < i ==> chunks[k] != []
    ensures i <= |Received(chunks)|
    ensures Received(chunks)[..i] == chunks[..i]
  {
    var r := Received(chunks);
    if |r| < |chunks| {
      assert chunks[|r|] == [];
    }
  }

  /** Nothing is received from the first empty chunk on. */
  lemma {:induction false} ReceivedStopsAt(chunks: seq<Bytes>, i: nat)
    requires i <= |chunks|
    requires i == |chunks| || chunks[i] == []
    ensures |Received(chunks)| <= i
  {
    if chunks != [] && chunks[0] != [] {
      ReceivedStopsAt(chunks[1..], i - 1);
    }
  }

  /** The loop stopped at `i`: everything received lies before `i`. */
  lemma EndOfStream(chunks: seq<Bytes>, i: nat, maxSize: int)
    requires i <= |chunks|
    requires forall k :: 0 <= k < i ==> chunks[k] != []
    requires i == |chunks| || chunks[i] == []
    requires i > 0 ==> |Concat(chunks[..i])| <= maxSize
    ensures Received(chunks) == chunks[..i]
    ensures !Overflows(Received(chunks), maxSize)
  {
    ReceivedPrefix(chunks, i);
    ReceivedStopsAt(chunks, i);
    var r := Received(chunks);
    assert r == r[..i];
  }

  /** The chunk at `i` is the one that takes the total over `maxSize`. */
  lemma OverflowAt(chunks: seq<Bytes>, i: nat, maxSize: int)
    requires i < |chunks|
    requires forall k :: 0 <= k <= i ==> chunks[k] != []
    requires |Concat(chunks[..i + 1])| > maxSize
    requires i > 0 ==> |Concat(chunks[..i])| <= maxSize
    ensures Overflows(Received(chunks), maxSize)
    ensures i < |Received(chunks)|
    ensures Received(chunks)[..i] == chunks[..i]
    ensures Received(chunks)[..i + 1] == chunks[..i + 1]
  {
    ReceivedPrefix(chunks, i + 1);
    var r := Received(chunks);
    assert r[..i] == r[..i + 1][..i];
    ConcatPrefixLength(r, i + 1);
  }

  // ---------------------------------------------------------------------------
  // validate_save_upload
  // ---------------------------------------------------------------------------

  /**
   * `validate_save_upload`. The checks run in order: a missing upload (400);
   * a filename not ending in `.pdf` (415); a declared content type outside the
   * PDF types (415); these three touch no file. Then the stream is written to
   * `jobDir/filename`: going over `maxSize` (413) or, when required, a first
   * chunk without the `%PDF-` signature (415) removes the file. Otherwise the
   * file holds exactly the bytes received and the outcome reports its size.
   */
  method ValidateSaveUpload(upload: Option<Upload>, jobDir: string, filename: string,
                            cfg: IntakeConfig, fs: FileSystem)
    returns (fs': FileSystem, outcome: Outcome)
    ensures upload.None? ==> outcome == Rejected(MissingUpload) && fs' == fs
    ensures upload.Some? && !HasPdfName(upload.value.filename) ==>
              outcome == Rejected(NotPdfName) && fs' == fs
    ensures upload.Some? && HasPdfName(upload.value.filename)
            && !ContentTypeAllowed(upload.value.contentType) ==>
              outcome == Rejected(BadContentType) && fs' == fs
    ensures upload.Some? && HasPdfName(upload.value.filename)
            && ContentTypeAllowed(upload.value.contentType) ==>
              var received := Received(upload.value.chunks);
              var path := FilePath(jobDir, filename);
              && (Overflows(received, cfg.maxSize) ==>
                    outcome == Rejected(TooLarge) && fs' == fs - {path})
              && (!Overflows(received, cfg.maxSize) && cfg.requirePdfMagic
                  && !Text.StartsWith(Head(received), PdfMagic) ==>
                    outcome == Rejected(NotPdfContent) && fs' == fs - {path})
              && (!Overflows(received, cfg.maxSize)
                  && (!cfg.requirePdfMagic || Text.StartsWith(Head(received), PdfMagic)) ==>
                    && outcome == Saved(path, |Concat(received)|)
                    && fs' == fs[path := Concat(received)])
  {
    if upload.None? {
      return fs, Rejected(MissingUpload);
    }
    var up := upload.value;
    var origName := up.filename.GetOr("");
    if !Text.EndsWith(Text.Lower(origName), ".pdf") {
      return fs, Rejected(NotPdfName);
    }
    if up.contentType.Some? && up.contentType.value != ""
       && Text.Lower(up.contentType.value) !in {"application/pdf", "application/x-pdf"} {
      return fs, Rejected(BadContentType);
    }
    var path := FilePath(jobDir, filename);
    var stream := StreamUpload(up.chunks, cfg.maxSize);
    if stream.Overflow? {
      return fs - {path}, Rejected(TooLarge);
    }
    if cfg.requirePdfMagic && !Text.StartsWith(stream.head, PdfMagic) {
      return fs - {path}, Rejected(NotPdfContent);
    }
    return fs[path := stream.written], Saved(path, stream.total);
  }

  /**
   * The signature check reads only the first chunk: when that chunk holds at
   * least five bytes, it passes exactly when the received file starts with
   * `%PDF-`. An empty stream never passes.
   */
  lemma HeadSignature(received: seq<Bytes>)
    requires received == [] || |received[0]| >= |PdfMagic|
    ensures Text.StartsWith(Head(received), PdfMagic) <==>
            received != [] && Text.StartsWith(Concat(received), PdfMagic)
  {
    if received != [] {
      var c := received[0];
      assert Concat(received) == c + Concat(received[1..]);
      assert Concat(received)[..5] == c[..5];
      assert Head(received)[..5] == c[..5];
    }
  }

  /** An empty stream is rejected as not a PDF when the signature is required. */
  lemma EmptyStreamRejected(chunks: seq<Bytes>, cfg: IntakeConfig)
    requires chunks == [] || chunks[0] == []
    requires cfg.requirePdfMagic
    ensures !Overflows(Received(chunks), cfg.maxSize)
    ensures !Text.StartsWith(Head(Received(chunks)), PdfMagic)
  {
  }

  /** An upload is read to the end when none of its chunks is empty. */
  lemma {:induction false} ReceivedAll(chunks: seq<Bytes>)
    requires forall k :: 0 <= k < |chunks| ==> chunks[k] != []
    ensures Received(chunks) == chunks
  {
    if chunks != [] {
      ReceivedAll(chunks[1..]);
    }
  }

  // ---------------------------------------------------------------------------
  // pdf_to_jpeg naming
  // ---------------------------------------------------------------------------

  /** The file extension: `jpg` for `jpg` or `jpeg` in any case, else the lower-cased format. */
  function ImageExtension(fmt: string): (ext: string)
    ensures ext == "jpg" <==> Text.Lower(fmt) in {"jpg", "jpeg"}
    ensures Text.Lower(fmt) !in {"jpg", "jpeg"} ==> ext == Text.Lower(fmt)
  {
    var f := Text.Lower(fmt);
    if f == "jpg" || f == "jpeg" then "jpg" else f
  }

  /** `f"page_{i}.{ext}"`. */
  function PageFileName(i: nat, ext: string): string {
    "page_" + Decimal.NatToString(i) + "." + ext
  }

  /** Different page numbers give different file names. */
  lemma PageFileNameInjective(i: nat, j: nat, ext: string)
    requires PageFileName(i, ext) == PageFileName(j, ext)
    ensures i == j
  {
    var a, b := Decimal.NatToString(i), Decimal.NatToString(j);
    var n := PageFileName(i, ext);
    assert |a| == |b|;
    assert a == n[5..5 + |a|];
    assert b == n[5..5 + |b|];
    Decimal.NatToStringInjective(i, j);
  }

  /** Why `pdf_to_jpeg` raised before converting. */
  datatype ConvertError = NoPdf | PdfNotFound(path: FilePath)

  /**
   * `pdf_to_jpeg` given the number of pages the rasteriser produced: the
   * output paths `outDir/page_1.ext` .. `outDir/page_n.ext` in page order,
   * all distinct. A missing path or a PDF not on disk raises first.
   */
  function PdfToJpeg(pdf: Option<FilePath>, fs: FileSystem, outDir: string, fmt: string, pageCount: nat)
    : (r: Result<seq<FilePath>, ConvertError>)
    ensures pdf.None? ==> r == Failure(NoPdf)
    ensures pdf.Some? && pdf.value !in fs ==> r == Failure(PdfNotFound(pdf.value))
    ensures pdf.Some? && pdf.value in fs ==>
              && r.Success? && |r.value| == pageCount
              && (forall i :: 0 <= i < pageCount ==>
                    r.value[i] == FilePath(outDir, PageFileName(i + 1, ImageExtension(fmt))))
              && (forall i, j :: 0 <= i < j < pageCount ==> r.value[i] != r.value[j])
  {
    if pdf.None? then Failure(NoPdf)
    else if pdf.value !in fs then Failure(PdfNotFound(pdf.value))
    else
      var ext := ImageExtension(fmt);
      var paths := seq(pageCount, i requires 0 <= i < pageCount => FilePath(outDir, PageFileName(i + 1, ext)));
      assert forall i, j :: 0 <= i < j < pageCount ==> paths[i] != paths[j] by {
        forall i, j | 0 <= i < j < pageCount
          ensures paths[i] != paths[j]
        {
          if paths[i] == paths[j] {
            PageFileNameInjective(i + 1, j + 1, ext);
          }
        }
      }
      Success(paths)
  }
}

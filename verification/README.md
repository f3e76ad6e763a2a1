# Document OCR backend — verified model of the core

This project models in Dafny the pure logic of a document-OCR backend. The backend turns an uploaded PDF into page images, reads text blocks off each page with an OCR engine, tags math-like blocks and tracks every request as a job record. Four pieces are modelled:

- **OCR block post-processing** (`document_ocr.py`). This covers:
  - the corner-to-rectangle conversion with its zero-box fallback;
  - normalising raw `(bbox, text, conf)` detections into blocks;
  - the confidence and empty-text filter;
  - the line-bucketed, stable reading-order sort;
  - the per-page aggregation of `ocr_pages`.

  Modules `OcrBlocks`, `ReadingOrder` and `DocumentOcr`.
- **The math classifier** (`omml_pass.py`). It counts four signals over a text: an operator character, a math word, an equation-like pattern and symbol density. It then tags every block of an OCR result with the verdict. Module `MathPass`.
- **The job store** (`job_store_util.py`, `job_status_enums.py`). It covers creating a job, reading one, and the sparse update, in which:
  - scalars are overwritten only when given;
  - `input` and `output` are merged key by key;
  - `updatedAt` is always refreshed.

  The collection is a `map<string, Job>`. Modules `JobStatusEnums` and `JobStore`.
- **Upload intake** (`pdf_intake.py`). This is the ordered accept/reject decision of `validate_save_upload` over a stream of byte chunks. It includes what ends up on disk and the `page_{i}.{ext}` naming of `pdf_to_jpeg`. Module `PdfIntake`.

Supporting modules:
- `Wrappers` provides `Option` and `Result`.
- `Text` provides Python's `str.isspace`, `strip`, ASCII `lower`, and prefix and suffix tests.
- `Decimal` provides decimal rendering of page numbers, with its parse round trip.

Coordinates, heights and confidences are `real`s. Clocks (`utcnow`) are an integer parameter `now` in seconds. The OCR engine's output is a parameter: each page image comes with the detections `readtext` returned for it. The rasteriser's page count is a parameter. The upload is the sequence of chunks `upload.read` returns. The disk is a map from path to bytes.

Where the model departs from the code:
- `pdf_intake.py` cannot run its size check as written, for two reasons. `PDFValidationConfig.__post_init__` calls `isinstance` with one argument (line 19), so building the config always raises. The streaming loop reads `self.cfg.max_size_bytes` (lines 63 and 70) and the signature check reads `self.cfg.require_pdf_magic` (line 78), but the class stores `self._cfg`, and the size field is named `max_pdf_size_bytes`.
- The model follows the evident intent instead. `IntakeConfig` has one `maxSize` ceiling, which defaults to 25 MiB (line 15), and one `requirePdfMagic` flag.
- For a page with a single block, the median height is that block's own height (`document_ocr.py:132-133`). The code never reaches the `10.0` fallback of line 133: an empty page returns at lines 129-130, and every normalised block has a height. `MedianHeight([]) == 10.0` is a value only the model computes; the reading-order sort never uses it, since it returns an empty page unchanged.

## Model

| member | source | states |
|---|---|---|
| OcrBlocks.BboxToRect | src/app/utilities/document_ocr.py:142-154 | the rectangle's bounds are ordered (`xMin <= xMax`, `yMin <= yMax`); for a readable box (at least one corner, each with an x and a y) each bound is the minimum or maximum of the corner coordinates and is attained by some corner; an unreadable box gives `(0,0,0,0)` instead of an error |
| OcrBlocks.MakeBlock | src/app/utilities/document_ocr.py:100-114 | a normalised block keeps its confidence and raw box; its bounds are those of the box; `cx`/`cy` are the midpoints and `w`/`h` are non-negative extents; its text is the raw text with surrounding whitespace stripped (`Text.Strip`), so it is empty exactly when the raw text is all whitespace |
| OcrBlocks.Normalize | src/app/utilities/document_ocr.py:83-117 | the output has exactly one block per accepted detection (a well-formed entry whose text is truthy), each well formed and built from that detection, so it is never longer than the input |
| OcrBlocks.NormalizeConcat | src/app/utilities/document_ocr.py:91-115 | normalisation goes item by item in input order: normalising two runs of detections in turn is normalising their concatenation |
| OcrBlocks.FilterBlocks | src/app/utilities/document_ocr.py:119-121 | every kept block has confidence `>= minConf` and non-empty text; a block occurs in the output exactly as often as in the input when it passes and not at all otherwise; the output is a subsequence of the input (relative order kept) |
| OcrBlocks.FilterKeepsPassing | src/app/utilities/document_ocr.py:119-121 | a sequence whose blocks all pass the filter is returned unchanged |
| OcrBlocks.FilterIdempotent | src/app/utilities/document_ocr.py:119-121 | filtering twice is filtering once |
| Text.Strip | src/app/utilities/document_ocr.py:103 | `str.strip()`: the result is a contiguous slice of the input with only whitespace cut off either side; it neither starts nor ends with whitespace; it is empty exactly when the input is all whitespace |
| Text.StripIdempotent | src/app/utilities/document_ocr.py:103 | stripping a stripped text changes nothing |
| ReadingOrder.SortReals | src/app/utilities/document_ocr.py:132 | `sorted(heights)`: ascending and a permutation of the heights |
| ReadingOrder.SortedUnique | src/app/utilities/document_ocr.py:132-133 | two ascending permutations of the same heights are equal, so the median depends only on the multiset of heights |
| ReadingOrder.SortedArrangements | src/app/utilities/document_ocr.py:132 | any ascending arrangement of a multiset of heights is the one `sorted` produces |
| ReadingOrder.MedianHeight | src/app/utilities/document_ocr.py:132-133 | for a non-empty page the median is one of the blocks' heights; no blocks gives `10.0` |
| ReadingOrder.MedianRank | src/app/utilities/document_ocr.py:132-133 | for a non-empty page the median is the element at index `len // 2` of every ascending arrangement of the heights |
| ReadingOrder.YTolerance | src/app/utilities/document_ocr.py:134 | the tolerance is at least `8` and at least `0.6 * median`, and equals one of the two |
| ReadingOrder.YTolerancePermutation | src/app/utilities/document_ocr.py:132-134 | block sequences with the same multiset of heights get the same tolerance |
| ReadingOrder.SortBy | src/app/utilities/document_ocr.py:140 | `sorted(..., key=...)`: output non-decreasing by the key and a permutation of the input |
| ReadingOrder.SortByStable | src/app/utilities/document_ocr.py:140 | the sort is stable: for every key, the elements with that key come in their input order |
| ReadingOrder.SortBySorted | src/app/utilities/document_ocr.py:140 | sorting a sequence already sorted by the key returns it unchanged |
| ReadingOrder.HeightsSortBy | src/app/utilities/document_ocr.py:132-140 | sorting keeps the multiset of block heights |
| ReadingOrder.SortReadingOrder | src/app/utilities/document_ocr.py:123-140 | `_sort_reading_order`: an empty input is returned as is; the output is a permutation of the input, non-decreasing by `(floor(cy / y_tol), cx)`, and stable for that key |
| ReadingOrder.SortReadingOrderTolerance | src/app/utilities/document_ocr.py:132-134 | the sorted output has the same tolerance as the input it was sorted with |
| ReadingOrder.SortReadingOrderIdempotent | src/app/utilities/document_ocr.py:129-140 | sorting an already sorted page returns it unchanged |
| ReadingOrder.ReadingOrderLines | src/app/utilities/document_ocr.py:136-140 | in the output, line buckets never decrease, the blocks of one bucket are contiguous, and within a bucket they run left to right by `cx` |
| DocumentOcr.OcrImage | src/app/utilities/document_ocr.py:53-56 | `ocr_image` after `readtext` returns no more blocks than there were detections |
| DocumentOcr.OcrImageOutput | src/app/utilities/document_ocr.py:53-56 | every returned block is well formed, has non-empty text (even from whitespace-only raw text) and confidence `>= minConf`; the blocks are exactly those the filter keeps; they are in reading order under their own tolerance, and blocks of the same line key keep their filtered order |
| DocumentOcr.SubsequenceLength | src/app/utilities/document_ocr.py:121 | a subsequence is never longer than its sequence |
| DocumentOcr.BlockCountSnoc | src/app/utilities/document_ocr.py:68 | the running block total grows by the new page's block count |
| DocumentOcr.OcrPages | src/app/utilities/document_ocr.py:58-81 | `ocr_pages`: one page per image in input order, numbered from 1, carrying its image path and `ocr_image`'s blocks; `page_count` is the number of images and `total_blocks` the sum of per-page block counts |
| MathPass.SymbolCount | src/app/utilities/omml_pass.py:62 | the symbol count is at most the text's length, and zero exactly when no character is a symbol (neither alphanumeric nor whitespace) |
| MathPass.SymbolCountConcat | src/app/utilities/omml_pass.py:62 | the count of a concatenation is the sum of the counts of its parts, so the count adds one per symbol character |
| MathPass.SymbolCountChar | src/app/utilities/omml_pass.py:62 | a single character counts one exactly when it is neither alphanumeric nor whitespace |
| MathPass.DenseExample | src/app/utilities/omml_pass.py:62-64 | two `+` followed by ten lower-case letters count exactly two symbols, and 2 of 12 is above the 15% density |
| MathPass.DensityAsQuotient | src/app/utilities/omml_pass.py:62-64 | the integer density test `100 * sym > 15 * len` holds exactly when the text is non-empty and `sym / len > 0.15` |
| MathPass.Signals | src/app/utilities/omml_pass.py:53-66 | between 0 and 4 signals fire, and zero exactly when none of the four tests (operator character, math word, equation-like pattern, density) succeeds |
| MathPass.EmptyTextNotMath | src/app/utilities/omml_pass.py:53-66 | the empty text fires no signal and is not math under the default threshold of 1 |
| MathPass.MathCharIsMath | src/app/utilities/omml_pass.py:55-56 | a text containing any character of the operator/symbol class is math under the default threshold |
| MathPass.EquationScoresTwo | src/app/utilities/omml_pass.py:55-60 | an equation-like match contains `=`, so the operator signal fires too and the text scores at least two |
| MathPass.EquationExampleIsMath | src/app/utilities/omml_pass.py:15 | `x = 2y + 3` matches the equation-like pattern, scores at least two and is math |
| MathPass.LettersAndSpacesNoSymbols | src/app/utilities/omml_pass.py:55-64 | a text made only of ASCII letters and spaces has no operator character, no equation-like match and no symbol density |
| MathPass.MathWordStart | src/app/utilities/omml_pass.py:14 | a math word can only start at a word boundary, on one of the letter pairs `si`, `co`, `ta`, `lo`, `ln`, `li`, `dx`, `dy`, `dz` (in either case) |
| MathPass.NoMathWord | src/app/utilities/omml_pass.py:14 | a text with no such pair at any word start contains no math word |
| MathPass.ProseExampleNotMath | src/app/utilities/omml_pass.py:53-66 | `The quick brown fox` fires no signal at all and is not math under the default threshold |
| MathPass.ClassifiedText | src/app/utilities/omml_pass.py:43 | a missing or `None` text is classified as `""`; a present text as itself |
| MathPass.MissingTextNotMath | src/app/utilities/omml_pass.py:43-44 | a block without text is never math when at least one signal is required |
| MathPass.TagBlock | src/app/utilities/omml_pass.py:42-45 | the tagged block equals the input block except for `is_math`, which holds the classifier's verdict on its text |
| MathPass.TagPage | src/app/utilities/omml_pass.py:38-48 | a page keeps its index, path and block count, and each block is tagged in place |
| MathPass.TagBlocks | src/app/utilities/omml_pass.py:32-51 | `tag_blocks` keeps `page_count`, `total_blocks`, the number and order of pages, each page's index and path, and each page's number and order of blocks; every block equals its input apart from the added verdict |
| MathPass.TagBlocksIdempotent | src/app/utilities/omml_pass.py:32-51 | tagging an already tagged result gives the same result |
| JobStatusEnums.ParseStatus | src/app/main_workflow/job_status_enums.py:8-14 | a stored status string is read back only as the status whose value it is |
| JobStatusEnums.StatusRoundTrip | src/app/main_workflow/job_status_enums.py:8-14 | every status reads back from its stored value |
| JobStatusEnums.ParseStep | src/app/main_workflow/job_status_enums.py:17-22 | a stored step string is read back only as the step whose value it is |
| JobStatusEnums.StepRoundTrip | src/app/main_workflow/job_status_enums.py:17-22 | every step reads back from its stored value |
| JobStore.CreateJob | src/app/utilities/mongodb_utils/job_store_util.py:26-42 | a new id gets a job at CREATED / VALIDATE / progress 0 with empty error, input and output, the given settings or `{}`, created and updated at `now`, expiring `ttlHours` hours later, inserted under its id with nothing else changed; an existing id is a duplicate-key failure that changes nothing |
| JobStore.GetJob | src/app/utilities/mongodb_utils/job_store_util.py:44-45 | a job is found exactly when its id is in the collection, it is the stored one, and in a collection keyed by `_id` its `_id` is the one asked for |
| JobStore.CreateJobValid | src/app/utilities/mongodb_utils/job_store_util.py:26-42 | creating a job keeps every job stored under its own `_id` |
| JobStore.UpdateJobValid | src/app/utilities/mongodb_utils/job_store_util.py:47-87 | updating a job keeps every job stored under its own `_id` |
| JobStore.CreateDefaultExpiry | src/app/utilities/mongodb_utils/job_store_util.py:20-35 | with the default TTL of 24 hours a new job expires 86400 seconds after it is created |
| JobStore.MergeDoc | src/app/utilities/mongodb_utils/job_store_util.py:73-81 | the `input.<k>` / `output.<k>` merge: the merged keys are the old keys plus the update's; keys in the update take the new value; every other key keeps its old value |
| JobStore.UpdateJob | src/app/utilities/mongodb_utils/job_store_util.py:47-87 | `update_job`: each of status, step, progress and error is overwritten only when given (error as a whole map); input and output are merged key by key; `updatedAt` becomes `now`; id, creation time, expiry and settings never change; no other job changes; an absent id changes nothing and fails with not-found |
| JobStore.CreateThenGet | src/app/utilities/mongodb_utils/job_store_util.py:41-45 | a created job reads back as returned |
| JobStore.UpdateThenGet | src/app/utilities/mongodb_utils/job_store_util.py:83-87 | an updated job reads back as returned |
| JobStore.EmptyUpdateTouches | src/app/utilities/mongodb_utils/job_store_util.py:58-71 | an update with no arguments still refreshes `updatedAt` and changes nothing else |
| JobStore.ProgressOnlyUpdate | src/app/utilities/mongodb_utils/job_store_util.py:65-81 | updating only the progress sets it and leaves input and output as they were |
| JobStore.MergeIdempotent | src/app/utilities/mongodb_utils/job_store_util.py:73-81 | merging the same update twice is merging it once |
| JobStore.UpdateIdempotent | src/app/utilities/mongodb_utils/job_store_util.py:58-83 | repeating an update at the same time leaves the collection as after the first |
| PdfIntake.Received | src/app/utilities/pdf_intake.py:54-57 | the chunks read are the non-empty prefix of the stream up to the first empty chunk (end of file) |
| PdfIntake.StreamUpload | src/app/utilities/pdf_intake.py:46-73 | the loop aborts exactly when the total received exceeds `maxSize`, without writing the crossing chunk (what was written is the chunks before it, within the ceiling); a stream of exactly `maxSize` bytes passes; otherwise the file holds the concatenation of the chunks, `total` is its length and the head is the first chunk's first 16 bytes |
| PdfIntake.ValidateSaveUpload | src/app/utilities/pdf_intake.py:30-86 | the checks run in order (missing upload 400, filename not ending `.pdf` in any case 415, a non-empty content type outside the two PDF types 415, size 413, `%PDF-` signature 415); the first three write nothing; a size or signature rejection removes the file; acceptance stores exactly the received bytes at `jobDir/filename` and reports their count |
| PdfIntake.StatusCodes | src/app/utilities/pdf_intake.py:33-83 | a missing upload is the only 400 and an oversized body the only 413; a bad name, a bad content type and a missing signature are 415 |
| PdfIntake.HeadSignature | src/app/utilities/pdf_intake.py:59-60 | when the first chunk holds at least five bytes, checking its 16-byte head for `%PDF-` is checking the whole file; an empty stream never passes |
| PdfIntake.EmptyStreamRejected | src/app/utilities/pdf_intake.py:78-83 | an empty stream is not over the size limit and fails the signature check |
| PdfIntake.ReceivedAll | src/app/utilities/pdf_intake.py:54-57 | a stream with no empty chunk is read in full |
| PdfIntake.DefaultCeiling | src/app/utilities/pdf_intake.py:15-16 | the default configuration checks the signature, and rejects a body as too large exactly when it holds more than 26214400 bytes |
| PdfIntake.ImageExtension | src/app/utilities/pdf_intake.py:110 | the extension is `jpg` exactly when the format lower-cases to `jpg` or `jpeg`, and the lower-cased format otherwise |
| PdfIntake.PageFileNameInjective | src/app/utilities/pdf_intake.py:113 | different page numbers give different `page_{i}.{ext}` names |
| PdfIntake.PdfToJpeg | src/app/utilities/pdf_intake.py:88-118 | a missing path or a PDF not on disk is an error; otherwise one output path `outDir/page_{i}.{ext}` per page, numbered from 1 in page order, all distinct |
| Decimal.NatToString | src/app/utilities/pdf_intake.py:113 | a page number renders as a non-empty string of digits without a leading zero (except `0` itself) |
| Decimal.ParseNatToString | src/app/utilities/pdf_intake.py:113 | parsing the rendered page number gives the number back |
| Decimal.NatToStringInjective | src/app/utilities/pdf_intake.py:113 | different numbers render differently |

## Left out

- The EasyOCR reader construction, `readtext` and the `Path.exists` checks of `ocr_image` (`document_ocr.py:30-51`) are calls into a library; each page image comes with its detections instead.
- The `pdf2image` rasteriser and `page.save` (`pdf_intake.py:107`, `:114`) are external. The page count is a parameter, and only the naming rule is modelled.
- Async `UploadFile` seek/read/close, `mkdir`, file writes and `unlink` are I/O. A failing `unlink` is swallowed in the code, and the model treats removal as always succeeding.
- The broken configuration (`pdf_intake.py:19`, `:26`, `:63`, `:70`, `:78`) is replaced by a single `maxSize` parameter, as described above. The crash itself is not modelled.
- `utcnow` is the parameter `now`. Dates are seconds, so a TTL of `h` hours is `h * 3600` seconds.
- JobStore.CreateThenGet: holds because the model's clock is whole seconds. The store keeps datetimes to the millisecond and the client is not timezone-aware, so `get_job` returns naive, truncated `createdAt`, `updatedAt` and `expiresAt` values that differ from the aware ones `create_job` returned. The model does not represent that conversion.
- Values inside `settings`, `input`, `output` and `error` are a JSON-like `Value` (null, booleans, integers, exact reals, strings, lists and nested documents). The store treats them as opaque, so no property depends on their shape.
- Mongo plumbing is left out: the client, `ensure_indexes`, the TTL sweep, and the atomicity and concurrency of `update_one`. Dots inside `input_update` / `output_update` keys are treated as opaque key characters rather than nested paths. A duplicate `_id` on insert becomes an explicit failure, which stands for the driver's error.
- No (status, step) transition relation is modelled, because the code enforces none. The enums are only the stored values.
- Job invariants that the code does not enforce are not stated: progress staying within 0-100 and never decreasing, terminal statuses being written once, and status/step pairs being consistent. `update_job` stores whatever it is given, and the model proves only that.
- IEEE floating point is left out: coordinates, heights and confidences are exact reals, so NaN and rounding are not modelled. The density threshold `0.15` is compared as the exact rational `15/100`.
- Text.IsAlnum: approximates Python's Unicode `isalnum` by ASCII letters and digits, Latin-1 letters and the basic Greek letters. `\w` is that class plus `_`, and the math-word boundaries use the same class. The full Unicode tables are not modelled.
- Text.Lower: lower-cases ASCII letters only, so `re.IGNORECASE` and `str.lower` are modelled for ASCII only. Python's case-insensitive matching also pairs `ſ` (U+017F) with `s` and `ı` (U+0131) and `İ` (U+0130) with `i`, so texts such as `ſin x` or `lım` fire the math-word signal in the code (`omml_pass.py:14`, `:57`) but not in the model. Likewise `fmt.lower()` (`pdf_intake.py:110`) lowers non-ASCII letters of the format, which the model leaves as they are.
- OcrBlocks.Normalize: a detection is a typed record rather than an arbitrary Python object. An item that is not a sequence of at least three entries is `Malformed`, and a bounding box whose corners cannot be indexed is `Unreadable`. `float(conf)` and `str(text)` conversions of non-numeric or non-string values are not modelled.
- MathPass.TagBlock: blocks are typed, so every block produced by `ocr_pages` has a string text. The `None` and missing-text fallback is stated separately by `MathPass.ClassifiedText`.
- `docx_tool.py`, `app_logger.py`, `main.py`, `mongo_client.py`, `workflow_arguments.py` and `models.py` are outside the modelled core. They are a document writer, logging, HTTP routes, client setup and field-only records.

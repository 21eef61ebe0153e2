# PDF-to-text OCR converter, modelled in Dafny

This project models the page pipeline of `PDFToTextConverter`, the class that turns a
PDF into plain text. `process_pdf` first rasterizes the PDF into page images.
`extract_text_from_images` then runs OCR on each image in page order and joins the
texts of the pages that were recognized, with a double line break (`"\n\n"`) between
them. If an output path is given, `save_text` writes the resulting text there. Each
stage handles a failure of its foreign call where it happens:

- a failed rasterization becomes an empty page list, and the pipeline then stops and returns `""`;
- a page whose OCR raises is skipped, with no placeholder, and the later pages are still processed;
- a failed write is swallowed, and the text is returned anyway.

The foreign capabilities are modelled as oracles, declared in `outcomes.dfy`:

- `pdf2image.convert_from_path` becomes a `Rasterizer`, which maps a path to
  `Rasterized(pages) | RasterFailed(reason)`.
- `pytesseract.image_to_string` becomes an `OcrEngine`, which maps an image and a
  language code to `Recognized(text) | OcrFailed(reason)`.
- Opening and writing the output file becomes a `Writer`, which maps a path and a text
  to `Written | WriteFailed(reason)`.
- A page image is the opaque type `Image`.

Each method returns what the Python method returns, plus a trace (`seq<Call>`) of
the foreign calls it made, in order. `ConvertPdfToImages` returns the page images and
`ExtractTextFromImages` and `ProcessPdf` return the text. `SaveText` returns the
writer's outcome as `written`, which `save_text` itself does not return (it returns
`None`) and which `ProcessPdf` discards. The trace lets the model state which
capabilities a run invokes, and with which arguments. Examples: "OCR and save are
never invoked when there are no pages" and "the write call carries exactly the
returned text".

Files:

- `outcomes.dfy`: the outcome datatypes, the oracle types and the `Call` trace entries.
- `text_join.dfy`: `Join`, which is Python's `sep.join`, with its length and layout.
- `page_texts.dfy`: `SuccessfulTexts`, the filter that keeps the texts of recognized
  pages, and `SuccessIndices`, an index-based description of the same filter.
- `converter.dfy`: the class `PdfToTextConverter` with the four methods, plus lemmas
  about the document text a run produces.

In `process_pdf`, the short circuit for "no images" does not change the returned text,
because `DocumentText([])` is `""` too. Its only observable effect is that no output
file is written (with no images there are no OCR calls either way). As in the source, a PDF with zero pages and a rasterization failure
cannot be told apart (`PagesOf`).

## Model

| member | source | states |
|---|---|---|
| `TextJoin.Join` | pdf_ocr_projesi/pdf_ocr_converter.py:59 | joining no texts gives `""`; joining k >= 1 texts gives a string as long as the texts together plus one separator per gap (k - 1 separators) |
| `TextJoin.JoinAppend` | pdf_ocr_projesi/pdf_ocr_converter.py:54-59 | appending one more text to a non-empty list extends the join by exactly one separator and that text |
| `TextJoin.PartStartClosedForm` | pdf_ocr_projesi/pdf_ocr_converter.py:59 | text k of a join starts after the k texts before it plus k separators |
| `TextJoin.JoinLayout` | pdf_ocr_projesi/pdf_ocr_converter.py:59 | every text sits unchanged at its offset in the join, and each text except the first is immediately preceded by the separator; with the length in `Join`, this fixes every character of the result |
| `TextJoin.JoinEnds` | pdf_ocr_projesi/pdf_ocr_converter.py:59 | a non-empty join starts with the first text and ends with the last: the join adds no separator before the first text or after the last |
| `PageTexts.SuccessfulTexts` | pdf_ocr_projesi/pdf_ocr_converter.py:50-57 | the kept texts are never more than the pages, and each kept text is the output of some recognized page |
| `PageTexts.SuccessIndices` | pdf_ocr_projesi/pdf_ocr_converter.py:51-57 | the positions of the recognized pages: strictly increasing, each one a recognized page, and every recognized page included |
| `PageTexts.SuccessfulTextsAppend` | pdf_ocr_projesi/pdf_ocr_converter.py:51-57 | filtering distributes over concatenation of page runs, so later pages are processed whatever happened before them |
| `PageTexts.SuccessfulTextsSnoc` | pdf_ocr_projesi/pdf_ocr_converter.py:52-57 | one more page adds its text when recognized, and nothing when its OCR raised |
| `PageTexts.SuccessfulTextsAtIndices` | pdf_ocr_projesi/pdf_ocr_converter.py:50-57 | the kept texts are exactly the texts of the recognized pages, one for one, in increasing page order |
| `PageTexts.AllRecognized` | pdf_ocr_projesi/pdf_ocr_converter.py:50-57 | when every page is recognized, every page's text is kept, in page order |
| `PageTexts.AllFailed` | pdf_ocr_projesi/pdf_ocr_converter.py:50-57 | when every page fails, nothing is kept |
| `PageTexts.FailedPageDropped` | pdf_ocr_projesi/pdf_ocr_converter.py:56-57 | a failed page anywhere in the run can be removed without changing the kept texts |
| `PageTexts.RecognizedPageKept` | pdf_ocr_projesi/pdf_ocr_converter.py:53-54 | a recognized page contributes its text exactly once, between the texts of the pages before it and after it |
| `PdfOcrConverter.PdfToTextConverter.constructor` | pdf_ocr_projesi/pdf_ocr_converter.py:8-13 | the converter holds the configured OCR engine and language code; the language defaults to `"tur"` |
| `PdfOcrConverter.PdfToTextConverter.ConvertPdfToImages` | pdf_ocr_projesi/pdf_ocr_converter.py:32-38 | calls the rasterizer exactly once, with the PDF path; returns its pages unchanged on success and `[]` when it raises |
| `PdfOcrConverter.PdfToTextConverter.ExtractTextFromImages` | pdf_ocr_projesi/pdf_ocr_converter.py:40-59 | the loop's list is always the recognized texts of the pages processed so far (never longer than the page count); the result is their join, and `""` for no images; OCR is called once per page, in order, numbered from 1 and using the configured language |
| `PdfOcrConverter.PdfToTextConverter.SaveText` | pdf_ocr_projesi/pdf_ocr_converter.py:69-74 | calls the file system once, with the path and the whole text; a write failure is swallowed; `written` reports the writer's outcome, which the source discards |
| `PdfOcrConverter.PdfToTextConverter.ProcessPdf` | pdf_ocr_projesi/pdf_ocr_converter.py:76-101 | with no page images it returns `""` after the rasterize call alone, with no OCR and no write, even when given an output path; otherwise it returns the document text of the pages, and after the OCR calls it writes that same text only when the output path is truthy (neither `None` nor `""`); the text does not depend on the output path or on the write outcome; the output path defaults to `None`, so a call without it never writes. Two helpers appear in this contract: `PagesOf` is the rasterize-or-empty policy (lines 36-38) feeding the `not images` test (line 90), and `IsTruthy` is the `if output_path:` test (line 98) |
| `PdfOcrConverter.PdfToTextConverter.AllPagesRecognized` | pdf_ocr_projesi/pdf_ocr_converter.py:50-59 | if every page is recognized, the document is the page texts in page order joined with `"\n\n"` |
| `PdfOcrConverter.PdfToTextConverter.FailedPageContributesNothing` | pdf_ocr_projesi/pdf_ocr_converter.py:51-59 | a page whose OCR raises adds no text, no placeholder and no separator; the document equals the one made from the other pages alone |
| `PdfOcrConverter.PdfToTextConverter.AllPagesFailed` | pdf_ocr_projesi/pdf_ocr_converter.py:56-59 | if OCR raises on every page, the document is `""` |
| `PdfOcrConverter.PdfToTextConverter.KeptTextIsRecognizedPage` | pdf_ocr_projesi/pdf_ocr_converter.py:51-57 | the k-th kept text is the OCR text of the k-th recognized page, so the relative page order is preserved |
| `PdfOcrConverter.PdfToTextConverter.KeptTextLayout` | pdf_ocr_projesi/pdf_ocr_converter.py:59 | the k-th kept text appears at its place in the document, with one `"\n\n"` before it unless it is the first |
| `PdfOcrConverter.PdfToTextConverter.DocumentTextLength` | pdf_ocr_projesi/pdf_ocr_converter.py:59 | with k >= 1 recognized pages, the document's length is the sum of their text lengths plus 2·(k−1); with none, the document is `""` |
| `PdfOcrConverter.PdfToTextConverter.HelloWorld` | pdf_ocr_projesi/pdf_ocr_converter.py:50-59 | two pages recognized as "Hello" and "World" give `"Hello\n\nWorld"` |
| `PdfOcrConverter.PdfToTextConverter.MiddlePageFails` | pdf_ocr_projesi/pdf_ocr_converter.py:50-59 | three pages whose middle OCR raises give `t1 + "\n\n" + t3` |
| `PdfOcrConverter.PersistenceIndependence` | pdf_ocr_projesi/pdf_ocr_converter.py:95-101 | one PDF processed three ways returns the same text each time: with no output path, with a write that succeeds and with a write that fails; that text is `""` when there are no pages |

## Left out

- Logging (setup at lines 16-20 and every log message): diagnostics only. The 1-based page number survives only as the page number in each OCR trace entry.
- How the engine is configured: line 12 sets `tesseract_cmd` for the whole process. Here the engine belongs to each converter (`engine`), so one converter's construction changing another converter's engine is not modelled.
- `main` (lines 103-122): command-line glue with hardcoded paths and `print`.
- What rasterization, OCR and image contents do internally: the oracle types stand in for them, and images are opaque.
- The OCR engine is modelled as deterministic: the same image and language always give the same outcome. A run of the source could see different outcomes for equal images.
- The rasterizer and the writer are deterministic too: pure functions of the path (and text). The source calls `convert_from_path` and `open` afresh on every run, and they could answer differently each time.
- PdfOcrConverter.PersistenceIndependence: its three runs share one rasterizer, so they see the same rasterization outcome. Part of "the same text three times" comes from that shared outcome; the part that the output path and the writer cannot change the text is `ProcessPdf`'s own contract, which holds for every run.
- PdfOcrConverter.PdfToTextConverter.constructor: the default `tesseract_path` (a Windows install location) is not modelled; the `engine` parameter takes its place and has no default. The `language` default `"tur"` is modelled.
- PdfOcrConverter.PdfToTextConverter.SaveText: file contents are not modelled. In particular, a write that opens (and so truncates) the file and then fails leaves an empty or partial file in the source; here it is one `WriteFailed` outcome.
- File I/O inside `save_text`: opening, UTF-8 encoding and overwriting are reduced to one `Written`/`WriteFailed` outcome per write.
- Exceptions outside Python's `Exception` class (such as `KeyboardInterrupt`) are not caught by the source and are not modelled.
- Inputs of other Python types: the source takes any iterable for `images` and any object for `output_path`. Here they are a `seq<Image>` and an `Option<string>`, where `None` and `""` are the falsy values.

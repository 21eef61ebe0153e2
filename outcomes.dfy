/** The values that cross the boundary between the converter and the
    capabilities it delegates to: the PDF rasterizer, the OCR engine and the
    file system.  Each foreign call is modelled as an oracle that returns an
    outcome value; an exception raised by the foreign call is an error outcome. */
module Outcomes {

  /** One rasterized PDF page.  Its pixels are never inspected by the
      converter, so the type is left opaque. */
  type Image

  datatype Option<+T> = None | Some(value: T)

  /** What the OCR engine does with one page image: it returns the recognized
      text (possibly empty), or it raises. */
  datatype OcrOutcome = Recognized(text: string) | OcrFailed(reason: string)

  /** What the rasterizer does with a PDF path: it returns the page images in
      document order, or it raises (missing file, corrupt PDF, missing tool). */
  datatype RasterOutcome = Rasterized(pages: seq<Image>) | RasterFailed(reason: string)

  /** What opening the output file and writing the text to it does. */
  datatype WriteOutcome = Written | WriteFailed(reason: string)

  /** The OCR engine configured at construction, applied to a page image and a
      language code. */
  type OcrEngine = (Image, string) -> OcrOutcome

  /** The PDF-to-images capability, applied to a PDF path. */
  type Rasterizer = string -> RasterOutcome

  /** The file system, applied to an output path and the text to write there. */
  type Writer = (string, string) -> WriteOutcome

  /** One invocation of a foreign capability, as it appears in a run's trace.
      OCR calls carry the 1-based page position in the input sequence and the
      language passed to the engine. */
  datatype Call =
    | RasterizeCall(pdfPath: string)
    | OcrCall(page: nat, language: string)
    | WriteCall(path: string, text: string)
}

/** The PDF-to-text converter: rasterize the PDF, OCR each page image in
    order, join the recognized page texts with a double line break, and
    optionally write the result to a file.  Every failure of a foreign call is
    caught where it happens and turned into a value: a failed rasterization
    into "no pages", a failed page into "no text for that page", a failed write
    into nothing at all.  A run reports, besides the text it returns, the trace
    of foreign calls it made, so that which capabilities were invoked (and with
    what) can be stated. */
module PdfOcrConverter {
  import opened Outcomes
  import opened TextJoin
  import opened PageTexts

  /** Python truthiness of the optional output path: both `None` and the empty
      string mean "do not save". */
  predicate IsTruthy(outputPath: Option<string>)
  {
    outputPath.Some? && outputPath.value != ""
  }

  /** The page images the rasterization stage hands on: the pages on success,
      none on failure.  A failed rasterization and a PDF with no pages are
      therefore indistinguishable downstream. */
  function PagesOf(raster: RasterOutcome): seq<Image>
  {
    match raster
    case Rasterized(pages) => pages
    case RasterFailed(_) => []
  }

  /** The OCR calls of a run over n pages: one per page, in page order,
      numbered from 1, each with the configured language. */
  function OcrCalls(n: nat, language: string): seq<Call>
  {
    seq(n, j requires 0 <= j < n => OcrCall(j + 1, language))
  }

  class PdfToTextConverter {
    /** The OCR engine, fixed at construction (the engine's location). */
    const engine: OcrEngine
    /** The language code passed to the engine for every page. */
    const language: string

    /** The language defaults to Turkish ("tur"), as in the source. */
    constructor (engine: OcrEngine, language: string := "tur")
      ensures this.engine == engine && this.language == language
    {
      this.engine := engine;
      this.language := language;
    }

    /** What the engine does with each page, in page order. */
    function PageOutcomes(images: seq<Image>): seq<OcrOutcome>
    {
      seq(|images|, j requires 0 <= j < |images| => engine(images[j], language))
    }

    lemma PageOutcomesSnoc(images: seq<Image>, i: nat)
      requires i < |images|
      ensures PageOutcomes(images[..i + 1]) == PageOutcomes(images[..i]) + [engine(images[i], language)]
    {
    }

    /** The document text of a sequence of page images: the recognized page
        texts, in page order, joined with the page separator. */
    function DocumentText(images: seq<Image>): string
    {
      Join(SuccessfulTexts(PageOutcomes(images)), PageSeparator)
    }

    /** Rasterization with its error policy: the rasterizer is called once,
        with the PDF path; whatever it raises becomes the empty page list, and
        on success its pages are handed on unchanged, in document order. */
    method ConvertPdfToImages(pdfPath: string, rasterizer: Rasterizer)
      returns (images: seq<Image>, calls: seq<Call>)
      ensures calls == [RasterizeCall(pdfPath)]
      ensures rasterizer(pdfPath).Rasterized? ==> images == rasterizer(pdfPath).pages
      ensures rasterizer(pdfPath).RasterFailed? ==> images == []
    {
      calls := [RasterizeCall(pdfPath)];
      match rasterizer(pdfPath)
      case Rasterized(pages) =>
        images := pages;
      case RasterFailed(_) =>
        images := [];
    }

    /** OCR every page in order, keep the text of each page the engine
        recognizes, skip each page on which it raises, and join what was kept.
        Every page is submitted to the engine exactly once, in order, whatever
        happened to the pages before it. */
    method ExtractTextFromImages(images: seq<Image>) returns (text: string, calls: seq<Call>)
      ensures text == DocumentText(images)
      ensures images == [] ==> text == ""
      ensures calls == OcrCalls(|images|, language)
    {
      var extracted: seq<string> := [];
      calls := [];
      for i := 0 to |images|
        invariant extracted == SuccessfulTexts(PageOutcomes(images[..i]))
        invariant |extracted| <= i
        invariant calls == OcrCalls(i, language)
      {
        var outcome := engine(images[i], language);
        PageOutcomesSnoc(images, i);
        SuccessfulTextsSnoc(PageOutcomes(images[..i]), outcome);
        assert OcrCalls(i + 1, language) == OcrCalls(i, language) + [OcrCall(i + 1, language)];
        calls := calls + [OcrCall(i + 1, language)];
        match outcome
        case Recognized(t) =>
          extracted := extracted + [t];
        case OcrFailed(_) =>
      }
      assert images[..|images|] == images;
      text := Join(extracted, PageSeparator);
    }

    /** Writing the text to the output path: the file system is called once,
        with the path and the whole text, and a failure is swallowed.  `written`
        reports the writer's outcome, which the caller discards. */
    method SaveText(text: string, outputPath: string, writer: Writer)
      returns (written: bool, calls: seq<Call>)
      ensures calls == [WriteCall(outputPath, text)]
      ensures written <==> writer(outputPath, text).Written?
    {
      calls := [WriteCall(outputPath, text)];
      match writer(outputPath, text)
      case Written =>
        written := true;
      case WriteFailed(_) =>
        written := false;
    }

    /** The whole pipeline.  With no page images (rasterization failed or the
        PDF has no pages) the run stops right after rasterizing and returns "":
        no OCR, no write, even with an output path.  Otherwise it returns the
        document text of the pages, writes that very text to the output path
        when the path is truthy, and returns the same text whether no write was
        asked for, the write succeeded or the write failed: neither the output
        path nor the file system appear in what the text is.  As in the source,
        the output path may be left out, and then defaults to `None`. */
    method ProcessPdf(pdfPath: string, rasterizer: Rasterizer, writer: Writer, outputPath: Option<string> := None)
      returns (text: string, calls: seq<Call>)
      ensures PagesOf(rasterizer(pdfPath)) == [] ==> text == "" && calls == [RasterizeCall(pdfPath)]
      ensures PagesOf(rasterizer(pdfPath)) != [] ==> text == DocumentText(PagesOf(rasterizer(pdfPath)))
      ensures PagesOf(rasterizer(pdfPath)) != [] ==>
                calls == [RasterizeCall(pdfPath)]
                         + OcrCalls(|PagesOf(rasterizer(pdfPath))|, language)
                         + (if IsTruthy(outputPath) then [WriteCall(outputPath.value, text)] else [])
    {
      var images, rasterCalls := ConvertPdfToImages(pdfPath, rasterizer);
      calls := rasterCalls;
      if images == [] {
        return "", calls;
      }
      var ocrCalls;
      text, ocrCalls := ExtractTextFromImages(images);
      calls := calls + ocrCalls;
      if IsTruthy(outputPath) {
        var _, writeCalls := SaveText(text, outputPath.value, writer);
        calls := calls + writeCalls;
      }
    }

    /** When every page is recognized, the document text is the page texts in
        page order joined with the separator. */
    lemma AllPagesRecognized(images: seq<Image>, texts: seq<string>)
      requires |texts| == |images|
      requires forall j :: 0 <= j < |images| ==> engine(images[j], language) == Recognized(texts[j])
      ensures DocumentText(images) == Join(texts, PageSeparator)
    {
      var outcomes := PageOutcomes(images);
      AllRecognized(outcomes);
      assert SuccessfulTexts(outcomes) == texts;
    }

    /** A page on which OCR raises contributes nothing (no text, no
        placeholder, no separator), and the pages after it still count: the
        document is the one the other pages alone would give. */
    lemma FailedPageContributesNothing(before: seq<Image>, page: Image, after: seq<Image>)
      requires engine(page, language).OcrFailed?
      ensures DocumentText(before + [page] + after) == DocumentText(before + after)
    {
      assert PageOutcomes(before + [page] + after)
             == PageOutcomes(before) + [engine(page, language)] + PageOutcomes(after);
      assert PageOutcomes(before + after) == PageOutcomes(before) + PageOutcomes(after);
      FailedPageDropped(PageOutcomes(before), engine(page, language), PageOutcomes(after));
    }

    /** When OCR raises on every page, the document text is empty. */
    lemma AllPagesFailed(images: seq<Image>)
      requires forall j :: 0 <= j < |images| ==> engine(images[j], language).OcrFailed?
      ensures DocumentText(images) == ""
    {
      AllFailed(PageOutcomes(images));
    }

    /** The k-th text kept is the text of the k-th recognized page, and the
        recognized pages are taken in increasing page order (see
        SuccessIndices): the document keeps the pages' relative order. */
    lemma KeptTextIsRecognizedPage(images: seq<Image>, k: nat)
      requires k < |SuccessfulTexts(PageOutcomes(images))|
      ensures var idx := SuccessIndices(PageOutcomes(images));
              && |idx| == |SuccessfulTexts(PageOutcomes(images))|
              && idx[k] < |images|
              && engine(images[idx[k]], language) == Recognized(SuccessfulTexts(PageOutcomes(images))[k])
    {
      var outcomes := PageOutcomes(images);
      SuccessfulTextsAtIndices(outcomes);
      var idx := SuccessIndices(outcomes);
      assert outcomes[idx[k]] == engine(images[idx[k]], language);
    }

    /** Where the k-th kept text sits in the document: at its place in the
        join, with one separator before it unless it is the first. */
    lemma KeptTextLayout(images: seq<Image>, k: nat)
      requires k < |SuccessfulTexts(PageOutcomes(images))|
      ensures var texts := SuccessfulTexts(PageOutcomes(images));
              var r := DocumentText(images);
              var start := PartStart(texts, PageSeparator, k);
              && start + |texts[k]| <= |r|
              && r[start .. start + |texts[k]|] == texts[k]
              && (k > 0 ==> 2 <= start && r[start - 2 .. start] == PageSeparator)
    {
      JoinLayout(SuccessfulTexts(PageOutcomes(images)), PageSeparator, k);
    }

    /** With k >= 1 recognized pages, the document is as long as their texts
        together plus one two-character separator for each of the k - 1 gaps;
        with none it is empty. */
    lemma DocumentTextLength(images: seq<Image>)
      ensures var texts := SuccessfulTexts(PageOutcomes(images));
              && (texts == [] ==> DocumentText(images) == "")
              && (texts != [] ==> |DocumentText(images)| == TotalLength(texts) + 2 * (|texts| - 1))
    {
    }

    /** Two pages that OCR to "Hello" and "World" give "Hello\n\nWorld". */
    lemma HelloWorld(first: Image, second: Image)
      requires engine(first, language) == Recognized("Hello")
      requires engine(second, language) == Recognized("World")
      ensures DocumentText([first, second]) == "Hello\n\nWorld"
    {
      AllPagesRecognized([first, second], ["Hello", "World"]);
    }

    /** Three pages whose middle one fails: the first and third texts with a
        single separator between them. */
    lemma MiddlePageFails(p1: Image, p2: Image, p3: Image, t1: string, t3: string)
      requires engine(p1, language) == Recognized(t1)
      requires engine(p2, language).OcrFailed?
      requires engine(p3, language) == Recognized(t3)
      ensures DocumentText([p1, p2, p3]) == t1 + "\n\n" + t3
    {
      FailedPageContributesNothing([p1], p2, [p3]);
      assert [p1] + [p2] + [p3] == [p1, p2, p3];
      assert [p1] + [p3] == [p1, p3];
      AllPagesRecognized([p1, p3], [t1, t3]);
    }
  }

  /** The text a run returns does not depend on persistence: the same PDF
      processed with no output path, with an output path the file system
      accepts and with one it refuses yields the same text three times. */
  method PersistenceIndependence(converter: PdfToTextConverter, pdfPath: string, outputPath: string,
                                 rasterizer: Rasterizer, accepting: Writer, refusing: Writer)
    returns (withoutPath: string, saved: string, notSaved: string)
    requires outputPath != ""
    requires forall p, t :: accepting(p, t).Written?
    requires forall p, t :: refusing(p, t).WriteFailed?
    ensures withoutPath == saved == notSaved
    ensures PagesOf(rasterizer(pdfPath)) == [] ==> withoutPath == ""
  {
    var calls;
    withoutPath, calls := converter.ProcessPdf(pdfPath, rasterizer, accepting);
    saved, calls := converter.ProcessPdf(pdfPath, rasterizer, accepting, Some(outputPath));
    notSaved, calls := converter.ProcessPdf(pdfPath, rasterizer, refusing, Some(outputPath));
  }
}

/** Which page texts reach the document: those of the pages whose OCR
    succeeded, in page order.  A page whose OCR raised contributes nothing,
    not even an empty placeholder. */
module PageTexts {
  import opened Outcomes

  /** The texts of the recognized pages, in the order of the pages. */
  function SuccessfulTexts(outcomes: seq<OcrOutcome>): (r: seq<string>)
    ensures |r| <= |outcomes|
    ensures forall t :: t in r ==> Recognized(t) in outcomes
  {
    if outcomes == [] then []
    else
      var rest := SuccessfulTexts(outcomes[1..]);
      assert forall t :: t in rest ==> Recognized(t) in outcomes[1..];
      match outcomes[0]
      case Recognized(t) => [t] + rest
      case OcrFailed(_) => rest
  }

  /** The positions (0-based) of the recognized pages, in increasing order:
      exactly the pages whose OCR succeeded, each once. */
  function SuccessIndices(outcomes: seq<OcrOutcome>): (r: seq<nat>)
    ensures forall k :: 0 <= k < |r| ==> r[k] < |outcomes| && outcomes[r[k]].Recognized?
    ensures forall k, l :: 0 <= k < l < |r| ==> r[k] < r[l]
    ensures forall j :: 0 <= j < |outcomes| && outcomes[j].Recognized? ==> j in r
  {
    if outcomes == [] then []
    else
      var n := |outcomes| - 1;
      var before := SuccessIndices(outcomes[..n]);
      if outcomes[n].Recognized? then before + [n] else before
  }

  /** Filtering distributes over concatenation of page runs. */
  lemma {:induction false} SuccessfulTextsAppend(a: seq<OcrOutcome>, b: seq<OcrOutcome>)
    ensures SuccessfulTexts(a + b) == SuccessfulTexts(a) + SuccessfulTexts(b)
  {
    if a != [] {
      assert (a + b)[0] == a[0];
      assert (a + b)[1..] == a[1..] + b;
      SuccessfulTextsAppend(a[1..], b);
    } else {
      assert a + b == b;
    }
  }

  /** One more page at the end adds its text when it was recognized, and
      nothing when its OCR failed. */
  lemma SuccessfulTextsSnoc(outcomes: seq<OcrOutcome>, last: OcrOutcome)
    ensures SuccessfulTexts(outcomes + [last])
            == SuccessfulTexts(outcomes) + (if last.Recognized? then [last.text] else [])
  {
    SuccessfulTextsAppend(outcomes, [last]);
    assert [last][1..] == [];
  }

  /** The filtered texts are exactly the texts at the success indices:
      the same number, in the same order.  So every recognized page appears,
      failed pages do not, and the relative order of pages is kept. */
  lemma {:induction false} SuccessfulTextsAtIndices(outcomes: seq<OcrOutcome>)
    ensures var texts := SuccessfulTexts(outcomes);
            var idx := SuccessIndices(outcomes);
            && |texts| == |idx|
            && forall k :: 0 <= k < |texts| ==> texts[k] == outcomes[idx[k]].text
  {
    if outcomes != [] {
      var n := |outcomes| - 1;
      var prefix := outcomes[..n];
      SuccessfulTextsAtIndices(prefix);
      assert prefix + [outcomes[n]] == outcomes;
      SuccessfulTextsAppend(prefix, [outcomes[n]]);
      assert [outcomes[n]][1..] == [];
    }
  }

  /** When every page is recognized, every page text appears, in page order. */
  lemma {:induction false} AllRecognized(outcomes: seq<OcrOutcome>)
    requires forall j :: 0 <= j < |outcomes| ==> outcomes[j].Recognized?
    ensures var texts := SuccessfulTexts(outcomes);
            && |texts| == |outcomes|
            && forall j :: 0 <= j < |outcomes| ==> texts[j] == outcomes[j].text
  {
    if outcomes != [] {
      AllRecognized(outcomes[1..]);
    }
  }

  /** When every page fails, no text is left. */
  lemma {:induction false} AllFailed(outcomes: seq<OcrOutcome>)
    requires forall j :: 0 <= j < |outcomes| ==> outcomes[j].OcrFailed?
    ensures SuccessfulTexts(outcomes) == []
  {
    if outcomes != [] {
      AllFailed(outcomes[1..]);
    }
  }

  /** A failed page contributes nothing: removing it from anywhere in the
      run changes nothing, and the pages after it are still taken. */
  lemma FailedPageDropped(before: seq<OcrOutcome>, failed: OcrOutcome, after: seq<OcrOutcome>)
    requires failed.OcrFailed?
    ensures SuccessfulTexts(before + [failed] + after) == SuccessfulTexts(before + after)
  {
    SuccessfulTextsAppend(before + [failed], after);
    SuccessfulTextsAppend(before, [failed]);
    SuccessfulTextsAppend(before, after);
    assert [failed][1..] == [];
  }

  /** A recognized page contributes its text, exactly once, at its place. */
  lemma RecognizedPageKept(before: seq<OcrOutcome>, text: string, after: seq<OcrOutcome>)
    ensures SuccessfulTexts(before + [Recognized(text)] + after)
            == SuccessfulTexts(before) + [text] + SuccessfulTexts(after)
  {
    SuccessfulTextsAppend(before + [Recognized(text)], after);
    SuccessfulTextsAppend(before, [Recognized(text)]);
    assert [Recognized(text)][1..] == [];
  }
}

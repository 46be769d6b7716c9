/**
 * The best-of-N OCR selection of `_ocr_image_bytes` and `extract_text_from_images`: Tesseract is
 * run with three page-segmentation modes and the text with the longest stripped form is kept.
 * Tesseract itself is left out: what each run returned is an input.
 */
module Ocr {
  import opened Wrappers
  import opened Text

  /** What one Tesseract run returned: a text, or an exception (the run is then skipped). */
  datatype OcrAttempt = Failed | Read(text: string)

  /** The runs for the three configurations, in the order they are tried: `--psm 6`, `--psm 4`, `--psm 3`. */
  datatype OcrRuns = OcrRuns(psm6: OcrAttempt, psm4: OcrAttempt, psm3: OcrAttempt)

  function Attempts(runs: OcrRuns): seq<OcrAttempt> {
    [runs.psm6, runs.psm4, runs.psm3]
  }

  /** Length of the stripped text of a run that returned one. */
  function StrippedLength(a: OcrAttempt): nat
    requires a.Read?
  {
    |Strip(a.text)|
  }

  /** The text kept after the first `n` runs: replaced only by a text whose stripped form is strictly longer. */
  function BestUpTo(attempts: seq<OcrAttempt>, n: nat): string
    requires n <= |attempts|
  {
    if n == 0 then ""
    else
      var best := BestUpTo(attempts, n - 1);
      match attempts[n - 1]
      case Failed => best
      case Read(text) => if |Strip(text)| > |Strip(best)| then text else best
  }

  /** The text kept after all runs. */
  function BestText(runs: OcrRuns): string {
    BestUpTo(Attempts(runs), 3)
  }

  /** The loop over the configurations: keep a text whose stripped form is longer than the best so far. */
  method SelectBestText(attempts: seq<OcrAttempt>) returns (best: string)
    ensures best == BestUpTo(attempts, |attempts|)
  {
    best := "";
    for i := 0 to |attempts|
      invariant best == BestUpTo(attempts, i)
    {
      match attempts[i]
      case Failed =>
      case Read(text) =>
        if |Strip(text)| > |Strip(best)| {
          best := text;
        }
    }
  }

  /** `_ocr_image_bytes`: the stripped best text, or "" when the bytes cannot be opened as an image. */
  method OcrImageBytes(image: Option<OcrRuns>) returns (text: string)
    ensures text == OcrText(image)
  {
    match image
    case None =>
      text := "";
    case Some(runs) =>
      var best := SelectBestText(Attempts(runs));
      text := Strip(best);
  }

  /** What `_ocr_image_bytes` returns. */
  function OcrText(image: Option<OcrRuns>): string {
    match image
    case None => ""
    case Some(runs) => Strip(BestText(runs))
  }

  /** No run that returned a text has a stripped form longer than the kept text's. */
  lemma {:induction false} BestIsLongest(attempts: seq<OcrAttempt>, n: nat)
    requires n <= |attempts|
    ensures forall k :: 0 <= k < n && attempts[k].Read? ==> StrippedLength(attempts[k]) <= |Strip(BestUpTo(attempts, n))|
  {
    if n > 0 {
      BestIsLongest(attempts, n - 1);
    }
  }

  /** The kept text is "" exactly when no run returned a text with a non-empty stripped form. */
  lemma {:induction false} BestIsEmpty(attempts: seq<OcrAttempt>, n: nat)
    requires n <= |attempts|
    ensures BestUpTo(attempts, n) == "" <==> forall k :: 0 <= k < n && attempts[k].Read? ==> StrippedLength(attempts[k]) == 0
  {
    if n > 0 {
      BestIsEmpty(attempts, n - 1);
      var best := BestUpTo(attempts, n - 1);
      if best == "" {
        assert Strip(best) == "";
      } else {
        assert BestUpTo(attempts, n) != "";
      }
    }
  }

  /** A non-empty kept text is the text of the earliest run whose stripped form is longest. */
  lemma {:induction false} BestIsEarliest(attempts: seq<OcrAttempt>, n: nat)
    requires n <= |attempts|
    ensures BestUpTo(attempts, n) != "" ==>
      exists k :: 0 <= k < n && attempts[k] == Read(BestUpTo(attempts, n))
        && forall m :: 0 <= m < k && attempts[m].Read? ==> StrippedLength(attempts[m]) < StrippedLength(attempts[k])
  {
    if n > 0 {
      var best := BestUpTo(attempts, n - 1);
      if BestUpTo(attempts, n) != best {
        BestIsLongest(attempts, n - 1);
        assert attempts[n - 1] == Read(BestUpTo(attempts, n));
        assert StrippedLength(attempts[n - 1]) > |Strip(best)|;
      } else {
        BestIsEarliest(attempts, n - 1);
      }
    }
  }

  /** What `_ocr_image_bytes` returns has no whitespace at either end, so stripping it again changes nothing. */
  lemma OcrTextIsStripped(image: Option<OcrRuns>)
    ensures Strip(OcrText(image)) == OcrText(image)
  {
    if image.Some? {
      var t := BestText(image.value);
      StripSlice(t);
      StripNoEdges(Strip(t));
    }
  }
}
